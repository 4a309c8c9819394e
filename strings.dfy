/**
 * String helpers shared by the tokenizer, the layout engine and the URL and
 * header helpers: searching a string, and Python's whitespace `str.split()`.
 */
module Strings {

  /** Index of the first character satisfying `p`, or |s| when there is none. */
  function Find(s: string, p: char -> bool): (k: nat)
    ensures k <= |s|
    ensures forall i :: 0 <= i < k ==> !p(s[i])
    ensures k < |s| ==> p(s[k])
  {
    if s == [] then 0
    else if p(s[0]) then 0
    else 1 + Find(s[1..], p)
  }

  /** A search in `a + b` stops in `a` when `a` has a match, and otherwise goes on into `b`. */
  lemma {:induction false} FindAppend(a: string, b: string, p: char -> bool)
    ensures Find(a + b, p) == if Find(a, p) < |a| then Find(a, p) else |a| + Find(b, p)
  {
    if a == [] {
      assert a + b == b;
    } else {
      assert (a + b)[0] == a[0];
      if !p(a[0]) {
        assert (a + b)[1..] == a[1..] + b;
        FindAppend(a[1..], b, p);
      }
    }
  }

  /** `pat` occurs in `s` starting at index `i`. */
  predicate OccursAt(s: string, pat: string, i: nat)
  {
    i + |pat| <= |s| && s[i..i + |pat|] == pat
  }

  lemma OccursAtTail(s: string, pat: string)
    requires s != []
    ensures forall i :: 1 <= i ==> (OccursAt(s, pat, i) <==> OccursAt(s[1..], pat, i - 1))
  {
    forall i | 1 <= i
      ensures OccursAt(s, pat, i) <==> OccursAt(s[1..], pat, i - 1)
    {
      if i + |pat| <= |s| {
        assert s[i..i + |pat|] == s[1..][i - 1..i - 1 + |pat|];
      }
    }
  }

  /** Index of the first occurrence of `pat` in `s`, or |s| when it does not occur. */
  function IndexOf(s: string, pat: string): (k: nat)
    requires pat != []
    ensures k <= |s|
    ensures k < |s| ==> OccursAt(s, pat, k)
    ensures forall i :: 0 <= i < k ==> !OccursAt(s, pat, i)
    decreases |s|
  {
    if |s| < |pat| then |s|
    else if s[..|pat|] == pat then 0
    else
      OccursAtTail(s, pat);
      1 + IndexOf(s[1..], pat)
  }

  /** True when `pat` occurs somewhere in `s`. */
  predicate Contains(s: string, pat: string)
    requires pat != []
  {
    IndexOf(s, pat) < |s|
  }

  /**
   * `pat` is found at `n` when it occurs there and no earlier character of `s`
   * can start it.
   */
  lemma {:induction false} IndexOfAt(s: string, pat: string, n: nat)
    requires pat != [] && OccursAt(s, pat, n)
    requires forall i :: 0 <= i < n ==> s[i] != pat[0]
    ensures IndexOf(s, pat) == n
  {
    if n > 0 {
      assert s[..|pat|][0] == s[0] != pat[0];
      OccursAtTail(s, pat);
      IndexOfAt(s[1..], pat, n - 1);
    } else {
      assert s[..|pat|] == s[n..n + |pat|];
    }
  }

  /**
   * The characters Python's `str.split()` treats as whitespace (those for which
   * `str.isspace()` holds).
   */
  predicate IsSpace(c: char)
  {
    || ('\t' <= c <= '\r')
    || ('\U{1C}' <= c <= ' ')
    || c == '\U{85}' || c == '\U{A0}' || c == '\U{1680}'
    || ('\U{2000}' <= c <= '\U{200A}')
    || c == '\U{2028}' || c == '\U{2029}' || c == '\U{202F}' || c == '\U{205F}' || c == '\U{3000}'
  }

  predicate NoSpace(s: string)
  {
    forall i :: 0 <= i < |s| ==> !IsSpace(s[i])
  }

  /** The word read so far, as a list of at most one word. */
  function Pending(cur: string): (ws: seq<string>)
    ensures cur == [] ==> ws == []
    ensures cur != [] ==> ws == [cur]
  {
    if cur == [] then [] else [cur]
  }

  /**
   * The words of `s` when the characters `cur` of a word have already been
   * read: a whitespace character ends the word being read, any other
   * character extends it, and the end of the string ends it too.
   */
  function WordsFrom(s: string, cur: string): (ws: seq<string>)
    requires NoSpace(cur)
    ensures forall i :: 0 <= i < |ws| ==> ws[i] != [] && NoSpace(ws[i])
    decreases |s|
  {
    if s == [] then Pending(cur)
    else if IsSpace(s[0]) then Pending(cur) + WordsFrom(s[1..], [])
    else WordsFrom(s[1..], cur + [s[0]])
  }

  /**
   * Python's `s.split()` with no separator: the maximal runs of non-whitespace
   * characters, in order; leading, trailing and repeated whitespace yield no
   * empty words.
   */
  function Words(s: string): (ws: seq<string>)
    ensures s == [] ==> ws == []
    ensures forall i :: 0 <= i < |ws| ==> ws[i] != [] && NoSpace(ws[i])
  {
    WordsFrom(s, [])
  }

  lemma {:induction false} WordsFromWord(w: string, cur: string)
    requires NoSpace(w) && NoSpace(cur)
    ensures WordsFrom(w, cur) == Pending(cur + w)
    decreases |w|
  {
    if w == [] {
      assert cur + w == cur;
    } else {
      WordsFromWord(w[1..], cur + [w[0]]);
      assert cur + [w[0]] + w[1..] == cur + w;
    }
  }

  /** A non-empty run of non-whitespace characters is one word. */
  lemma WordsOfWord(w: string)
    requires w != [] && NoSpace(w)
    ensures Words(w) == [w]
  {
    WordsFromWord(w, []);
    assert [] + w == w;
  }

  lemma {:induction false} WordsFromSplitAt(a: string, c: char, b: string, cur: string)
    requires IsSpace(c) && NoSpace(cur)
    ensures WordsFrom(a + [c] + b, cur) == WordsFrom(a, cur) + Words(b)
    decreases |a|
  {
    var s := a + [c] + b;
    if a == [] {
      assert s[0] == c && s[1..] == b;
    } else {
      assert s[0] == a[0] && s[1..] == a[1..] + [c] + b;
      if IsSpace(a[0]) {
        WordsFromSplitAt(a[1..], c, b, []);
      } else {
        WordsFromSplitAt(a[1..], c, b, cur + [a[0]]);
      }
    }
  }

  /**
   * Every whitespace character separates words: the words on either side of
   * it are split independently. With `WordsOfWord` and the empty string
   * having no words, this determines `split()` on every string: words break
   * exactly at whitespace and nowhere else.
   */
  lemma WordsSplitAt(a: string, c: char, b: string)
    requires IsSpace(c)
    ensures Words(a + [c] + b) == Words(a) + Words(b)
  {
    WordsFromSplitAt(a, c, b, []);
  }

  /** Concatenation of a sequence of strings. */
  function Concat(ws: seq<string>): (r: string)
    ensures |ws| == 0 ==> r == []
  {
    if ws == [] then [] else ws[0] + Concat(ws[1..])
  }

  lemma {:induction false} ConcatAppend(a: seq<string>, b: seq<string>)
    ensures Concat(a + b) == Concat(a) + Concat(b)
  {
    if a != [] {
      assert (a + b)[1..] == a[1..] + b;
      ConcatAppend(a[1..], b);
    } else {
      assert a + b == b;
    }
  }

  /** `s` with every whitespace character removed. */
  function RemoveSpaces(s: string): (r: string)
    ensures |r| <= |s|
  {
    if s == [] then []
    else (if IsSpace(s[0]) then [] else [s[0]]) + RemoveSpaces(s[1..])
  }

  lemma {:induction false} WordsFromCover(s: string, cur: string)
    requires NoSpace(cur)
    ensures Concat(WordsFrom(s, cur)) == cur + RemoveSpaces(s)
    decreases |s|
  {
    if s == [] {
      assert Concat([cur]) == cur + Concat([]);
    } else if IsSpace(s[0]) {
      WordsFromCover(s[1..], []);
      ConcatAppend(Pending(cur), WordsFrom(s[1..], []));
      assert Concat([cur]) == cur + Concat([]);
    } else {
      WordsFromCover(s[1..], cur + [s[0]]);
    }
  }

  /**
   * Splitting loses exactly the whitespace: the words, put back together, are
   * the input with its whitespace removed.
   */
  lemma WordsCover(s: string)
    ensures Concat(Words(s)) == RemoveSpaces(s)
  {
    WordsFromCover(s, []);
  }

  /** Number of occurrences of `c` in `s`. */
  function Count(c: char, s: string): (n: nat)
    ensures n <= |s|
  {
    if s == [] then 0 else (if s[0] == c then 1 else 0) + Count(c, s[1..])
  }

  lemma {:induction false} CountAppend(c: char, a: string, b: string)
    ensures Count(c, a + b) == Count(c, a) + Count(c, b)
  {
    if a != [] {
      assert (a + b)[0] == a[0];
      assert (a + b)[1..] == a[1..] + b;
      CountAppend(c, a[1..], b);
    } else {
      assert a + b == b;
    }
  }

  lemma {:induction false} CountAbsent(c: char, s: string)
    requires forall i :: 0 <= i < |s| ==> s[i] != c
    ensures Count(c, s) == 0
  {
    if s != [] {
      CountAbsent(c, s[1..]);
    }
  }
}
