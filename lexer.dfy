/**
 * The tokenizer: `lex` turns the raw document into a list of text runs and
 * markup directives. It scans once, left to right, with one flag saying
 * whether the scan is inside a tag, and it never fails.
 */
module Lexer {
  import opened Strings

  /** A run of literal text, or the raw contents of a `<...>` directive. */
  datatype Token = Text(text: string) | Tag(tag: string)
  {
    function Content(): string
    {
      match this
      case Text(s) => s
      case Tag(s) => s
    }
  }

  predicate IsDelim(c: char)
  {
    c == '<' || c == '>'
  }

  predicate NoDelim(s: string)
  {
    forall i :: 0 <= i < |s| ==> !IsDelim(s[i])
  }

  /** Index of the first `<` or `>` of `s`, or |s| when there is none. */
  function FirstDelim(s: string): (k: nat)
    ensures k <= |s|
    ensures forall i :: 0 <= i < k ==> !IsDelim(s[i])
    ensures k < |s| ==> IsDelim(s[k])
  {
    if s == [] then 0
    else if IsDelim(s[0]) then 0
    else
      1 + FirstDelim(s[1..])
  }

  lemma {:induction false} FirstDelimAppend(a: string, b: string)
    ensures FirstDelim(a + b) == if FirstDelim(a) < |a| then FirstDelim(a) else |a| + FirstDelim(b)
  {
    if a == [] {
      assert a + b == b;
    } else {
      assert (a + b)[0] == a[0];
      if !IsDelim(a[0]) {
        assert (a + b)[1..] == a[1..] + b;
        FirstDelimAppend(a[1..], b);
      }
    }
  }

  /**
   * Reference tokenization, one delimiter-free segment at a time: the segment
   * before a `>` is a tag (even when empty), a non-empty segment before a `<` is
   * text, and the final segment is text unless the last delimiter was a `<`
   * (then it is an unterminated tag and is dropped). `afterOpen` says whether
   * the last delimiter before `s` was a `<`.
   */
  function Tokens(s: string, afterOpen: bool): seq<Token>
    decreases |s|
  {
    var k := FirstDelim(s);
    if k == |s| then
      if afterOpen || s == [] then [] else [Text(s)]
    else if s[k] == '>' then
      [Tag(s[..k])] + Tokens(s[k + 1..], false)
    else
      (if k == 0 then [] else [Text(s[..k])]) + Tokens(s[k + 1..], true)
  }

  /** The tokens of a whole document; the scan starts outside any tag. */
  function Tokenize(body: string): (r: seq<Token>)
    ensures body == [] ==> r == []
  {
    Tokens(body, false)
  }

  /** No text token is empty, and no token holds a delimiter. */
  predicate WellFormed(toks: seq<Token>)
  {
    forall i :: 0 <= i < |toks| ==>
      (toks[i].Text? ==> toks[i].text != []) && NoDelim(toks[i].Content())
  }

  function TagCount(toks: seq<Token>): nat
  {
    if toks == [] then 0 else (if toks[0].Tag? then 1 else 0) + TagCount(toks[1..])
  }

  /** The contents of the text tokens, in order. */
  function Texts(toks: seq<Token>): seq<string>
  {
    if toks == [] then []
    else (if toks[0].Text? then [toks[0].text] else []) + Texts(toks[1..])
  }

  lemma {:induction false} NoDelimFind(s: string)
    requires NoDelim(s)
    ensures FirstDelim(s) == |s|
  {
  }

  /** How the reference tokenization proceeds at a delimiter that follows a delimiter-free segment. */
  lemma {:induction false} TokensAtDelim(seg: string, rest: string, afterOpen: bool)
    requires NoDelim(seg) && rest != [] && IsDelim(rest[0])
    ensures Tokens(seg + rest, afterOpen) ==
      if rest[0] == '>' then [Tag(seg)] + Tokens(rest[1..], false)
      else (if seg == [] then [] else [Text(seg)]) + Tokens(rest[1..], true)
  {
    var s := seg + rest;
    assert s[..|seg|] == seg;
    assert s[|seg| + 1..] == rest[1..];
    assert s[|seg|] == rest[0];
    FirstDelimAppend(seg, rest);
    NoDelimFind(seg);
    var k := FirstDelim(s);
    assert k == |seg|;
  }

  /** A `<` emits the pending text when there is any, and the scan goes on inside a tag. */
  lemma {:induction false} LexOpen(out: seq<Token>, text: string, rest: string, inTag: bool)
    requires NoDelim(text) && rest != [] && rest[0] == '<'
    ensures out + Tokens(text + rest, inTag) ==
      (if text != "" then out + [Text(text)] else out) + Tokens("" + rest[1..], true)
  {
    assert "" + rest[1..] == rest[1..];
    TokensAtDelim(text, rest, inTag);
    var tail := Tokens(rest[1..], true);
    if text == [] {
      assert [] + tail == tail;
    } else {
      assert (out + [Text(text)]) + tail == out + ([Text(text)] + tail);
    }
  }

  /** A `>` emits the pending text as a tag, and the scan goes on outside any tag. */
  lemma {:induction false} LexClose(out: seq<Token>, text: string, rest: string, inTag: bool)
    requires NoDelim(text) && rest != [] && rest[0] == '>'
    ensures out + Tokens(text + rest, inTag) == (out + [Tag(text)]) + Tokens("" + rest[1..], false)
  {
    assert "" + rest[1..] == rest[1..];
    TokensAtDelim(text, rest, inTag);
    var tail := Tokens(rest[1..], false);
    assert (out + [Tag(text)]) + tail == out + ([Tag(text)] + tail);
  }

  /** Any other character joins the pending text. */
  lemma LexPlain(text: string, rest: string)
    requires NoDelim(text) && rest != [] && !IsDelim(rest[0])
    ensures NoDelim(text + [rest[0]])
    ensures text + rest == (text + [rest[0]]) + rest[1..]
  {
    assert rest == [rest[0]] + rest[1..];
  }

  /** At the end of the body, pending text outside a tag is emitted; an unterminated tag is dropped. */
  lemma LexEnd(out: seq<Token>, text: string, inTag: bool)
    requires NoDelim(text)
    ensures out + Tokens(text, inTag) == if !inTag && text != "" then out + [Text(text)] else out
  {
    NoDelimFind(text);
    assert out + [] == out;
  }

  /** The tokenizer: a single scan keeping the pending text and whether it is inside a tag. */
  method Lex(body: string) returns (out: seq<Token>)
    ensures out == Tokenize(body)
    ensures WellFormed(out)
    ensures TagCount(out) == Count('>', body)
  {
    out := [];
    var text := "";
    var inTag := false;
    assert text + body[0..] == body;
    for i := 0 to |body|
      invariant NoDelim(text)
      invariant out + Tokens(text + body[i..], inTag) == Tokenize(body)
    {
      var c := body[i];
      assert body[i..][0] == c && body[i..][1..] == body[i + 1..];
      if c == '<' {
        LexOpen(out, text, body[i..], inTag);
        inTag := true;
        if text != "" {
          out := out + [Text(text)];
        }
        text := "";
      } else if c == '>' {
        LexClose(out, text, body[i..], inTag);
        inTag := false;
        out := out + [Tag(text)];
        text := "";
      } else {
        LexPlain(text, body[i..]);
        text := text + [c];
      }
    }
    assert text + body[|body|..] == text;
    LexEnd(out, text, inTag);
    if !inTag && text != "" {
      out := out + [Text(text)];
    }
    TokenizeWellFormed(body);
    TokenizeCountsTags(body);
  }

  lemma {:induction false} TokensWellFormed(s: string, afterOpen: bool)
    ensures WellFormed(Tokens(s, afterOpen))
    decreases |s|
  {
    var k := FirstDelim(s);
    if k < |s| {
      TokensWellFormed(s[k + 1..], s[k] == '<');
    }
  }

  /** `lex` never emits an empty text token, and no token contains `<` or `>`. */
  lemma TokenizeWellFormed(body: string)
    ensures WellFormed(Tokenize(body))
  {
    TokensWellFormed(body, false);
  }

  /**
   * Lexing is idempotent on text: lexing the contents of any text token of a
   * document again gives back exactly that one token.
   */
  lemma TokenizeTextsAgain(body: string)
    ensures var toks := Tokenize(body);
      forall i :: 0 <= i < |toks| && toks[i].Text? ==> Tokenize(toks[i].text) == [toks[i]]
  {
    var toks := Tokenize(body);
    TokenizeWellFormed(body);
    forall i | 0 <= i < |toks| && toks[i].Text?
      ensures Tokenize(toks[i].text) == [toks[i]]
    {
      NoDelimFind(toks[i].text);
    }
  }

  lemma {:induction false} TagCountAppend(a: seq<Token>, b: seq<Token>)
    ensures TagCount(a + b) == TagCount(a) + TagCount(b)
  {
    if a == [] {
      assert a + b == b;
    } else {
      assert (a + b)[1..] == a[1..] + b;
      TagCountAppend(a[1..], b);
    }
  }

  lemma {:induction false} TokensCountTags(s: string, afterOpen: bool)
    ensures TagCount(Tokens(s, afterOpen)) == Count('>', s)
    decreases |s|
  {
    var k := FirstDelim(s);
    CountAbsent('>', s[..k]);
    if k < |s| {
      assert s == s[..k] + ([s[k]] + s[k + 1..]);
      CountAppend('>', s[..k], [s[k]] + s[k + 1..]);
      CountAppend('>', [s[k]], s[k + 1..]);
      TokensCountTags(s[k + 1..], s[k] == '<');
      var head: seq<Token> := if s[k] == '>' then [Tag(s[..k])] else if k == 0 then [] else [Text(s[..k])];
      TagCountAppend(head, Tokens(s[k + 1..], s[k] == '<'));
    } else {
      assert s[..k] == s;
    }
  }

  /** Every `>` of the document yields exactly one tag token, and nothing else does. */
  lemma TokenizeCountsTags(body: string)
    ensures TagCount(Tokenize(body)) == Count('>', body)
  {
    TokensCountTags(body, false);
  }

  /** The first delimiter-free segment of `s` and its delimiter, as `Tokens` turns them into tokens. */
  function Head(s: string, k: nat, afterOpen: bool): seq<Token>
    requires k < |s|
  {
    if s[k] == '>' then [Tag(s[..k])] else if k == 0 then [] else [Text(s[..k])]
  }

  lemma {:induction false} TokensAppendPastDelim(s: string, x: string, afterOpen: bool)
    requires FirstDelim(s) < |s|
    ensures var k := FirstDelim(s);
      Tokens(s + x, afterOpen) == Head(s, k, afterOpen) + Tokens(s[k + 1..] + x, s[k] == '<')
  {
    var k := FirstDelim(s);
    FirstDelimAppend(s, x);
    assert (s + x)[..k] == s[..k];
    assert (s + x)[k + 1..] == s[k + 1..] + x;
  }

  /**
   * A fragment left open after a final `<` is dropped: anything delimiter-free
   * after the last `<` adds no token.
   */
  lemma {:induction false} TokensDropFragment(s: string, frag: string, afterOpen: bool)
    requires NoDelim(frag)
    ensures Tokens(s + ("<" + frag), afterOpen) == Tokens(s + "<", afterOpen)
    decreases |s|
  {
    var k := FirstDelim(s);
    var t := "<" + frag;
    if k < |s| {
      assert s[k + 1..] + t == s[k + 1..] + "<" + frag;
      TokensAppendPastDelim(s, t, afterOpen);
      TokensAppendPastDelim(s, "<", afterOpen);
      TokensDropFragment(s[k + 1..], frag, s[k] == '<');
    } else {
      assert t[0] == '<' && t[1..] == frag;
      NoDelimFind(s);
      NoDelimFind(frag);
      assert Tokens(frag, true) == [];
      TokensAtDelim(s, t, afterOpen);
      TokensAtDelim(s, "<", afterOpen);
    }
  }

  lemma {:induction false} CloseFragmentHere(s: string, frag: string, afterOpen: bool)
    requires NoDelim(s) && NoDelim(frag)
    ensures Tokens(s + ("<" + frag + ">"), afterOpen) == Tokens(s + "<", afterOpen) + [Tag(frag)]
  {
    var t := "<" + frag + ">";
    var close := ">";
    assert t[0] == '<' && t[1..] == frag + close;
    assert close[0] == '>' && close[1..] == [];
    var head: seq<Token> := if s == [] then [] else [Text(s)];
    assert Tokens(frag + close, true) == [Tag(frag)] by {
      TokensAtDelim(frag, close, true);
    }
    assert Tokens(s + t, afterOpen) == head + [Tag(frag)] by {
      TokensAtDelim(s, t, afterOpen);
    }
    assert Tokens(s + "<", afterOpen) == head by {
      TokensAtDelim(s, "<", afterOpen);
    }
  }

  /** Closing the fragment after a final `<` with `>` adds exactly one tag, holding the fragment. */
  lemma {:induction false} TokensCloseFragment(s: string, frag: string, afterOpen: bool)
    requires NoDelim(frag)
    ensures Tokens(s + ("<" + frag + ">"), afterOpen) == Tokens(s + "<", afterOpen) + [Tag(frag)]
    decreases |s|
  {
    var k := FirstDelim(s);
    if k < |s| {
      var t := "<" + frag + ">";
      var head, rest, open := Head(s, k, afterOpen), s[k + 1..], s[k] == '<';
      assert Tokens(s + t, afterOpen) == head + Tokens(rest + t, open) by {
        TokensAppendPastDelim(s, t, afterOpen);
      }
      assert Tokens(s + "<", afterOpen) == head + Tokens(rest + "<", open) by {
        TokensAppendPastDelim(s, "<", afterOpen);
      }
      assert Tokens(rest + t, open) == Tokens(rest + "<", open) + [Tag(frag)] by {
        TokensCloseFragment(rest, frag, open);
      }
      var tail := Tokens(rest + "<", open);
      assert head + (tail + [Tag(frag)]) == (head + tail) + [Tag(frag)];
    } else {
      NoDelimFind(s);
      CloseFragmentHere(s, frag, afterOpen);
    }
  }

  /** At the level of whole documents: what follows a final unterminated `<` is dropped. */
  lemma TrailingFragmentDropped(body: string, frag: string)
    requires NoDelim(frag)
    ensures Tokenize(body + "<" + frag) == Tokenize(body + "<")
    ensures Tokenize(body + "<" + frag + ">") == Tokenize(body + "<") + [Tag(frag)]
  {
    TokensDropFragment(body, frag, false);
    TokensCloseFragment(body, frag, false);
    assert body + "<" + frag == body + ("<" + frag);
    assert body + "<" + frag + ">" == body + ("<" + frag + ">");
  }

  /**
   * The characters that `show` prints: everything outside `<...>`, where `<`
   * enters a tag and `>` leaves it.
   */
  function Shown(s: string, inAngle: bool): (r: string)
    ensures |r| <= |s|
    ensures NoDelim(r)
    ensures NoDelim(s) ==> r == (if inAngle then [] else s)
  {
    if s == [] then []
    else if s[0] == '<' then Shown(s[1..], true)
    else if s[0] == '>' then Shown(s[1..], false)
    else
      var r := (if inAngle then [] else [s[0]]) + Shown(s[1..], inAngle);
      assert s == [s[0]] + s[1..];
      r
  }

  lemma {:induction false} ShownSegment(seg: string, rest: string, inAngle: bool)
    requires NoDelim(seg)
    ensures Shown(seg + rest, inAngle) == (if inAngle then [] else seg) + Shown(rest, inAngle)
  {
    if seg == [] {
      assert seg + rest == rest;
    } else {
      assert (seg + rest)[0] == seg[0];
      assert (seg + rest)[1..] == seg[1..] + rest;
      ShownSegment(seg[1..], rest, inAngle);
    }
  }

  /**
   * The delimiters of `s` strictly alternate, `<` first when starting outside a
   * tag: no `>` outside a tag and no `<` inside one.
   */
  predicate Alternating(s: string, inAngle: bool)
    decreases |s|
  {
    var k := FirstDelim(s);
    k == |s| ||
    (if s[k] == '<' then !inAngle && Alternating(s[k + 1..], true)
     else inAngle && Alternating(s[k + 1..], false))
  }

  lemma {:induction false} TokensShowText(s: string, inAngle: bool)
    requires Alternating(s, inAngle)
    ensures Concat(Texts(Tokens(s, inAngle))) == Shown(s, inAngle)
    decreases |s|
  {
    var k := FirstDelim(s);
    assert s == s[..k] + s[k..];
    ShownSegment(s[..k], s[k..], inAngle);
    if k == |s| {
      assert s[..k] == s;
      assert Shown([], inAngle) == [];
    } else {
      var rest := s[k + 1..];
      assert s[k..] == [s[k]] + rest;
      assert Shown(s[k..], inAngle) == Shown(rest, s[k] == '<');
      TokensShowText(rest, s[k] == '<');
      var head: seq<Token> := if s[k] == '>' then [Tag(s[..k])] else if k == 0 then [] else [Text(s[..k])];
      assert Tokens(s, inAngle) == head + Tokens(rest, s[k] == '<');
      assert Texts(head + Tokens(rest, s[k] == '<')) == Texts(head) + Texts(Tokens(rest, s[k] == '<')) by {
        TextsAppend(head, Tokens(rest, s[k] == '<'));
      }
      ConcatAppend(Texts(head), Texts(Tokens(rest, s[k] == '<')));
    }
  }

  lemma {:induction false} TextsAppend(a: seq<Token>, b: seq<Token>)
    ensures Texts(a + b) == Texts(a) + Texts(b)
  {
    if a == [] {
      assert a + b == b;
    } else {
      assert (a + b)[1..] == a[1..] + b;
      TextsAppend(a[1..], b);
    }
  }

  /**
   * For a document whose delimiters alternate, the text tokens put together are
   * exactly what `show` prints: the document with every `<...>` span removed.
   */
  lemma TextsAreShown(body: string)
    requires Alternating(body, false)
    ensures Concat(Texts(Tokenize(body))) == Shown(body, false)
  {
    TokensShowText(body, false);
  }

  /**
   * A stray `>` outside any tag turns the text before it into a tag, although
   * `show` prints that text.
   */
  lemma StrayCloseMakesTag(a: string, b: string)
    requires NoDelim(a) && NoDelim(b) && b != []
    ensures Tokenize(a + ">" + b) == [Tag(a), Text(b)]
    ensures Shown(a + ">" + b, false) == a + b
  {
    assert a + ">" + b == a + (">" + b);
    TokensAtDelim(a, ">" + b, false);
    assert (">" + b)[1..] == b;
    NoDelimFind(b);
    ShownSegment(a, ">" + b, false);
    ShownSegment(b, [], false);
    assert b + [] == b;
  }

  lemma NestedOpenTokens(a: string, b: string)
    requires NoDelim(a) && NoDelim(b) && a != []
    ensures Tokenize("<" + a + "<" + b + ">") == [Text(a), Tag(b)]
  {
    var s := "<" + a + "<" + b + ">";
    var s2 := "<" + b + ">";
    var close := ">";
    assert s == [] + s && s[0] == '<' && s[1..] == a + s2;
    assert s2[0] == '<' && s2[1..] == b + close;
    assert close[0] == '>' && close[1..] == [];
    assert Tokens(b + close, true) == [Tag(b)] by {
      TokensAtDelim(b, close, true);
    }
    assert Tokens(a + s2, true) == [Text(a)] + [Tag(b)] by {
      TokensAtDelim(a, s2, true);
    }
    assert Tokens(s, false) == Tokens(a + s2, true) by {
      TokensAtDelim([], s, false);
    }
  }

  lemma NestedOpenShown(a: string, b: string)
    requires NoDelim(a) && NoDelim(b)
    ensures Shown("<" + a + "<" + b + ">", false) == []
  {
    var s := "<" + a + "<" + b + ">";
    var s2 := "<" + b + ">";
    assert s[0] == '<' && s[1..] == a + s2;
    ShownSegment(a, s2, true);
    assert s2[0] == '<' && s2[1..] == b + ">";
    ShownSegment(b, ">", true);
  }

  /**
   * A `<` inside a tag turns the text before it into a text token, although
   * `show` prints nothing of it.
   */
  lemma NestedOpenMakesText(a: string, b: string)
    requires NoDelim(a) && NoDelim(b) && a != []
    ensures Tokenize("<" + a + "<" + b + ">") == [Text(a), Tag(b)]
    ensures Shown("<" + a + "<" + b + ">", false) == []
  {
    NestedOpenTokens(a, b);
    NestedOpenShown(a, b);
  }
}
