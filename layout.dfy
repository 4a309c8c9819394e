/**
 * The layout engine: it walks the token list once, keeping a style (weight,
 * slant, size), a buffer of words on the current line and a cursor, and
 * turns every word into a placed item of the display list. Lines are broken
 * against the page width; a flushed line's words share one baseline.
 *
 * The pure functions over `LayoutState` are the reference for each step; the
 * `Layout` class below carries out the same steps on its fields and is proved
 * to agree with them.
 */
module LayoutEngine {
  import opened Wrappers
  import opened Strings
  import opened Fonts
  import Lexer

  const WIDTH: int := 800
  const HSTEP: int := 13
  const VSTEP: int := 18

  /** A buffered word on the current line: its x, the word and its font. */
  datatype Entry = Entry(x: int, word: string, font: Font)

  /** An item of the display list: where the word is drawn, the word and its font. */
  datatype Placed = Placed(x: int, y: real, word: string, font: Font)

  /** Everything the layout engine updates as it goes. */
  datatype LayoutState = LayoutState(
    displayList: seq<Placed>,
    cursorX: int,
    cursorY: real,
    weight: Weight,
    style: Slant,
    size: int,
    line: seq<Entry>)
  {
    /** The key the current style resolves fonts by. */
    function Key(): FontKey
    {
      FontKey(size, weight, style)
    }
  }

  /** The state a layout pass starts from. */
  function Initial(): LayoutState
  {
    LayoutState([], HSTEP, VSTEP as real, Normal, Roman, 16, [])
  }

  /**
   * The invariant of the line buffer: an empty line has its cursor at the left
   * margin, the cursor never stands left of the margin, and the buffered words
   * stand left to right, none beyond the cursor.
   */
  predicate Inv(st: LayoutState)
  {
    && (st.line == [] ==> st.cursorX == HSTEP)
    && HSTEP <= st.cursorX
    && (forall i :: 0 <= i < |st.line| ==> HSTEP <= st.line[i].x <= st.cursorX)
    && (forall i, j :: 0 <= i < j < |st.line| ==> st.line[i].x <= st.line[j].x)
  }

  /** The largest of a non-empty list of numbers. */
  function Max(xs: seq<nat>): (m: nat)
    requires xs != []
    ensures m in xs
    ensures forall i :: 0 <= i < |xs| ==> xs[i] <= m
  {
    if |xs| == 1 then xs[0]
    else
      var rest := Max(xs[..|xs| - 1]);
      if xs[|xs| - 1] > rest then xs[|xs| - 1] else rest
  }

  function Ascents(line: seq<Entry>, m: Metrics): (r: seq<nat>)
    ensures |r| == |line|
  {
    seq<nat>(|line|, i requires 0 <= i < |line| => m.ascent(line[i].font.key))
  }

  function Descents(line: seq<Entry>, m: Metrics): (r: seq<nat>)
    ensures |r| == |line|
  {
    seq<nat>(|line|, i requires 0 <= i < |line| => m.descent(line[i].font.key))
  }

  /** The baseline of the buffered line: 1.25 times its largest ascent below the cursor. */
  function Baseline(st: LayoutState, m: Metrics): real
    requires st.line != []
  {
    st.cursorY + 1.25 * (Max(Ascents(st.line, m)) as real)
  }

  /** The buffered words placed with their tops at `baseline` minus their own font's ascent. */
  function PlaceLine(line: seq<Entry>, baseline: real, m: Metrics): (r: seq<Placed>)
    ensures |r| == |line|
  {
    seq(|line|, i requires 0 <= i < |line| =>
      Placed(line[i].x, baseline - (m.ascent(line[i].font.key) as real), line[i].word, line[i].font))
  }

  /** `flush`: emit the buffered line onto the display list and start a new line below it. */
  function Flushed(st: LayoutState, m: Metrics): LayoutState
  {
    if st.line == [] then st
    else
      var baseline := Baseline(st, m);
      st.(displayList := st.displayList + PlaceLine(st.line, baseline, m),
          cursorX := HSTEP,
          line := [],
          cursorY := baseline + 1.25 * (Max(Descents(st.line, m)) as real))
  }

  /** One word of `text`: break the line first when the word would cross the right margin. */
  function PlaceWord(st: LayoutState, font: Font, word: string, m: Metrics): LayoutState
  {
    var w := m.measure(font.key, word);
    var s := if st.cursorX + w > WIDTH - HSTEP then Flushed(st, m) else st;
    s.(line := s.line + [Entry(s.cursorX, word, font)],
       cursorX := s.cursorX + w + m.measure(font.key, " "))
  }

  /** The words of one text token, in order, all in one font. */
  function PlaceWords(st: LayoutState, font: Font, words: seq<string>, m: Metrics): LayoutState
    decreases |words|
  {
    if words == [] then st
    else PlaceWords(PlaceWord(st, font, words[0], m), font, words[1..], m)
  }

  /** The tag transition table of `token`. */
  function TagStep(st: LayoutState, tag: string, m: Metrics): LayoutState
  {
    if tag == "i" then st.(style := Italic)
    else if tag == "/i" then st.(style := Roman)
    else if tag == "b" then st.(weight := Bold)
    else if tag == "/b" then st.(weight := Normal)
    else if tag == "small" then st.(size := st.size - 2)
    else if tag == "/small" then st.(size := st.size + 2)
    else if tag == "big" then st.(size := st.size + 4)
    else if tag == "/big" then st.(size := st.size - 4)
    else if tag == "br" then Flushed(st, m)
    else if tag == "/p" then
      var s := Flushed(st, m);
      s.(cursorY := s.cursorY + VSTEP as real)
    else st
  }

  /** The words already on the display list, in order. */
  function PlacedWords(dl: seq<Placed>): (r: seq<string>)
    ensures |r| == |dl|
  {
    seq(|dl|, i requires 0 <= i < |dl| => dl[i].word)
  }

  /** The words buffered on the current line, in order. */
  function LineWords(line: seq<Entry>): (r: seq<string>)
    ensures |r| == |line|
  {
    seq(|line|, i requires 0 <= i < |line| => line[i].word)
  }

  /** Every word laid out so far: those on the display list, then those on the line. */
  function WordsOf(st: LayoutState): seq<string>
  {
    PlacedWords(st.displayList) + LineWords(st.line)
  }

  /** The words of all text tokens, in order (what `text` gets from `split()`). */
  function TokenWords(toks: seq<Lexer.Token>): seq<string>
  {
    if toks == [] then []
    else
      var last := toks[|toks| - 1];
      TokenWords(toks[..|toks| - 1]) + (if last.Text? then Words(last.text) else [])
  }

  /**
   * A flush of a non-empty line appends exactly its words, in buffer order,
   * at their buffered x; all of them stand on one baseline 1.25 times the
   * largest ascent below the cursor, none of them reaches above the cursor,
   * and the next line starts 1.25 times the largest descent below that
   * baseline, at the left margin. A flush of an empty line changes nothing.
   */
  lemma FlushEffect(st: LayoutState, m: Metrics)
    ensures st.line == [] ==> Flushed(st, m) == st
    ensures st.line != [] ==>
      var r := Flushed(st, m);
      var baseline := Baseline(st, m);
      var placed := r.displayList[|st.displayList|..];
      && |r.displayList| == |st.displayList| + |st.line|
      && r.displayList[..|st.displayList|] == st.displayList
      && (forall k :: 0 <= k < |st.line| ==>
            && placed[k].x == st.line[k].x
            && placed[k].word == st.line[k].word
            && placed[k].font == st.line[k].font
            && placed[k].y + (m.ascent(st.line[k].font.key) as real) == baseline
            && st.cursorY <= placed[k].y)
      && r.line == [] && r.cursorX == HSTEP
      && r.cursorY == baseline + 1.25 * (Max(Descents(st.line, m)) as real)
      && baseline <= r.cursorY
      && r.weight == st.weight && r.style == st.style && r.size == st.size
  {
    if st.line != [] {
      var r := Flushed(st, m);
      var placed := PlaceLine(st.line, Baseline(st, m), m);
      assert r.displayList[|st.displayList|..] == placed;
      var maxA := Max(Ascents(st.line, m));
      forall k | 0 <= k < |st.line|
        ensures st.cursorY <= placed[k].y
      {
        assert Ascents(st.line, m)[k] <= maxA;
      }
    }
  }

  lemma {:induction false} PlacedWordsAppend(a: seq<Placed>, b: seq<Placed>)
    ensures PlacedWords(a + b) == PlacedWords(a) + PlacedWords(b)
  {
    forall i | 0 <= i < |a + b|
      ensures PlacedWords(a + b)[i] == (PlacedWords(a) + PlacedWords(b))[i]
    {
      if i < |a| {
        assert (a + b)[i] == a[i];
      } else {
        assert (a + b)[i] == b[i - |a|];
      }
    }
  }

  /** A flush moves the buffered words to the display list without losing, adding or reordering any. */
  lemma FlushKeepsWords(st: LayoutState, m: Metrics)
    ensures WordsOf(Flushed(st, m)) == WordsOf(st)
    ensures Flushed(st, m).line == []
    ensures Inv(st) ==> Inv(Flushed(st, m))
  {
    if st.line != [] {
      var placed := PlaceLine(st.line, Baseline(st, m), m);
      PlacedWordsAppend(st.displayList, placed);
      assert PlacedWords(placed) == LineWords(st.line);
      assert LineWords([]) == [];
    }
  }

  /**
   * One word: when it would cross `WIDTH - HSTEP` the line is flushed first and
   * the word starts a new line at the left margin; otherwise it joins the
   * current line at the cursor, and the display list and vertical cursor stay.
   * The style is never touched and the vertical cursor never moves up.
   */
  lemma PlaceWordEffect(st: LayoutState, font: Font, word: string, m: Metrics)
    requires Inv(st)
    ensures var r := PlaceWord(st, font, word, m);
      var w := m.measure(font.key, word);
      && (st.cursorX + w > WIDTH - HSTEP ==>
            && r.line == [Entry(HSTEP, word, font)]
            && r.cursorX == HSTEP + w + m.measure(font.key, " ")
            && r.displayList == Flushed(st, m).displayList
            && r.cursorY == Flushed(st, m).cursorY)
      && (st.cursorX + w <= WIDTH - HSTEP ==>
            && r.line == st.line + [Entry(st.cursorX, word, font)]
            && r.cursorX == st.cursorX + w + m.measure(font.key, " ")
            && r.displayList == st.displayList
            && r.cursorY == st.cursorY)
      && st.cursorY <= r.cursorY
      && r.weight == st.weight && r.style == st.style && r.size == st.size
  {
    if st.line != [] {
      FlushEffect(st, m);
    }
  }

  /** Placing a word keeps the line invariant. */
  lemma PlaceWordInv(st: LayoutState, font: Font, word: string, m: Metrics)
    requires Inv(st)
    ensures Inv(PlaceWord(st, font, word, m))
  {
    var w := m.measure(font.key, word);
    var s := if st.cursorX + w > WIDTH - HSTEP then Flushed(st, m) else st;
    FlushKeepsWords(st, m);
    assert Inv(s);
  }

  /** Placing a word adds it after every word laid out before it, and loses none. */
  lemma PlaceWordWords(st: LayoutState, font: Font, word: string, m: Metrics)
    ensures WordsOf(PlaceWord(st, font, word, m)) == WordsOf(st) + [word]
  {
    var w := m.measure(font.key, word);
    var s := if st.cursorX + w > WIDTH - HSTEP then Flushed(st, m) else st;
    FlushKeepsWords(st, m);
    var r := PlaceWord(st, font, word, m);
    assert r.line == s.line + [Entry(s.cursorX, word, font)];
    assert LineWords(r.line) == LineWords(s.line) + [word];
  }

  /** The words of a text token are placed first word first. */
  lemma PlaceWordsFirst(st: LayoutState, font: Font, words: seq<string>, m: Metrics)
    requires words != []
    ensures PlaceWords(st, font, words, m) == PlaceWords(PlaceWord(st, font, words[0], m), font, words[1..], m)
  {
  }

  /**
   * All the words of a text token: each is added once, in order, after
   * everything laid out before; the invariant is kept, the style is untouched
   * and the vertical cursor never moves up.
   */
  lemma {:induction false} PlaceWordsEffect(st: LayoutState, font: Font, words: seq<string>, m: Metrics)
    requires Inv(st)
    ensures var r := PlaceWords(st, font, words, m);
      && Inv(r)
      && WordsOf(r) == WordsOf(st) + words
      && st.cursorY <= r.cursorY
      && r.weight == st.weight && r.style == st.style && r.size == st.size
    decreases |words|
  {
    if words == [] {
      assert WordsOf(st) + words == WordsOf(st);
    } else {
      var next := PlaceWord(st, font, words[0], m);
      assert WordsOf(next) == WordsOf(st) + [words[0]] by {
        PlaceWordWords(st, font, words[0], m);
      }
      assert Inv(next) by {
        PlaceWordInv(st, font, words[0], m);
      }
      assert st.cursorY <= next.cursorY && next.Key() == st.Key() by {
        PlaceWordEffect(st, font, words[0], m);
      }
      PlaceWordsEffect(next, font, words[1..], m);
      assert WordsOf(st) + [words[0]] + words[1..] == WordsOf(st) + words;
    }
  }

  /** Only a style tag changes the style; only a style tag leaves the line and cursors alone. */
  predicate IsStyleTag(tag: string)
  {
    tag in ["i", "/i", "b", "/b", "small", "/small", "big", "/big"]
  }

  /**
   * The tag table: style tags set one style field and touch nothing else;
   * `br` is a flush; `/p` is a flush followed by a gap of VSTEP; every other
   * tag changes nothing.
   */
  lemma TagTable(st: LayoutState, tag: string, m: Metrics)
    ensures var r := TagStep(st, tag, m);
      && (tag == "i" ==> r == st.(style := Italic))
      && (tag == "/i" ==> r == st.(style := Roman))
      && (tag == "b" ==> r == st.(weight := Bold))
      && (tag == "/b" ==> r == st.(weight := Normal))
      && (tag == "small" ==> r == st.(size := st.size - 2))
      && (tag == "/small" ==> r == st.(size := st.size + 2))
      && (tag == "big" ==> r == st.(size := st.size + 4))
      && (tag == "/big" ==> r == st.(size := st.size - 4))
      && (tag == "br" ==> r == Flushed(st, m))
      && (tag == "/p" ==> r == Flushed(st, m).(cursorY := Flushed(st, m).cursorY + VSTEP as real))
      && (!IsStyleTag(tag) && tag != "br" && tag != "/p" ==> r == st)
  {
  }

  /**
   * Every tag keeps the invariant and the words laid out so far, never moves
   * the vertical cursor up, and only a style tag changes the font key.
   */
  lemma TagStepKeeps(st: LayoutState, tag: string, m: Metrics)
    ensures var r := TagStep(st, tag, m);
      && (!IsStyleTag(tag) ==> r.Key() == st.Key())
      && WordsOf(r) == WordsOf(st)
      && st.cursorY <= r.cursorY
  {
    var f := Flushed(st, m);
    assert WordsOf(f) == WordsOf(st) by {
      FlushKeepsWords(st, m);
    }
    assert st.cursorY <= f.cursorY && f.Key() == st.Key() by {
      FlushEffect(st, m);
    }
    if tag == "/p" {
      var r := f.(cursorY := f.cursorY + VSTEP as real);
      assert TagStep(st, tag, m) == r;
      assert WordsOf(r) == WordsOf(f);
    } else if tag == "br" {
      assert TagStep(st, tag, m) == f;
    } else if !IsStyleTag(tag) {
      assert TagStep(st, tag, m) == st;
    }
  }

  /** Every tag keeps the line invariant. */
  lemma TagStepInv(st: LayoutState, tag: string, m: Metrics)
    requires Inv(st)
    ensures Inv(TagStep(st, tag, m))
  {
    var r := TagStep(st, tag, m);
    var f := Flushed(st, m);
    if tag == "br" || tag == "/p" {
      assert Inv(f) by {
        FlushKeepsWords(st, m);
      }
      assert r.line == f.line && r.cursorX == f.cursorX;
    } else {
      assert r.line == st.line && r.cursorX == st.cursorX;
    }
  }

  /** `small` and `/small`, and `big` and `/big`, undo each other. */
  lemma SizeTagsCancel(st: LayoutState, m: Metrics)
    ensures TagStep(TagStep(st, "small", m), "/small", m) == st
    ensures TagStep(TagStep(st, "big", m), "/big", m) == st
  {
  }

  /**
   * Closing tags reset to a fixed value rather than restoring the previous
   * one: after `<b><b></b>` the weight is normal although a `<b>` is still open.
   */
  lemma ClosingTagsDoNotNest(st: LayoutState, m: Metrics)
    ensures TagStep(TagStep(TagStep(st, "b", m), "b", m), "/b", m).weight == Normal
    ensures TagStep(TagStep(TagStep(st, "i", m), "i", m), "/i", m).style == Roman
  {
  }

  lemma InitialInv()
    ensures Inv(Initial()) && WordsOf(Initial()) == []
  {
  }

  /**
   * One token, whatever font its words were given, keeps the invariant and
   * adds exactly the token's words after those laid out before.
   */
  lemma TokenKeeps(st: LayoutState, tok: Lexer.Token, r: LayoutState, m: Metrics)
    requires Inv(st)
    requires tok.Text? ==> exists font: Font :: r == PlaceWords(st, font, Words(tok.text), m)
    requires tok.Tag? ==> r == TagStep(st, tok.tag, m)
    ensures Inv(r)
    ensures WordsOf(r) == WordsOf(st) + (if tok.Text? then Words(tok.text) else [])
  {
    if tok.Text? {
      var font: Font :| r == PlaceWords(st, font, Words(tok.text), m);
      PlaceWordsEffect(st, font, Words(tok.text), m);
    } else {
      TagStepKeeps(st, tok.tag, m);
      TagStepInv(st, tok.tag, m);
      assert WordsOf(st) + [] == WordsOf(st);
    }
  }

  /**
   * One call of `token`, with fonts resolved through the cache `cache`; None
   * when a text token needs a style the cache holds no font for.
   */
  function Step(st: LayoutState, tok: Lexer.Token, m: Metrics, cache: map<FontKey, Font>): Option<LayoutState>
  {
    if tok.Tag? then Some(TagStep(st, tok.tag, m))
    else if st.Key() in cache then Some(PlaceWords(st, cache[st.Key()], Words(tok.text), m))
    else None
  }

  /** The tokens, one `Step` after another. */
  function Steps(st: LayoutState, toks: seq<Lexer.Token>, m: Metrics, cache: map<FontKey, Font>): Option<LayoutState>
  {
    if toks == [] then Some(st)
    else
      match Steps(st, toks[..|toks| - 1], m, cache)
      case None => None
      case Some(s) => Step(s, toks[|toks| - 1], m, cache)
  }

  /** A whole layout pass: every token from the initial state, then the final flush. */
  function LayoutOf(toks: seq<Lexer.Token>, m: Metrics, cache: map<FontKey, Font>): Option<LayoutState>
  {
    match Steps(Initial(), toks, m, cache)
    case None => None
    case Some(s) => Some(Flushed(s, m))
  }

  /** Entries added to the cache later do not change a pass the cache already resolved. */
  lemma {:induction false} StepsGrow(st: LayoutState, toks: seq<Lexer.Token>, m: Metrics,
                                     c0: map<FontKey, Font>, c1: map<FontKey, Font>)
    requires Steps(st, toks, m, c0).Some? && Grows(c0, c1)
    ensures Steps(st, toks, m, c1) == Steps(st, toks, m, c0)
    decreases |toks|
  {
    if toks != [] {
      StepsGrow(st, toks[..|toks| - 1], m, c0, c1);
    }
  }

  /**
   * The styles a run of tokens asks the cache for: the key in force at each
   * text token (each call of `text` resolves exactly one font).
   */
  function TextKeys(st: LayoutState, toks: seq<Lexer.Token>, m: Metrics, cache: map<FontKey, Font>): set<FontKey>
  {
    if toks == [] then {}
    else
      var tok := toks[|toks| - 1];
      match Steps(st, toks[..|toks| - 1], m, cache)
      case None => {}
      case Some(s) => TextKeys(st, toks[..|toks| - 1], m, cache) + (if tok.Text? then {s.Key()} else {})
  }

  /** The last token of a resolved run adds its style exactly when it is text. */
  lemma TextKeysStep(st: LayoutState, toks: seq<Lexer.Token>, m: Metrics, cache: map<FontKey, Font>)
    requires toks != [] && Steps(st, toks[..|toks| - 1], m, cache).Some?
    ensures var s := Steps(st, toks[..|toks| - 1], m, cache).value;
      TextKeys(st, toks, m, cache) ==
        TextKeys(st, toks[..|toks| - 1], m, cache) + (if toks[|toks| - 1].Text? then {s.Key()} else {})
  {
  }

  /** Every style a resolved run asks for is in the cache that resolved it. */
  lemma {:induction false} TextKeysCached(st: LayoutState, toks: seq<Lexer.Token>, m: Metrics, cache: map<FontKey, Font>)
    requires Steps(st, toks, m, cache).Some?
    ensures TextKeys(st, toks, m, cache) <= cache.Keys
    decreases |toks|
  {
    if toks != [] {
      TextKeysCached(st, toks[..|toks| - 1], m, cache);
    }
  }

  /** Entries added to the cache later do not change which styles a resolved run asks for. */
  lemma {:induction false} TextKeysGrow(st: LayoutState, toks: seq<Lexer.Token>, m: Metrics,
                                        c0: map<FontKey, Font>, c1: map<FontKey, Font>)
    requires Steps(st, toks, m, c0).Some? && Grows(c0, c1)
    ensures TextKeys(st, toks, m, c1) == TextKeys(st, toks, m, c0)
    decreases |toks|
  {
    if toks != [] {
      StepsGrow(st, toks[..|toks| - 1], m, c0, c1);
      TextKeysGrow(st, toks[..|toks| - 1], m, c0, c1);
    }
  }

  /** A run of tokens keeps the invariant and adds exactly the words of its text tokens. */
  lemma {:induction false} StepsKeeps(st: LayoutState, toks: seq<Lexer.Token>, m: Metrics, cache: map<FontKey, Font>)
    requires Inv(st) && Steps(st, toks, m, cache).Some?
    ensures Inv(Steps(st, toks, m, cache).value)
    ensures WordsOf(Steps(st, toks, m, cache).value) == WordsOf(st) + TokenWords(toks)
    decreases |toks|
  {
    if toks == [] {
      assert WordsOf(st) + [] == WordsOf(st);
    } else {
      var init := toks[..|toks| - 1];
      var tok := toks[|toks| - 1];
      StepsKeeps(st, init, m, cache);
      var s := Steps(st, init, m, cache).value;
      var r := Steps(st, toks, m, cache).value;
      assert Step(s, tok, m, cache) == Some(r);
      if tok.Text? {
        assert r == PlaceWords(s, cache[s.Key()], Words(tok.text), m);
      }
      TokenKeeps(s, tok, r, m);
      assert TokenWords(toks) == TokenWords(init) + (if tok.Text? then Words(tok.text) else []);
    }
  }

  /**
   * A whole layout pass leaves no buffered line, keeps the invariant, and
   * leaves a display list holding exactly the words of the text tokens, in
   * order, one item per word.
   */
  lemma LayoutOfWords(toks: seq<Lexer.Token>, m: Metrics, cache: map<FontKey, Font>)
    requires LayoutOf(toks, m, cache).Some?
    ensures var r := LayoutOf(toks, m, cache).value;
      && r.line == [] && Inv(r)
      && PlacedWords(r.displayList) == TokenWords(toks)
      && |r.displayList| == |TokenWords(toks)|
  {
    InitialInv();
    StepsKeeps(Initial(), toks, m, cache);
    var s := Steps(Initial(), toks, m, cache).value;
    FlushKeepsWords(s, m);
    assert LineWords([]) == [];
    assert [] + TokenWords(toks) == TokenWords(toks);
  }

  /** Every font on the display list and on the line satisfies `ok`. */
  predicate FontsOk(st: LayoutState, ok: Font -> bool)
  {
    && (forall i :: 0 <= i < |st.displayList| ==> ok(st.displayList[i].font))
    && (forall i :: 0 <= i < |st.line| ==> ok(st.line[i].font))
  }

  /** A flush only moves fonts from the line to the display list, and keeps the style. */
  lemma FlushedFontsOk(st: LayoutState, m: Metrics, ok: Font -> bool)
    requires FontsOk(st, ok)
    ensures FontsOk(Flushed(st, m), ok) && Flushed(st, m).Key() == st.Key()
  {
    if st.line != [] {
      var r := Flushed(st, m);
      var placed := PlaceLine(st.line, Baseline(st, m), m);
      assert r.displayList == st.displayList + placed;
      forall i | 0 <= i < |r.displayList|
        ensures ok(r.displayList[i].font)
      {
        if i >= |st.displayList| {
          assert r.displayList[i] == placed[i - |st.displayList|];
        }
      }
    }
  }

  /** Placing words in a font that satisfies `ok` keeps every font satisfying `ok`, and keeps the style. */
  lemma {:induction false} PlaceWordsFontsOk(st: LayoutState, font: Font, words: seq<string>, m: Metrics, ok: Font -> bool)
    requires FontsOk(st, ok) && ok(font)
    ensures FontsOk(PlaceWords(st, font, words, m), ok)
    ensures PlaceWords(st, font, words, m).Key() == st.Key()
    decreases |words|
  {
    if words != [] {
      var w := m.measure(font.key, words[0]);
      FlushedFontsOk(st, m, ok);
      var s := if st.cursorX + w > WIDTH - HSTEP then Flushed(st, m) else st;
      var next := PlaceWord(st, font, words[0], m);
      assert next.line == s.line + [Entry(s.cursorX, words[0], font)];
      assert FontsOk(next, ok);
      PlaceWordsFontsOk(next, font, words[1..], m, ok);
    }
  }

  /** A tag never adds a font, and only a style tag changes the style. */
  lemma TagStepFontsOk(st: LayoutState, tag: string, m: Metrics, ok: Font -> bool)
    requires FontsOk(st, ok)
    ensures FontsOk(TagStep(st, tag, m), ok)
    ensures !IsStyleTag(tag) ==> TagStep(st, tag, m).Key() == st.Key()
  {
    FlushedFontsOk(st, m, ok);
  }

  /** Every font on the display list and on the line is the cache's handle for its key. */
  predicate FromCache(st: LayoutState, c: map<FontKey, Font>)
  {
    FontsOk(st, (f: Font) => f.key in c && c[f.key] == f)
  }

  lemma {:induction false} StepsFromCache(st: LayoutState, toks: seq<Lexer.Token>, m: Metrics, c: map<FontKey, Font>)
    requires Keyed(c) && FromCache(st, c) && Steps(st, toks, m, c).Some?
    ensures FromCache(Steps(st, toks, m, c).value, c)
    decreases |toks|
  {
    if toks != [] {
      var init := toks[..|toks| - 1];
      var tok := toks[|toks| - 1];
      StepsFromCache(st, init, m, c);
      var s := Steps(st, init, m, c).value;
      var ok := (f: Font) => f.key in c && c[f.key] == f;
      if tok.Text? {
        PlaceWordsFontsOk(s, c[s.Key()], Words(tok.text), m, ok);
      } else {
        TagStepFontsOk(s, tok.tag, m, ok);
      }
    }
  }

  /**
   * Memoisation over a whole pass: two items of the display list drawn in the
   * same style (size, weight and slant) carry the identical font handle.
   */
  lemma LayoutOfSharesFonts(toks: seq<Lexer.Token>, m: Metrics, c: map<FontKey, Font>)
    requires Keyed(c) && LayoutOf(toks, m, c).Some?
    ensures var dl := LayoutOf(toks, m, c).value.displayList;
      forall i, j :: 0 <= i < |dl| && 0 <= j < |dl| && dl[i].font.key == dl[j].font.key ==>
        dl[i].font == dl[j].font
  {
    var ok := (f: Font) => f.key in c && c[f.key] == f;
    assert FromCache(Initial(), c);
    StepsFromCache(Initial(), toks, m, c);
    FlushedFontsOk(Steps(Initial(), toks, m, c).value, m, ok);
  }

  /** No token is a style tag. */
  predicate NoStyleTags(toks: seq<Lexer.Token>)
  {
    forall i :: 0 <= i < |toks| ==> toks[i].Tag? ==> !IsStyleTag(toks[i].tag)
  }

  lemma {:induction false} StepsKeepStyle(st: LayoutState, toks: seq<Lexer.Token>, m: Metrics, c: map<FontKey, Font>)
    requires Keyed(c) && NoStyleTags(toks) && Steps(st, toks, m, c).Some?
    requires FontsOk(st, (f: Font) => f.key == st.Key())
    ensures Steps(st, toks, m, c).value.Key() == st.Key()
    ensures FontsOk(Steps(st, toks, m, c).value, (f: Font) => f.key == st.Key())
    decreases |toks|
  {
    if toks != [] {
      var init := toks[..|toks| - 1];
      var tok := toks[|toks| - 1];
      assert NoStyleTags(init) by {
        forall i | 0 <= i < |init|
          ensures init[i].Tag? ==> !IsStyleTag(init[i].tag)
        {
          assert init[i] == toks[i];
        }
      }
      StepsKeepStyle(st, init, m, c);
      var s := Steps(st, init, m, c).value;
      var ok := (f: Font) => f.key == st.Key();
      if tok.Text? {
        PlaceWordsFontsOk(s, c[s.Key()], Words(tok.text), m, ok);
      } else {
        TagStepFontsOk(s, tok.tag, m, ok);
      }
    }
  }

  /**
   * A document without style tags is drawn entirely in the default font:
   * size 16, normal weight, roman slant.
   */
  lemma LayoutOfDefaultFont(toks: seq<Lexer.Token>, m: Metrics, c: map<FontKey, Font>)
    requires Keyed(c) && NoStyleTags(toks) && LayoutOf(toks, m, c).Some?
    ensures var dl := LayoutOf(toks, m, c).value.displayList;
      forall i :: 0 <= i < |dl| ==> dl[i].font.key == FontKey(16, Normal, Roman)
  {
    var ok := (f: Font) => f.key == FontKey(16, Normal, Roman);
    assert FontsOk(Initial(), ok);
    StepsKeepStyle(Initial(), toks, m, c);
    FlushedFontsOk(Steps(Initial(), toks, m, c).value, m, ok);
  }

  /** The baseline an item stands on: its top plus its font's ascent. */
  function Base(p: Placed, m: Metrics): real
  {
    p.y + m.ascent(p.font.key) as real
  }

  /**
   * Down the display list baselines never rise, and a later item either
   * shares an earlier item's baseline or starts at or below it.
   */
  predicate Ordered(dl: seq<Placed>, m: Metrics)
  {
    forall i, j :: 0 <= i < j < |dl| ==>
      Base(dl[i], m) <= Base(dl[j], m) && (Base(dl[i], m) == Base(dl[j], m) || Base(dl[i], m) <= dl[j].y)
  }

  /** The display list is ordered, and nothing on it stands below the vertical cursor. */
  predicate Stacked(st: LayoutState, m: Metrics)
  {
    && Ordered(st.displayList, m)
    && (forall i :: 0 <= i < |st.displayList| ==> Base(st.displayList[i], m) <= st.cursorY)
  }

  /** Appending one line, all on one baseline and starting at or below `y`, to items standing above `y`. */
  lemma OrderedAppend(d0: seq<Placed>, p: seq<Placed>, y: real, b: real, m: Metrics)
    requires Ordered(d0, m) && (forall i :: 0 <= i < |d0| ==> Base(d0[i], m) <= y)
    requires forall k :: 0 <= k < |p| ==> Base(p[k], m) == b && y <= p[k].y
    ensures Ordered(d0 + p, m)
  {
    var d := d0 + p;
    forall i, j | 0 <= i < j < |d|
      ensures Base(d[i], m) <= Base(d[j], m) && (Base(d[i], m) == Base(d[j], m) || Base(d[i], m) <= d[j].y)
    {
      if j < |d0| {
        assert d[i] == d0[i] && d[j] == d0[j];
      } else if i >= |d0| {
        assert d[i] == p[i - |d0|] && d[j] == p[j - |d0|];
      } else {
        assert d[i] == d0[i] && d[j] == p[j - |d0|];
      }
    }
  }

  /** A flush puts its line below everything placed before and moves the cursor below the line. */
  lemma FlushedStacked(st: LayoutState, m: Metrics)
    requires Stacked(st, m)
    ensures Stacked(Flushed(st, m), m) && st.cursorY <= Flushed(st, m).cursorY
  {
    if st.line != [] {
      var r := Flushed(st, m);
      var d0 := st.displayList;
      var b := Baseline(st, m);
      var placed := PlaceLine(st.line, b, m);
      assert r.displayList == d0 + placed;
      assert st.cursorY <= b <= r.cursorY && r.displayList[|d0|..] == placed by {
        FlushEffect(st, m);
      }
      assert forall k :: 0 <= k < |placed| ==> Base(placed[k], m) == b && st.cursorY <= placed[k].y by {
        FlushEffect(st, m);
      }
      OrderedAppend(d0, placed, st.cursorY, b, m);
      forall i | 0 <= i < |r.displayList|
        ensures Base(r.displayList[i], m) <= r.cursorY
      {
        if i >= |d0| {
          assert r.displayList[i] == placed[i - |d0|];
        } else {
          assert r.displayList[i] == d0[i];
        }
      }
    }
  }

  lemma {:induction false} PlaceWordsStacked(st: LayoutState, font: Font, words: seq<string>, m: Metrics)
    requires Stacked(st, m)
    ensures Stacked(PlaceWords(st, font, words, m), m)
    decreases |words|
  {
    if words != [] {
      FlushedStacked(st, m);
      PlaceWordsStacked(PlaceWord(st, font, words[0], m), font, words[1..], m);
    }
  }

  lemma TagStepStacked(st: LayoutState, tag: string, m: Metrics)
    requires Stacked(st, m)
    ensures Stacked(TagStep(st, tag, m), m)
  {
    FlushedStacked(st, m);
  }

  lemma {:induction false} StepsStacked(st: LayoutState, toks: seq<Lexer.Token>, m: Metrics, c: map<FontKey, Font>)
    requires Stacked(st, m) && Steps(st, toks, m, c).Some?
    ensures Stacked(Steps(st, toks, m, c).value, m)
    decreases |toks|
  {
    if toks != [] {
      var init := toks[..|toks| - 1];
      var tok := toks[|toks| - 1];
      StepsStacked(st, init, m, c);
      var s := Steps(st, init, m, c).value;
      if tok.Text? {
        PlaceWordsStacked(s, c[s.Key()], Words(tok.text), m);
      } else {
        TagStepStacked(s, tok.tag, m);
      }
    }
  }

  /**
   * Vertical order over a whole pass: down the display list baselines never
   * rise, and every item either shares the baseline of an earlier item (the
   * same line) or starts at or below it (a later line).
   */
  lemma LayoutOfOrdered(toks: seq<Lexer.Token>, m: Metrics, c: map<FontKey, Font>)
    requires LayoutOf(toks, m, c).Some?
    ensures Ordered(LayoutOf(toks, m, c).value.displayList, m)
  {
    StepsStacked(Initial(), toks, m, c);
    FlushedStacked(Steps(Initial(), toks, m, c).value, m);
  }

  /**
   * Metrics of real fonts: every font reaches below its baseline, and a space
   * has width. `Metrics` itself allows zeros, and then the orders below are
   * only the non-strict ones.
   */
  ghost predicate Positive(m: Metrics)
  {
    forall k :: m.descent(k) > 0 && m.measure(k, " ") > 0
  }

  /** The buffered words stand strictly left to right, all strictly left of the cursor. */
  predicate LineStrict(st: LayoutState)
  {
    && (forall i :: 0 <= i < |st.line| ==> st.line[i].x < st.cursorX)
    && (forall i, j :: 0 <= i < j < |st.line| ==> st.line[i].x < st.line[j].x)
  }

  /**
   * Down the display list, a later item either stands on the same baseline
   * strictly to the right (the same line), or starts strictly below the
   * earlier item's baseline (a later line).
   */
  predicate Separated(dl: seq<Placed>, m: Metrics)
  {
    forall i, j :: 0 <= i < j < |dl| ==>
      (Base(dl[i], m) == Base(dl[j], m) && dl[i].x < dl[j].x) || Base(dl[i], m) < dl[j].y
  }

  /** The display list is separated, every baseline on it is above the cursor, and the line is strict. */
  predicate Clear(st: LayoutState, m: Metrics)
  {
    && Separated(st.displayList, m)
    && (forall i :: 0 <= i < |st.displayList| ==> Base(st.displayList[i], m) < st.cursorY)
    && LineStrict(st)
  }

  /** Appending one line, on one baseline, left to right, starting at or below `y`, to items standing above `y`. */
  lemma SeparatedAppend(d0: seq<Placed>, p: seq<Placed>, y: real, b: real, m: Metrics)
    requires Separated(d0, m) && (forall i :: 0 <= i < |d0| ==> Base(d0[i], m) < y)
    requires forall k :: 0 <= k < |p| ==> Base(p[k], m) == b && y <= p[k].y
    requires forall k, l :: 0 <= k < l < |p| ==> p[k].x < p[l].x
    ensures Separated(d0 + p, m)
  {
    var d := d0 + p;
    forall i, j | 0 <= i < j < |d|
      ensures (Base(d[i], m) == Base(d[j], m) && d[i].x < d[j].x) || Base(d[i], m) < d[j].y
    {
      if j < |d0| {
        assert d[i] == d0[i] && d[j] == d0[j];
      } else if i >= |d0| {
        assert d[i] == p[i - |d0|] && d[j] == p[j - |d0|];
      } else {
        assert d[i] == d0[i] && d[j] == p[j - |d0|];
      }
    }
  }

  /** With positive descents, a flush leaves the cursor strictly below the line it placed. */
  lemma FlushedClear(st: LayoutState, m: Metrics)
    requires Positive(m) && Clear(st, m)
    ensures Clear(Flushed(st, m), m) && st.cursorY <= Flushed(st, m).cursorY
  {
    if st.line != [] {
      var r := Flushed(st, m);
      var d0 := st.displayList;
      var b := Baseline(st, m);
      var placed := PlaceLine(st.line, b, m);
      assert r.displayList == d0 + placed;
      assert st.cursorY <= b && r.displayList[|d0|..] == placed by {
        FlushEffect(st, m);
      }
      assert forall k :: 0 <= k < |placed| ==> Base(placed[k], m) == b && st.cursorY <= placed[k].y by {
        FlushEffect(st, m);
      }
      SeparatedAppend(d0, placed, st.cursorY, b, m);
      FlushedBelow(st, m);
    }
  }

  /** With positive descents, the next line starts strictly below every baseline on the display list. */
  lemma FlushedBelow(st: LayoutState, m: Metrics)
    requires Positive(m) && st.line != []
    requires forall i :: 0 <= i < |st.displayList| ==> Base(st.displayList[i], m) < st.cursorY
    ensures var r := Flushed(st, m);
      forall i :: 0 <= i < |r.displayList| ==> Base(r.displayList[i], m) < r.cursorY
  {
    var r := Flushed(st, m);
    var d0 := st.displayList;
    var b := Baseline(st, m);
    var placed := PlaceLine(st.line, b, m);
    var ds := Descents(st.line, m);
    assert ds[0] == m.descent(st.line[0].font.key) > 0;
    assert ds[0] <= Max(ds);
    assert st.cursorY <= b < r.cursorY;
    forall i | 0 <= i < |r.displayList|
      ensures Base(r.displayList[i], m) < r.cursorY
    {
      if i >= |d0| {
        assert r.displayList[i] == placed[i - |d0|];
      } else {
        assert r.displayList[i] == d0[i];
      }
    }
  }

  /** With positive space widths, placing a word keeps the line strict, and the rest clear. */
  lemma PlaceWordClear(st: LayoutState, font: Font, word: string, m: Metrics)
    requires Positive(m) && Clear(st, m)
    ensures Clear(PlaceWord(st, font, word, m), m)
  {
    FlushedClear(st, m);
    assert m.measure(font.key, " ") > 0;
  }

  lemma {:induction false} PlaceWordsClear(st: LayoutState, font: Font, words: seq<string>, m: Metrics)
    requires Positive(m) && Clear(st, m)
    ensures Clear(PlaceWords(st, font, words, m), m)
    decreases |words|
  {
    if words != [] {
      PlaceWordClear(st, font, words[0], m);
      PlaceWordsClear(PlaceWord(st, font, words[0], m), font, words[1..], m);
    }
  }

  lemma TagStepClear(st: LayoutState, tag: string, m: Metrics)
    requires Positive(m) && Clear(st, m)
    ensures Clear(TagStep(st, tag, m), m)
  {
    FlushedClear(st, m);
  }

  lemma {:induction false} StepsClear(st: LayoutState, toks: seq<Lexer.Token>, m: Metrics, c: map<FontKey, Font>)
    requires Positive(m) && Clear(st, m) && Steps(st, toks, m, c).Some?
    ensures Clear(Steps(st, toks, m, c).value, m)
    decreases |toks|
  {
    if toks != [] {
      var init := toks[..|toks| - 1];
      var tok := toks[|toks| - 1];
      StepsClear(st, init, m, c);
      var s := Steps(st, init, m, c).value;
      if tok.Text? {
        PlaceWordsClear(s, c[s.Key()], Words(tok.text), m);
      } else {
        TagStepClear(s, tok.tag, m);
      }
    }
  }

  /**
   * Strict order over a whole pass, for metrics with positive descents and
   * space widths: within a line x strictly increases, and every item of a
   * later line starts strictly below the baselines of all earlier lines.
   */
  lemma LayoutOfSeparated(toks: seq<Lexer.Token>, m: Metrics, c: map<FontKey, Font>)
    requires Positive(m) && LayoutOf(toks, m, c).Some?
    ensures Separated(LayoutOf(toks, m, c).value.displayList, m)
  {
    StepsClear(Initial(), toks, m, c);
    FlushedClear(Steps(Initial(), toks, m, c).value, m);
  }

  /**
   * The layout of a token list: the state fields of the original class, with
   * the font metrics and the font cache it is given.
   */
  class Layout {
    const metrics: Metrics
    const fonts: FontCache
    var displayList: seq<Placed>
    var cursorX: int
    var cursorY: real
    var weight: Weight
    var style: Slant
    var size: int
    var line: seq<Entry>

    function State(): LayoutState
      reads this
    {
      LayoutState(displayList, cursorX, cursorY, weight, style, size, line)
    }

    ghost predicate Valid()
      reads this, fonts
    {
      Inv(State()) && fonts.Valid()
    }

    /**
     * Lays out every token, then flushes the last line. Afterwards the line is
     * empty and the display list holds exactly the words of the text tokens,
     * in order, one item per word.
     */
    constructor (tokens: seq<Lexer.Token>, metrics: Metrics, fonts: FontCache)
      requires fonts.Valid()
      modifies fonts
      ensures Valid()
      ensures this.metrics == metrics && this.fonts == fonts
      ensures LayoutOf(tokens, metrics, fonts.fonts) == Some(State())
      ensures line == []
      ensures PlacedWords(displayList) == TokenWords(tokens)
      ensures |displayList| == |TokenWords(tokens)|
      ensures Ordered(displayList, metrics)
      ensures Positive(metrics) ==> Separated(displayList, metrics)
      ensures forall i, j ::
        (0 <= i < |displayList| && 0 <= j < |displayList| && displayList[i].font.key == displayList[j].font.key) ==>
          displayList[i].font == displayList[j].font
      ensures Grows(old(fonts.fonts), fonts.fonts)
      ensures fonts.fonts.Keys == old(fonts.fonts).Keys + TextKeys(Initial(), tokens, metrics, fonts.fonts)
      ensures forall k :: k in fonts.fonts && k !in old(fonts.fonts) ==> fresh(fonts.fonts[k])
    {
      this.metrics := metrics;
      this.fonts := fonts;
      displayList := [];
      cursorX := HSTEP;
      cursorY := VSTEP as real;
      weight := Normal;
      style := Roman;
      size := 16;
      line := [];
      new;
      for i := 0 to |tokens|
        invariant fonts.Valid()
        invariant Grows(old(fonts.fonts), fonts.fonts)
        invariant Steps(Initial(), tokens[..i], metrics, fonts.fonts) == Some(State())
        invariant fonts.fonts.Keys == old(fonts.fonts).Keys + TextKeys(Initial(), tokens[..i], metrics, fonts.fonts)
        invariant forall k :: k in fonts.fonts && k !in old(fonts.fonts) ==> fresh(fonts.fonts[k])
      {
        ghost var before := State();
        ghost var cache := fonts.fonts;
        Token(tokens[i]);
        ghost var grown := fonts.fonts;
        assert tokens[..i + 1][..i] == tokens[..i];
        StepsGrow(Initial(), tokens[..i], metrics, cache, grown);
        assert Steps(Initial(), tokens[..i + 1], metrics, grown) == Some(State()) by {
          assert Step(before, tokens[i], metrics, grown) == Some(State());
        }
        assert grown.Keys == old(fonts.fonts).Keys + TextKeys(Initial(), tokens[..i + 1], metrics, grown) by {
          TextKeysGrow(Initial(), tokens[..i], metrics, cache, grown);
          TextKeysStep(Initial(), tokens[..i + 1], metrics, grown);
        }
        forall k | k in grown && k !in old(fonts.fonts)
          ensures fresh(grown[k])
        {
          if k in cache {
            assert grown[k] == cache[k];
          }
        }
      }
      assert tokens[..|tokens|] == tokens;
      Flush();
      LayoutOfWords(tokens, metrics, fonts.fonts);
      LayoutOfOrdered(tokens, metrics, fonts.fonts);
      if Positive(metrics) {
        LayoutOfSeparated(tokens, metrics, fonts.fonts);
      }
      LayoutOfSharesFonts(tokens, metrics, fonts.fonts);
    }

    /**
     * `flush`: when the line holds words, place them all on one baseline and
     * move the cursor to the start of the next line.
     */
    method Flush()
      modifies this
      ensures State() == Flushed(old(State()), metrics)
      ensures Inv(old(State())) ==> Inv(State())
    {
      FlushKeepsWords(State(), metrics);
      if line == [] {
        return;
      }
      var maxAscent := Max(Ascents(line, metrics));
      var baseline := cursorY + 1.25 * (maxAscent as real);
      ghost var start := State();
      ghost var placed := PlaceLine(line, baseline, metrics);
      for i := 0 to |line|
        invariant State() == start.(displayList := start.displayList + placed[..i])
      {
        var entry := line[i];
        var y := baseline - (metrics.ascent(entry.font.key) as real);
        displayList := displayList + [Placed(entry.x, y, entry.word, entry.font)];
        assert placed[..i + 1] == placed[..i] + [placed[i]];
      }
      assert placed[..|line|] == placed;
      var maxDescent := Max(Descents(line, metrics));
      cursorX := HSTEP;
      line := [];
      cursorY := baseline + 1.25 * (maxDescent as real);
    }

    /**
     * `text`: resolve the font of the current style once, then place every
     * word of the token in order.
     */
    method Text(t: string)
      requires fonts.Valid()
      modifies this, fonts
      ensures fonts.Valid()
      ensures Grows(old(fonts.fonts), fonts.fonts)
      ensures old(State()).Key() in fonts.fonts
      ensures fonts.fonts == old(fonts.fonts)[old(State()).Key() := fonts.fonts[old(State()).Key()]]
      ensures old(State()).Key() !in old(fonts.fonts) ==> fresh(fonts.fonts[old(State()).Key()])
      ensures State() == PlaceWords(old(State()), fonts.fonts[old(State()).Key()], Words(t), metrics)
      ensures Inv(old(State())) ==> Inv(State())
    {
      var font := fonts.GetFont(size, weight, style);
      var words := Words(t);
      ghost var start := State();
      ghost var cache := fonts.fonts;
      for i := 0 to |words|
        invariant fonts.fonts == cache
        invariant PlaceWords(State(), font, words[i..], metrics) == PlaceWords(start, font, words, metrics)
      {
        var word := words[i];
        ghost var before := State();
        var w := metrics.measure(font.key, word);
        if cursorX + w > WIDTH - HSTEP {
          Flush();
        }
        line := line + [Entry(cursorX, word, font)];
        cursorX := cursorX + w + metrics.measure(font.key, " ");
        assert State() == PlaceWord(before, font, word, metrics);
        PlaceWordsFirst(before, font, words[i..], metrics);
        assert words[i..][1..] == words[i + 1..];
      }
      assert words[|words|..] == [];
      assert Inv(start) ==> Inv(State()) by {
        if Inv(start) {
          PlaceWordsEffect(start, font, words, metrics);
        }
      }
    }

    /** `token`: a text token goes to `text`; a tag goes through the tag table. */
    method Token(tok: Lexer.Token)
      requires fonts.Valid()
      modifies this, fonts
      ensures fonts.Valid()
      ensures Grows(old(fonts.fonts), fonts.fonts)
      ensures tok.Text? ==>
        && old(State()).Key() in fonts.fonts
        && fonts.fonts == old(fonts.fonts)[old(State()).Key() := fonts.fonts[old(State()).Key()]]
        && State() == PlaceWords(old(State()), fonts.fonts[old(State()).Key()], Words(tok.text), metrics)
      ensures (tok.Text? && old(State()).Key() !in old(fonts.fonts)) ==> fresh(fonts.fonts[old(State()).Key()])
      ensures tok.Tag? ==> fonts.fonts == old(fonts.fonts) && State() == TagStep(old(State()), tok.tag, metrics)
      ensures Inv(old(State())) ==> Inv(State())
    {
      ghost var start := State();
      match tok
      case Text(t) =>
        Text(t);
      case Tag(tag) =>
        if tag == "i" {
          style := Italic;
        } else if tag == "/i" {
          style := Roman;
        } else if tag == "b" {
          weight := Bold;
        } else if tag == "/b" {
          weight := Normal;
        } else if tag == "small" {
          size := size - 2;
        } else if tag == "/small" {
          size := size + 2;
        } else if tag == "big" {
          size := size + 4;
        } else if tag == "/big" {
          size := size - 4;
        } else if tag == "br" {
          Flush();
        } else if tag == "/p" {
          Flush();
          cursorY := cursorY + VSTEP as real;
        }
        if Inv(start) {
          TagStepInv(start, tag, metrics);
        }
    }
  }
}
