# A verified model of the browser-engineering toy browser core

`browser.py` is a small web browser with a text-only rendering pipeline.
It fetches a document, tokenizes its HTML with `lex`, and lays the tokens out
as positioned words with `Layout`. A Tk canvas then draws the words. This
project models the parts of that pipeline that are pure or deterministic, and
proves what they promise:

- **Tokenizing** (`lexer.dfy`, module `Lexer`). `lex` scans the document once
  and splits it into `Text` runs and `Tag` directives. Here it is a method with
  the original character loop. It is proved equal to a segment-by-segment
  reference `Tokenize`, and facts about the token list are proved about that
  reference.
- **Fonts** (`fonts.dfy`, module `Fonts`). `get_font` memoises one font handle
  per `(size, weight, slant)` key. The global `FONTS` dictionary becomes a
  `FontCache` object that the layout is given. Font handles are objects, so
  "the same font" means the same object.
- **Layout** (`layout.dfy`, module `LayoutEngine`). The `Layout` class keeps
  the display list, the cursor, the current style and the buffered line, and
  updates them in place in `token`, `text` and `flush`. Each method is proved
  to compute a pure step function on a `LayoutState` value. The invariants and
  word-conservation facts are proved about those step functions.
  - The glyph metrics the toolkit reports (`measure` and the ascent and
    descent of a font) are a `Metrics` parameter.
- **Requests** (`http.dfy`, module `Http`).
  - `parse_url` splits a URL into scheme, host and path. Its Python
    `ValueError` becomes `None`.
  - `format_headers` renders header fields as CRLF-terminated lines and
    encodes them as UTF-8 (`utf8.dfy`, module `Utf8`, RFC 3629).
  - Both are proved against their inverses.
- `strings.dfy` (module `Strings`) models the pieces of Python's string
  library the core relies on. These are whitespace `str.split()` (in `text`),
  splitting at the first `://` (in `parse_url`), and the search for the first
  `/` behind `url.split("/", 1)` (also in `parse_url`).
  `wrappers.dfy` holds the `Option` type.

All paths in the table below are relative to the repository root.

## Model

| member | source | states |
|---|---|---|
| Lexer.Lex | browser.py:125-142 | The character loop computes exactly the reference tokenization. No text token is empty and no token contains `<` or `>`. There is one `Tag` per `>` of the body. |
| Lexer.Tokenize | browser.py:125-142 | An empty document yields no tokens. |
| Lexer.TokenizeWellFormed | browser.py:125-142 | Every text token is non-empty, and no token's content holds a `<` or `>`. |
| Lexer.TokenizeTextsAgain | browser.py:125-142 | Lexing is idempotent on text: lexing the contents of any text token of a document again gives back exactly that one token. |
| Lexer.TokenizeCountsTags | browser.py:134-137 | The number of `Tag` tokens equals the number of `>` characters in the body, including empty tags from `<>` and tags from a stray `>`. |
| Lexer.TrailingFragmentDropped | browser.py:130-141 | An unterminated trailing `<frag` produces no token. Closing it with `>` appends exactly `Tag(frag)` and leaves the earlier tokens alone. |
| Lexer.Shown | browser.py:107-115 | What `show` prints is never longer than the body and holds no `<` or `>`. Outside a tag, delimiter-free text is printed as it is; inside a tag, nothing is printed. |
| Lexer.TextsAreShown | browser.py:107-142 | When the delimiters alternate (`<` then `>`), the text tokens joined together are exactly the characters `show` prints, i.e. the body with every `<...>` span removed. |
| Lexer.StrayCloseMakesTag | browser.py:134-137 | A stray `>` outside a tag turns the text before it into a `Tag`, although `show` prints that text. |
| Lexer.NestedOpenMakesText | browser.py:130-133 | A `<` inside a tag turns the tag text before it into a `Text` token, although `show` prints nothing of it. |
| Strings.Words | browser.py:168 | `split()` yields only non-empty words free of whitespace, and no words at all for the empty string. |
| Strings.WordsOfWord | browser.py:168 | A non-empty run without whitespace splits into exactly one word, itself. No word breaks inside a run. |
| Strings.WordsSplitAt | browser.py:168 | Any whitespace character separates words: the words of `a c b` are the words of `a` followed by those of `b`. Together with `WordsOfWord` and `Words` giving nothing for the empty string, this determines `split()` on every string. |
| Strings.WordsCover | browser.py:168 | The words of `split()`, joined together, are the string with every whitespace character removed. Nothing but whitespace is lost, and order is kept. |
| Strings.IndexOf | browser.py:38 | The result is the first position where the pattern occurs, or the length of the string when there is none. |
| Fonts.FontCache.GetFont | browser.py:28-35 | A cached key returns its cached handle and changes nothing. A new key creates a fresh handle, stores it under that key and returns it. No existing entry is ever replaced, and every handle is stored under its own key. |
| Fonts.GetFontTwice | browser.py:30-35 | Two requests for one style return the identical handle object. The cache changes at most in that style's entry. |
| LayoutEngine.Max | browser.py:177-186 | The maximum is an element of the list and bounds every element. |
| LayoutEngine.FlushEffect | browser.py:175-186 | Flushing an empty line changes nothing. Flushing a non-empty line appends its words in buffer order, at their buffered x, with their fonts. Each word's y plus its font's ascent is the shared baseline, which is the cursor plus 1.25 times the largest ascent, and no word sits above the cursor. The next line starts at the left margin, 1.25 times the largest descent below the baseline. The style is unchanged. |
| LayoutEngine.FlushKeepsWords | browser.py:175-186 | A flush moves the line's words to the display list without losing, adding or reordering any. It empties the line and keeps the line invariant. |
| LayoutEngine.PlaceWordEffect | browser.py:169-173 | A word that would cross `WIDTH - HSTEP` first flushes the line and then starts the new line at `HSTEP`. Otherwise it joins the line at the cursor and leaves the display list and vertical cursor alone. In both cases the cursor advances by the word's width plus a space, the style is kept, and the vertical cursor never moves up. After a wrap, the vertical cursor is where the flush put it. |
| LayoutEngine.PlaceWordInv | browser.py:169-173 | Placing a word keeps the line invariant: an empty line has its cursor at `HSTEP`, and buffered words stand left to right, none right of the cursor. |
| LayoutEngine.PlaceWordWords | browser.py:172 | Placing a word adds exactly that word after all words laid out before it. |
| LayoutEngine.PlaceWordsEffect | browser.py:166-173 | All words of a text token are added once each, in order. The invariant is kept, the style is untouched and the vertical cursor never moves up. |
| LayoutEngine.TagTable | browser.py:191-211 | The tag table: each style tag sets its one field, `br` is a flush, `/p` is a flush followed by a `VSTEP` gap, and any other tag changes nothing. |
| LayoutEngine.TagStepKeeps | browser.py:188-211 | No tag loses or adds a laid-out word or moves the cursor up, and only a style tag changes the font key. |
| LayoutEngine.TagStepInv | browser.py:207-211 | Every tag keeps the line invariant. |
| LayoutEngine.SizeTagsCancel | browser.py:199-206 | `small`/`/small` and `big`/`/big` undo each other. |
| LayoutEngine.ClosingTagsDoNotNest | browser.py:191-198 | A closing tag resets to a fixed value rather than restoring the previous one, so `<b><b></b>` ends in normal weight. |
| LayoutEngine.InitialInv | browser.py:154-160 | The starting state satisfies the invariant and holds no words. |
| LayoutEngine.TokenKeeps | browser.py:188-190 | One token, whatever font its words get, keeps the invariant and adds exactly its `split()` words after the existing ones. |
| LayoutEngine.StepsGrow | browser.py:162-163 | Fonts cached later never change how an earlier token was laid out, because no cache entry is ever replaced. |
| LayoutEngine.StepsKeeps | browser.py:162-163 | Laying out a run of tokens keeps the line invariant and adds exactly the `split()` words of its text tokens, in order. |
| LayoutEngine.LayoutOfWords | browser.py:153-164 | A whole layout pass ends with an empty line and the invariant. Its display list holds exactly the words of the text tokens, in order, one item per word. |
| LayoutEngine.LayoutOfSharesFonts | browser.py:162-173 | Over a whole pass, any two display-list items drawn in the same (size, weight, slant) carry the identical font handle, because every font comes from the memo table. |
| LayoutEngine.LayoutOfDefaultFont | browser.py:155-173 | A document without style tags is drawn entirely in the default font: size 16, normal weight, roman slant. |
| LayoutEngine.FlushedStacked | browser.py:175-186 | A flush puts its line at or below everything placed before it, and moves the vertical cursor at or below the line's baseline. |
| LayoutEngine.TextKeysCached | browser.py:162-167 | Every style that a resolved run of tokens asks `get_font` for (the style in force at each text token) is in the cache that resolved it. |
| LayoutEngine.TextKeysGrow | browser.py:162-167 | Fonts cached later do not change which styles an already-resolved run of tokens asks for. |
| LayoutEngine.LayoutOfOrdered | browser.py:153-186 | Over a whole pass, baselines never rise down the display list. Each item either shares an earlier item's baseline (same line) or starts at or below it (a later line). |
| LayoutEngine.LayoutOfSeparated | browser.py:166-186 | For metrics with positive descents and space widths, a whole pass is strictly ordered. Within a line, x strictly increases along the baseline. Every item of a later line starts strictly below the baselines of all earlier items. |
| LayoutEngine.Layout.constructor | browser.py:153-164 | The final fields (every item's x, y, word and font, the cursor and the style) are exactly the reference pass: each token's step in order, with fonts from the cache, then the final flush. It follows that the line is empty, the invariant holds, and the display list holds exactly the words of the text tokens, in order. The display list is in vertical order (strictly, with positive descents and space widths), and items of one style share one font handle. The cache keeps its old entries, and its keys are afterwards exactly the old keys plus the style in force at each text token. Every new entry is a font created during the pass. |
| LayoutEngine.Layout.Flush | browser.py:175-186 | The fields after `flush` are the reference flush of the fields before it, and the line invariant is kept. |
| LayoutEngine.Layout.Text | browser.py:166-173 | The font of the current style is looked up once in the cache. The cache gains at most that style's entry, and a new entry is a new font. The fields afterwards are the reference placement of the token's `split()` words in that font, and the line invariant is kept. |
| LayoutEngine.Layout.Token | browser.py:188-211 | A text token is laid out as `text` does, and the cache gains at most the current style's entry, a new font when it was missing. A tag applies the tag table and leaves the font cache alone. Both keep the line invariant. |
| Http.SplitHost | browser.py:39-41 | The host has no `/` and the path starts with `/`. When the rest has a `/`, host and path rejoin to it; otherwise the path is `/` and the host is the whole rest. |
| Http.ParseUrl | browser.py:37-41 | The result is None exactly when the URL has no `://`. Otherwise the path starts with `/` and the host contains no `/`. |
| Http.ParseUrlScheme | browser.py:38 | The scheme is the text before the first `://`, which occurs right after it. |
| Http.ParseUrlPrefix | browser.py:38 | The URL is the scheme, `://`, and the remainder that host and path are cut from. |
| Http.ParseUrlRebuilds | browser.py:37-41 | When the part after `://` has a `/`, scheme, `://`, host and path put back together give the original URL. |
| Http.ParseUrlAddsSlash | browser.py:39 | When the part after `://` has no `/`, the path is `/` and the parts rebuild the URL with a `/` appended. |
| Http.ParseFormatUrl | browser.py:37-41 | A URL whose scheme has no `:`, whose host has no `/` and whose path starts with `/` parses back to the same parts. |
| Http.FormatHeaders | browser.py:43-45 | The bytes are valid UTF-8 and decode to the header lines. |
| Http.ParseHeaderLinesRoundTrip | browser.py:44 | Reading the header lines back (split at the first `: `, ended at the first CRLF) gives the fields, in order, when no name has a `:` and no value has a CR. |
| Http.FormatHeadersRoundTrip | browser.py:43-45 | Decoding and reading the formatted bytes gives back the header fields, in order. |
| Http.FormatHeadersAppend | browser.py:44 | Formatting is a homomorphism: the bytes for two field lists are the bytes of each, concatenated. |
| Http.FormatHeadersAscii | browser.py:45 | For ASCII names and values, there is one byte per character and each byte is the character's code. |
| Utf8.DecodeEncode | browser.py:45 | Decoding the UTF-8 encoding of any string gives the string back. |
| Utf8.EncodeDecode | browser.py:45 | A byte string that decodes (strict RFC 3629 decoding) is exactly the encoding of what it decodes to. |
| Utf8.EncodeAscii | browser.py:45 | ASCII text encodes one byte per character, each byte being the character's code. |

## Left out

- `request`, `load_file` and `load_document` (browser.py:47-105) are not modelled. They are socket, TLS and file I/O.
- The `Browser` class (browser.py:213-255) is not modelled. It covers the Tk window, canvas drawing, scrolling and the visibility test when drawing.
- `timed` (browser.py:16-26) and the `__main__` block are not modelled. They cover the clock, printing and argument handling.
- `show` (browser.py:107-115) prints to standard output. It appears only as the reference function `Lexer.Shown` that the text tokens are compared with.
- Fonts are not rasterised. Widths, ascents and descents are the `Metrics` parameter, and the toolkit's font object is reduced to its key and its identity.
- `FONTS` is a module-level dictionary in the source. Here it is a `FontCache` object passed to `Layout`. The constructor's contract states which keys a pass adds and that their fonts are new. Which new handle is stored under which new key is stated per call (`Text`, `Token`) and over the pass only through `LayoutOf` agreeing with the final cache.
- `.encode("utf8")` raises on a string holding a lone surrogate (U+D800 to U+DFFF). A Dafny `char` cannot hold a surrogate, so that error path of `format_headers` is not modelled.
- `format_headers` takes a dict. It is modelled as a sequence of (name, value) string pairs in insertion order. Values that are not strings, and `str.format` on them, are not modelled.
- `cursor_x` is an integer because the toolkit's `measure` returns integer pixel counts. `cursor_y` is an exact rational rather than a binary float, so float rounding is not modelled.
- The text size is an unbounded integer. Nothing stops `small` from making it zero or negative, just as in the source.
- Http.ParseUrl: the `ValueError` that `parse_url` raises on a URL without `://` is modelled as `None`. Idempotence of parsing a formatted URL is covered only for well-formed parts (`Http.ParseFormatUrl`).
- LayoutEngine.LayoutOfOrdered: states only the non-strict order. That is all that holds when `Metrics` allows a zero descent or a zero-width space, since two lines may then share a baseline. The strict order, and x order along a line over the display list, are `LayoutEngine.LayoutOfSeparated`, under positive descents and space widths.
- Lexer.TextsAreShown: the intended reading is that the text tokens joined together equal the body with the tags removed. The code only guarantees this when delimiters alternate. The model follows the code, and `Lexer.StrayCloseMakesTag` and `Lexer.NestedOpenMakesText` give the two inputs where the code and `show` differ.
