/**
 * The two string helpers of the HTTP client: splitting a URL into scheme,
 * host and path (a simplified reading of section 3 of RFC 3986), and rendering
 * request header fields as `name: value` lines ended by CRLF (section 3.2 of
 * RFC 7230), encoded as UTF-8.
 */
module Http {
  import opened Wrappers
  import opened Strings
  import Utf8

  /** The `(scheme, host, path)` triple `parse_url` returns. */
  datatype Url = Url(scheme: string, host: string, path: string)

  predicate IsSlash(c: char)
  {
    c == '/'
  }

  /** The URL a triple stands for: scheme, `://`, host, then the path. */
  function FormatUrl(u: Url): string
  {
    u.scheme + "://" + u.host + u.path
  }

  /**
   * The part of `parse_url` after the `://`: add a `/` when there is none, then
   * split at the first `/`, which stays at the head of the path.
   */
  function SplitHost(rest: string): (r: (string, string))
    ensures '/' !in r.0 && r.1 != [] && r.1[0] == '/'
    ensures '/' in rest ==> r.0 + r.1 == rest
    ensures '/' !in rest ==> r == (rest, "/")
  {
    var rest' := if '/' in rest then rest else rest + "/";
    var j := Find(rest', IsSlash);
    assert j < |rest'| && ('/' !in rest ==> rest'[..j] == rest && "/" + rest'[j + 1..] == "/") by {
      if '/' !in rest {
        assert rest'[|rest|] == '/';
        assert forall i :: 0 <= i < |rest| ==> rest'[i] == rest[i];
        assert j == |rest|;
        assert "/" + rest'[j + 1..] == "/";
      }
    }
    assert rest' == rest'[..j] + [rest'[j]] + rest'[j + 1..];
    assert forall i :: 0 <= i < j ==> rest'[..j][i] == rest'[i] != '/';
    (rest'[..j], "/" + rest'[j + 1..])
  }

  /** A host without `/` followed by a path that starts with `/` splits back into the two. */
  lemma SplitHostOf(host: string, path: string)
    requires '/' !in host && path != [] && path[0] == '/'
    ensures SplitHost(host + path) == (host, path)
  {
    var rest := host + path;
    assert rest[|host|] == '/';
    FindAppend(host, path, IsSlash);
    assert rest[..|host|] == host;
    assert "/" + rest[|host| + 1..] == path;
  }

  /**
   * `parse_url`. The scheme is everything before the first `://`; the host runs
   * from there to the next `/`; the path is the rest, from that `/` on, or `/`
   * when the URL has no `/` after its `://`. A URL without `://` has no parse
   * (the original fails unpacking the split).
   */
  function ParseUrl(url: string): (r: Option<Url>)
    ensures r.None? <==> !Contains(url, "://")
    ensures r.Some? ==> r.value.path != [] && r.value.path[0] == '/' && '/' !in r.value.host
  {
    var k := IndexOf(url, "://");
    if k == |url| then None
    else
      var split := SplitHost(url[k + 3..]);
      Some(Url(url[..k], split.0, split.1))
  }

  /** A URL whose first `://` is at `n` parses to the text before it and the split of the text after it. */
  lemma ParseUrlAt(url: string, n: nat)
    requires n < |url| && IndexOf(url, "://") == n
    ensures ParseUrl(url) == Some(Url(url[..n], SplitHost(url[n + 3..]).0, SplitHost(url[n + 3..]).1))
  {
  }

  /** The scheme is the text before the first `://` of the URL. */
  lemma ParseUrlScheme(url: string)
    requires ParseUrl(url).Some?
    ensures var u := ParseUrl(url).value;
      && url[..|u.scheme|] == u.scheme
      && OccursAt(url, "://", |u.scheme|)
      && (forall i :: 0 <= i < |u.scheme| ==> !OccursAt(url, "://", i))
  {
    ParseUrlAt(url, IndexOf(url, "://"));
  }

  /** The URL is the scheme, `://` and the text after it. */
  lemma ParseUrlPrefix(url: string)
    requires ParseUrl(url).Some?
    ensures var u := ParseUrl(url).value;
      url == (u.scheme + "://") + url[|u.scheme| + 3..]
  {
    var k := IndexOf(url, "://");
    ParseUrlAt(url, k);
    assert url[k..k + 3] == "://";
  }

  /** Host and path split off a text with a `/` are that text again, once put together. */
  lemma SplitHostRejoins(scheme: string, rest: string)
    requires '/' in rest
    ensures FormatUrl(Url(scheme, SplitHost(rest).0, SplitHost(rest).1)) == (scheme + "://") + rest
  {
    var split := SplitHost(rest);
    assert split.0 + split.1 == rest;
    assert scheme + "://" + split.0 + split.1 == (scheme + "://") + (split.0 + split.1);
  }

  /** When there is a `/` after the `://`, putting scheme, `://`, host and path together gives the URL again. */
  lemma ParseUrlRebuilds(url: string)
    requires ParseUrl(url).Some?
    ensures var u := ParseUrl(url).value;
      '/' in url[|u.scheme| + 3..] ==> FormatUrl(u) == url
  {
    var k := IndexOf(url, "://");
    var rest := url[k + 3..];
    ParseUrlAt(url, k);
    ParseUrlPrefix(url);
    if '/' in rest {
      SplitHostRejoins(url[..k], rest);
    }
  }

  /** When there is no `/` after the `://`, the path is `/` and the parts put together are the URL with `/` added. */
  lemma ParseUrlAddsSlash(url: string)
    requires ParseUrl(url).Some?
    ensures var u := ParseUrl(url).value;
      '/' !in url[|u.scheme| + 3..] ==> FormatUrl(u) == url + "/" && u.path == "/"
  {
    var k := IndexOf(url, "://");
    ParseUrlAt(url, k);
    ParseUrlPrefix(url);
    var rest := url[k + 3..];
    var split := SplitHost(rest);
    var s, h, p := url[..k], split.0, split.1;
    assert ParseUrl(url).value == Url(s, h, p);
    if '/' !in rest {
      assert s + "://" + h + p == ((s + "://") + rest) + "/";
    }
  }

  /**
   * A triple `parse_url` can give back unchanged: a scheme without `:` (as in
   * RFC 3986, whose schemes are letters, digits, `+`, `-` and `.`), a host
   * without `/`, and a path starting with `/`.
   */
  predicate WellFormedUrl(u: Url)
  {
    && ':' !in u.scheme
    && '/' !in u.host
    && u.path != [] && u.path[0] == '/'
  }

  /** The pieces of the text of a triple. */
  lemma FormatUrlParts(u: Url)
    ensures var url := FormatUrl(u);
      && |url| == |u.scheme| + 3 + |u.host| + |u.path|
      && url[..|u.scheme|] == u.scheme
      && OccursAt(url, "://", |u.scheme|)
      && url[|u.scheme| + 3..] == u.host + u.path
  {
    var url := FormatUrl(u);
    assert url == u.scheme + "://" + (u.host + u.path);
    assert url[|u.scheme|..|u.scheme| + 3] == "://";
  }

  /** A text whose first `://` ends the scheme of `u`, followed by its host and path, parses to `u`. */
  lemma ParseUrlFrom(t: string, u: Url)
    requires |u.scheme| < |t| && IndexOf(t, "://") == |u.scheme|
    requires t[..|u.scheme|] == u.scheme && t[|u.scheme| + 3..] == u.host + u.path
    requires '/' !in u.host && u.path != [] && u.path[0] == '/'
    ensures ParseUrl(t) == Some(u)
  {
    ParseUrlAt(t, |u.scheme|);
    SplitHostOf(u.host, u.path);
  }

  /** Parsing the text of a well-formed triple gives the triple back. */
  lemma ParseFormatUrl(u: Url)
    requires WellFormedUrl(u)
    ensures ParseUrl(FormatUrl(u)) == Some(u)
  {
    var url := FormatUrl(u);
    var n := |u.scheme|;
    FormatUrlParts(u);
    assert IndexOf(url, "://") == n by {
      assert forall i :: 0 <= i < n ==> url[i] == u.scheme[i];
      IndexOfAt(url, "://", n);
    }
    ParseUrlFrom(url, u);
  }

  predicate IsColon(c: char)
  {
    c == ':'
  }

  predicate IsCR(c: char)
  {
    c == '\r'
  }

  /** One header field line: `name: value` and CRLF. */
  function HeaderLine(name: string, value: string): string
  {
    name + ": " + value + "\r\n"
  }

  /** The header lines of `format_headers`, in the order the fields were inserted. */
  function HeaderLines(headers: seq<(string, string)>): (r: string)
    ensures headers == [] ==> r == []
  {
    if headers == [] then []
    else HeaderLine(headers[0].0, headers[0].1) + HeaderLines(headers[1..])
  }

  /** `format_headers`: the header lines, encoded as UTF-8. */
  function FormatHeaders(headers: seq<(string, string)>): (r: seq<Utf8.uint8>)
    ensures Utf8.Decode(r) == Some(HeaderLines(headers))
  {
    Utf8.DecodeEncode(HeaderLines(headers));
    Utf8.Encode(HeaderLines(headers))
  }

  /**
   * The reader's side: split a header block back into fields, each line at its
   * first `: ` and ended at its first CRLF; None when a line is malformed.
   */
  function ParseHeaderLines(s: string): (r: Option<seq<(string, string)>>)
    decreases |s|
  {
    if s == [] then Some([])
    else
      var i := Find(s, IsColon);
      if i + 1 >= |s| || s[i + 1] != ' ' then None
      else
        var rest := s[i + 2..];
        var j := Find(rest, IsCR);
        if j + 1 >= |rest| || rest[j + 1] != '\n' then None
        else
          match ParseHeaderLines(rest[j + 2..])
          case None => None
          case Some(tail) => Some([(s[..i], rest[..j])] + tail)
  }

  /**
   * A field the line format can carry: its name has no `:` (a field name is a
   * token in RFC 7230) and its value has no CR.
   */
  predicate ValidField(field: (string, string))
  {
    ':' !in field.0 && '\r' !in field.1
  }

  /** A character a string does not contain is not found in it. */
  lemma FindAbsent(s: string, p: char -> bool, c: char)
    requires forall x :: p(x) <==> x == c
    requires c !in s
    ensures Find(s, p) == |s|
  {
    forall i | 0 <= i < |s|
      ensures !p(s[i])
    {
      assert s[i] in s;
    }
  }

  /** One step of the header parser, once the `: ` and the CRLF of the first line are located. */
  lemma ParseHeaderStep(s: string, i: nat, j: nat, tail: seq<(string, string)>)
    requires i + 2 <= |s| && i == Find(s, IsColon) && s[i + 1] == ' '
    requires j + 2 <= |s[i + 2..]| && j == Find(s[i + 2..], IsCR) && s[i + 2..][j + 1] == '\n'
    requires ParseHeaderLines(s[i + 2..][j + 2..]) == Some(tail)
    ensures ParseHeaderLines(s) == Some([(s[..i], s[i + 2..][..j])] + tail)
  {
  }

  /** Parsing one rendered line recovers its field, before the fields of what follows. */
  lemma ParseHeaderLine(name: string, value: string, more: string, tail: seq<(string, string)>)
    requires ValidField((name, value))
    requires ParseHeaderLines(more) == Some(tail)
    ensures ParseHeaderLines(HeaderLine(name, value) + more) == Some([(name, value)] + tail)
  {
    var s := HeaderLine(name, value) + more;
    var rest := value + ("\r\n" + more);
    assert Find(s, IsColon) == |name| by {
      assert s == name + (": " + rest);
      FindAppend(name, ": " + rest, IsColon);
      FindAbsent(name, IsColon, ':');
    }
    assert s[|name| + 2..] == rest && s[..|name|] == name && s[|name| + 1] == ' ' by {
      assert s == name + (": " + rest);
    }
    assert Find(rest, IsCR) == |value| by {
      FindAppend(value, "\r\n" + more, IsCR);
      FindAbsent(value, IsCR, '\r');
    }
    assert rest[|value| + 2..] == more && rest[..|value|] == value && rest[|value| + 1] == '\n';
    ParseHeaderStep(s, |name|, |value|, tail);
  }

  /** The rendered lines of valid fields parse back to the same fields, in the same order. */
  lemma {:induction false} ParseHeaderLinesRoundTrip(headers: seq<(string, string)>)
    requires forall k :: 0 <= k < |headers| ==> ValidField(headers[k])
    ensures ParseHeaderLines(HeaderLines(headers)) == Some(headers)
  {
    if headers != [] {
      ParseHeaderLinesRoundTrip(headers[1..]);
      ParseHeaderLine(headers[0].0, headers[0].1, HeaderLines(headers[1..]), headers[1..]);
      assert [headers[0]] + headers[1..] == headers;
    }
  }

  /** The bytes `format_headers` produces decode and parse back to the fields they render. */
  lemma FormatHeadersRoundTrip(headers: seq<(string, string)>)
    requires forall k :: 0 <= k < |headers| ==> ValidField(headers[k])
    ensures Utf8.Decode(FormatHeaders(headers)).Some?
    ensures ParseHeaderLines(Utf8.Decode(FormatHeaders(headers)).value) == Some(headers)
  {
    ParseHeaderLinesRoundTrip(headers);
  }

  /** Rendering distributes over concatenation: one line per field, nothing between them. */
  lemma {:induction false} HeaderLinesAppend(a: seq<(string, string)>, b: seq<(string, string)>)
    ensures HeaderLines(a + b) == HeaderLines(a) + HeaderLines(b)
  {
    if a == [] {
      assert a + b == b;
    } else {
      assert (a + b)[0] == a[0];
      assert (a + b)[1..] == a[1..] + b;
      HeaderLinesAppend(a[1..], b);
      var line := HeaderLine(a[0].0, a[0].1);
      assert line + (HeaderLines(a[1..]) + HeaderLines(b)) == (line + HeaderLines(a[1..])) + HeaderLines(b);
    }
  }

  /** The bytes of a concatenation of field lists are the two blocks' bytes, one after the other. */
  lemma FormatHeadersAppend(a: seq<(string, string)>, b: seq<(string, string)>)
    ensures FormatHeaders(a + b) == FormatHeaders(a) + FormatHeaders(b)
  {
    HeaderLinesAppend(a, b);
    Utf8.EncodeAppend(HeaderLines(a), HeaderLines(b));
  }

  /**
   * For ASCII names and values the block has one byte per character, and
   * every byte is the code of the character it encodes.
   */
  lemma {:induction false} FormatHeadersAscii(headers: seq<(string, string)>)
    requires forall k :: 0 <= k < |headers| ==> Utf8.IsAscii(headers[k].0) && Utf8.IsAscii(headers[k].1)
    ensures Utf8.IsAscii(HeaderLines(headers))
    ensures |FormatHeaders(headers)| == |HeaderLines(headers)|
    ensures forall i :: 0 <= i < |HeaderLines(headers)| ==>
      FormatHeaders(headers)[i] as int == HeaderLines(headers)[i] as int
  {
    if headers != [] {
      FormatHeadersAscii(headers[1..]);
      var line := HeaderLine(headers[0].0, headers[0].1);
      var tail := HeaderLines(headers[1..]);
      assert Utf8.IsAscii(line) by {
        forall i | 0 <= i < |line|
          ensures line[i] as int < 0x80
        {
          if i < |headers[0].0| {
            assert line[i] == headers[0].0[i];
          } else if |headers[0].0| + 2 <= i < |headers[0].0| + 2 + |headers[0].1| {
            assert line[i] == headers[0].1[i - |headers[0].0| - 2];
          }
        }
      }
      assert HeaderLines(headers) == line + tail;
      forall i | 0 <= i < |line + tail|
        ensures (line + tail)[i] as int < 0x80
      {
        if i < |line| {
          assert (line + tail)[i] == line[i];
        } else {
          assert (line + tail)[i] == tail[i - |line|];
        }
      }
    }
    Utf8.EncodeAscii(HeaderLines(headers));
  }
}
