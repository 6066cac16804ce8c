/**
  The static web server: recognising a GET request line, taking its path,
  and choosing the page to send back.

  isValidGETRequest runs the regular expression

    (?m)^GET\s+\/[^\s]*\s+HTTP\/1\.[01]$(?:\r?\nHost:\s+[^\s]+)?

  as an unanchored search. The trailing Host group is optional, so whether
  the expression matches somewhere never depends on it; the search below
  leaves it out. In multi-line mode `^` holds at the start of the text and
  after each '\n', and `$` at the end of the text and before each '\n'.
  Between `GET` and `HTTP` the pieces alternate between `\s` and non-`\s`
  characters, so reading each repetition greedily finds the only match.

  The path is taken with strings.Fields, which splits at unicode.IsSpace
  characters, a wider set than the regexp's `\s`.
*/
module WebServer {
  import opened Scan

  /** A byte of a response. */
  newtype byte = b: int | 0 <= b < 256

  /** The bytes of a text whose characters are all ASCII, one byte per character. */
  function Ascii(s: string): (r: seq<byte>)
    requires forall i | 0 <= i < |s| :: s[i] < '\U{0080}'
    ensures |r| == |s|
    ensures forall i | 0 <= i < |r| :: r[i] as int == s[i] as int
  {
    seq(|s|, i requires 0 <= i < |s| => s[i] as int as byte)
  }

  const OkHeader: string := "HTTP/1.1 200 OK\r\n\r\n"
  const NotFoundHeader: string := "HTTP/1.1 404 Not Found\r\n\r\n"
  const BadRequestHeader: string := "HTTP/1.1 400 Bad Request\r\n\r\n"

  // ---------------------------------------------------------------------
  // isValidGETRequest
  // ---------------------------------------------------------------------

  /** `^` in multi-line mode. */
  predicate LineStart(text: string, p: nat) {
    p == 0 || (p <= |text| && text[p - 1] == '\n')
  }

  /** `$` in multi-line mode. */
  predicate LineEnd(text: string, p: nat) {
    p == |text| || (p < |text| && text[p] == '\n')
  }

  /** `HTTP/1.0` or `HTTP/1.1` starts at `d` and is followed by the end of a line. */
  predicate VersionAt(text: string, d: nat) {
    && d + 8 <= |text|
    && text[d..d + 7] == "HTTP/1."
    && (text[d + 7] == '0' || text[d + 7] == '1')
    && LineEnd(text, d + 8)
  }

  /** `GET\s+\/[^\s]*\s+HTTP\/1\.[01]$` matches starting at `p`. */
  predicate MatchesAt(text: string, p: nat)
    requires p <= |text|
  {
    && p + 3 <= |text| && text[p..p + 3] == "GET"
    && var b := Span(text, p + 3, Space);
       && p + 3 < b < |text| && text[b] == '/'
       && var c := Span(text, b + 1, NonSpace);
          var d := Span(text, c, Space);
          && c < d
          && VersionAt(text, d)
  }

  /** The search MatchString performs: a match at some line start at or after `p`. */
  predicate MatchesFrom(text: string, p: nat)
    requires p <= |text|
    decreases |text| - p
  {
    || (LineStart(text, p) && MatchesAt(text, p))
    || (p < |text| && MatchesFrom(text, p + 1))
  }

  /** isValidGETRequest. */
  predicate IsValidGetRequest(request: string) {
    MatchesFrom(request, 0)
  }

  /**
    A line in the form the expression describes: `GET`, whitespace, a path
    ('/' then `rest`, free of whitespace), whitespace, and `HTTP/1.` with the
    minor version `v`.
  */
  function GetLine(ws1: string, rest: string, ws2: string, v: char): string {
    "GET" + (ws1 + ("/" + (rest + (ws2 + ("HTTP/1." + [v])))))
  }

  /** The parts of a GET line, each of its form. */
  predicate GetLineParts(ws1: string, rest: string, ws2: string, v: char) {
    && Run1(ws1, Space)
    && AllIn(rest, NonSpace)
    && Run1(ws2, Space)
    && (v == '0' || v == '1')
  }

  ghost predicate IsGetLine(line: string) {
    exists ws1: string, rest: string, ws2: string, v: char ::
      GetLineParts(ws1, rest, ws2, v) && line == GetLine(ws1, rest, ws2, v)
  }

  /** Where each part of a GET line sits in a text that starts with it and goes on with `more`. */
  predicate LaidOut(text: string, ws1: string, rest: string, ws2: string, v: char, more: string) {
    var b := 3 + |ws1|; var c := b + 1 + |rest|; var d := c + |ws2|;
    && |text| == d + 8 + |more|
    && text[0] == 'G' && text[1] == 'E' && text[2] == 'T'
    && (forall i | 3 <= i < b :: text[i] == ws1[i - 3])
    && text[b] == '/'
    && (forall i | b < i < c :: text[i] == rest[i - b - 1])
    && (forall i | c <= i < d :: text[i] == ws2[i - c])
    && text[d..d + 7] == "HTTP/1." && text[d + 7] == v
    && text[d + 8..] == more
  }

  lemma GetLineLayout(text: string, ws1: string, rest: string, ws2: string, v: char, more: string)
    requires text == GetLine(ws1, rest, ws2, v) + more
    ensures LaidOut(text, ws1, rest, ws2, v, more)
  {
    var d := 3 + |ws1| + 1 + |rest| + |ws2|;
    var line := GetLine(ws1, rest, ws2, v);
    assert text[..|line|] == line && text[|line|..] == more;
    assert forall i | 0 <= i < |line| :: text[i] == line[i];
    assert line[d..] == "HTTP/1." + [v];
  }

  /** A single line laid out as a GET line is that GET line. */
  lemma LaidOutLine(text: string, ws1: string, rest: string, ws2: string, v: char)
    requires LaidOut(text, ws1, rest, ws2, v, [])
    ensures text == GetLine(ws1, rest, ws2, v)
  {
    var g := GetLine(ws1, rest, ws2, v);
    GetLineLayout(g, ws1, rest, ws2, v, []);
    var d := 3 + |ws1| + 1 + |rest| + |ws2|;
    forall i | d <= i < d + 7 ensures g[i] == text[i] {
      assert text[i] == text[d..d + 7][i - d] && g[i] == g[d..d + 7][i - d];
    }
    assert forall i | 0 <= i < |text| :: g[i] == text[i];
  }

  /** Without a '\n' the only line start is 0, so no later position matches. */
  lemma {:induction false} NoLaterMatch(text: string, p: nat)
    requires 1 <= p <= |text|
    requires forall i | 0 <= i < |text| :: text[i] != '\n'
    ensures !MatchesFrom(text, p)
    decreases |text| - p
  {
    if p < |text| {
      NoLaterMatch(text, p + 1);
    }
  }

  /** A match at 0 on a single line spells a GET line. */
  lemma MatchSound(text: string)
    requires forall i | 0 <= i < |text| :: text[i] != '\n'
    requires MatchesAt(text, 0)
    ensures IsGetLine(text)
  {
    var b := Span(text, 3, Space);
    var c := Span(text, b + 1, NonSpace);
    var d := Span(text, c, Space);
    MatchIsLine(text, b, c, d);
    GetLineIntro(text, text[3..b], text[b + 1..c], text[c..d], text[d + 7]);
  }

  lemma MatchIsLine(text: string, b: nat, c: nat, d: nat)
    requires forall i | 0 <= i < |text| :: text[i] != '\n'
    requires MatchesAt(text, 0)
    requires b == Span(text, 3, Space) && c == Span(text, b + 1, NonSpace) && d == Span(text, c, Space)
    ensures 3 < b < c <= d < |text|
    ensures GetLineParts(text[3..b], text[b + 1..c], text[c..d], text[d + 7])
    ensures text == GetLine(text[3..b], text[b + 1..c], text[c..d], text[d + 7])
  {
    MatchParts(text);
    assert d + 8 == |text|;
    MatchLaidOut(text, b, c, d);
    LaidOutLine(text, text[3..b], text[b + 1..c], text[c..d], text[d + 7]);
  }

  lemma GetLineIntro(text: string, ws1: string, rest: string, ws2: string, v: char)
    requires GetLineParts(ws1, rest, ws2, v) && text == GetLine(ws1, rest, ws2, v)
    ensures IsGetLine(text)
  {
  }

  /** The pieces a match at 0 reads are the parts of a GET line. */
  lemma MatchParts(text: string)
    requires MatchesAt(text, 0)
    ensures var b := Span(text, 3, Space); var c := Span(text, b + 1, NonSpace); var d := Span(text, c, Space);
      GetLineParts(text[3..b], text[b + 1..c], text[c..d], text[d + 7])
  {
    var b := Span(text, 3, Space);
    var c := Span(text, b + 1, NonSpace);
    var d := Span(text, c, Space);
    SpanMaximal(text, 3, Space);
    SpanMaximal(text, b + 1, NonSpace);
    SpanMaximal(text, c, Space);
  }

  /** A text cut at `b`, `c` and `d` the way a single-line match cuts it. */
  lemma MatchLaidOut(text: string, b: nat, c: nat, d: nat)
    requires 3 < b < c <= d && d + 8 == |text|
    requires text[..3] == "GET" && text[b] == '/' && text[d..d + 7] == "HTTP/1."
    ensures LaidOut(text, text[3..b], text[b + 1..c], text[c..d], text[d + 7], [])
  {
    assert text[0] == text[..3][0] && text[1] == text[..3][1] && text[2] == text[..3][2];
  }

  /** A GET line, alone or followed by further lines, matches at 0. */
  lemma MatchComplete(text: string, ws1: string, rest: string, ws2: string, v: char, more: string)
    requires GetLineParts(ws1, rest, ws2, v)
    requires text == GetLine(ws1, rest, ws2, v) + more
    requires more == [] || more[0] == '\n'
    ensures MatchesAt(text, 0)
  {
    GetLineLayout(text, ws1, rest, ws2, v, more);
    MatchSpans(text, ws1, rest, ws2, v, more);
    var d := 3 + |ws1| + 1 + |rest| + |ws2|;
    if more != [] {
      assert text[d + 8] == text[d + 8..][0];
    }
  }

  /** Where the repetitions of the expression stop on a text that starts with a GET line. */
  lemma MatchSpans(text: string, ws1: string, rest: string, ws2: string, v: char, more: string)
    requires GetLineParts(ws1, rest, ws2, v)
    requires LaidOut(text, ws1, rest, ws2, v, more)
    ensures var b := 3 + |ws1|; var c := b + 1 + |rest|; var d := c + |ws2|;
      && text[..3] == "GET"
      && Span(text, 3, Space) == b && Span(text, b + 1, NonSpace) == c && Span(text, c, Space) == d
  {
    var b := 3 + |ws1|;
    var c := b + 1 + |rest|;
    var d := c + |ws2|;
    assert text[..3] == "GET";
    SpanTo(text, 3, b, Space);
    assert text[c] == ws2[0];
    SpanTo(text, b + 1, c, NonSpace);
    assert text[d] == text[d..d + 7][0];
    SpanTo(text, c, d, Space);
  }

  /** On a single line, isValidGETRequest holds exactly for GET lines. */
  lemma ValidSingleLine(line: string)
    requires forall i | 0 <= i < |line| :: line[i] != '\n'
    ensures IsValidGetRequest(line) <==> IsGetLine(line)
  {
    if |line| > 0 {
      NoLaterMatch(line, 1);
    }
    if IsValidGetRequest(line) {
      MatchSound(line);
    }
    if IsGetLine(line) {
      var ws1: string, rest: string, ws2: string, v: char :|
        GetLineParts(ws1, rest, ws2, v) && line == GetLine(ws1, rest, ws2, v);
      assert line == GetLine(ws1, rest, ws2, v) + [];
      MatchComplete(line, ws1, rest, ws2, v, []);
    }
  }

  // ---------------------------------------------------------------------
  // strings.Fields
  // ---------------------------------------------------------------------

  /** The fields of `s` from `i` on: maximal runs of non-space characters. */
  function FieldsFrom(s: string, i: nat): (r: seq<string>)
    requires i <= |s|
    ensures forall k | 0 <= k < |r| :: Run1(r[k], NonUnicodeSpace)
    decreases |s| - i
  {
    var a := Span(s, i, UnicodeSpace);
    if a == |s| then []
    else
      SpanMaximal(s, i, UnicodeSpace);
      var b := Span(s, a, NonUnicodeSpace);
      SpanMaximal(s, a, NonUnicodeSpace);
      [s[a..b]] + FieldsFrom(s, b)
  }

  /** One step of FieldsFrom: skip the spaces up to `a`, take the field from `a` to `b`. */
  lemma FieldAt(s: string, i: nat, a: nat, b: nat)
    requires i <= |s| && Span(s, i, UnicodeSpace) == a < |s|
    requires a <= |s| && Span(s, a, NonUnicodeSpace) == b
    ensures FieldsFrom(s, i) == [s[a..b]] + FieldsFrom(s, b)
  {
  }

  /** strings.Fields. */
  function Fields(s: string): (r: seq<string>)
    ensures forall k | 0 <= k < |r| :: Run1(r[k], NonUnicodeSpace)
  {
    FieldsFrom(s, 0)
  }

  /**
    On a GET line, and on a text whose first line is one, the first field is
    `GET` and the second, the path the server uses, is '/' followed by the
    regexp's path up to its first unicode space (such as U+00A0 or a
    vertical tab, which `\s` does not cover): the whole path when it holds
    none.
  */
  lemma PathField(text: string, ws1: string, rest: string, ws2: string, v: char, more: string)
    requires GetLineParts(ws1, rest, ws2, v)
    requires text == GetLine(ws1, rest, ws2, v) + more
    ensures |Fields(text)| >= 2 && Fields(text)[0] == "GET"
    ensures Fields(text)[1] == "/" + rest[..Span(rest, 0, NonUnicodeSpace)]
    ensures AllIn(rest, NonUnicodeSpace) ==> Fields(text)[1] == "/" + rest
  {
    GetLineLayout(text, ws1, rest, ws2, v, more);
    var b := 3 + |ws1|;
    var k := Span(rest, 0, NonUnicodeSpace);
    PathSpans(text, ws1, rest, ws2, v, more);
    FieldAt(text, 0, 0, 3);
    FieldAt(text, 3, b, b + 1 + k);
    if AllIn(rest, NonUnicodeSpace) {
      SpanTo(rest, 0, |rest|, NonUnicodeSpace);
      assert rest[..|rest|] == rest;
    }
  }

  /** Where strings.Fields cuts a text that starts with a GET line. */
  lemma PathSpans(text: string, ws1: string, rest: string, ws2: string, v: char, more: string)
    requires GetLineParts(ws1, rest, ws2, v)
    requires LaidOut(text, ws1, rest, ws2, v, more)
    ensures var b := 3 + |ws1|; var k := Span(rest, 0, NonUnicodeSpace);
      && Span(text, 0, UnicodeSpace) == 0 && Span(text, 0, NonUnicodeSpace) == 3
      && Span(text, 3, UnicodeSpace) == b && Span(text, b, NonUnicodeSpace) == b + 1 + k
      && text[0..3] == "GET" && text[b..b + 1 + k] == "/" + rest[..k]
  {
    var b := 3 + |ws1|;
    var c := b + 1 + |rest|;
    SpanTo(text, 0, 0, UnicodeSpace);
    assert text[3] == ws1[0];
    SpanTo(text, 0, 3, NonUnicodeSpace);
    SpanTo(text, 3, b, UnicodeSpace);
    var k := Span(rest, 0, NonUnicodeSpace);
    SpanMaximal(rest, 0, NonUnicodeSpace);
    assert text[c] == ws2[0];
    SpanTo(text, b, b + 1 + k, NonUnicodeSpace);
    assert text[b..b + 1 + k] == "/" + rest[..k];
  }

  // ---------------------------------------------------------------------
  // loadPageData and handleRequest
  // ---------------------------------------------------------------------

  /** What the server sends: a response, or nothing because check panicked on a missing page file. */
  datatype Outcome = Sent(bytes: seq<byte>) | Panicked

  /** The page files, by their path under the server's directory; os.ReadFile fails on a path not in the map. */
  type Files = map<string, seq<byte>>

  /** The status header and page file for a path: the index page for the two root paths, the 404 page for any other. */
  function Route(path: string): (r: (string, string))
    ensures path == "/" || path == "/index.html" ==> r == ("HTTP/1.1 200 OK\r\n\r\n", "index.html")
    ensures path != "/" && path != "/index.html" ==> r == ("HTTP/1.1 404 Not Found\r\n\r\n", "404.html")
  {
    if path == "/" || path == "/index.html" then (OkHeader, "index.html") else (NotFoundHeader, "404.html")
  }

  lemma HeadersAscii()
    ensures forall i | 0 <= i < |OkHeader| :: OkHeader[i] < '\U{0080}'
    ensures forall i | 0 <= i < |NotFoundHeader| :: NotFoundHeader[i] < '\U{0080}'
    ensures forall i | 0 <= i < |BadRequestHeader| :: BadRequestHeader[i] < '\U{0080}'
  {
  }

  /** loadPageData: the header's bytes followed by the page file's bytes. */
  function LoadPageData(path: string, files: Files): (r: Outcome)
    ensures r.Sent? <==> "pages/" + Route(path).1 in files
    ensures r.Sent? ==>
      var header := Route(path).0;
      var page := files["pages/" + Route(path).1];
      && |r.bytes| == |header| + |page|
      && (forall i | 0 <= i < |header| :: r.bytes[i] as int == header[i] as int)
      && r.bytes[|header|..] == page
  {
    var (header, filename) := Route(path);
    var file := "pages/" + filename;
    if file !in files then Panicked
    else
      HeadersAscii();
      Sent(Ascii(header) + files[file])
  }

  /** handleRequest on the request line read from the connection. */
  function HandleRequest(request: string, files: Files): (r: Outcome)
    ensures !IsValidGetRequest(request) ==> r.Sent? && r.bytes == Ascii(BadRequestHeader)
  {
    if !IsValidGetRequest(request) then
      HeadersAscii();
      Sent(Ascii(BadRequestHeader))
    else
      var fields := Fields(request);
      if |fields| < 2 then Panicked
      else LoadPageData(fields[1], files)
  }

  /** An invalid request line is answered with 400 whatever pages exist: no page is looked up. */
  lemma BadRequestIgnoresPages(request: string, files: Files, others: Files)
    requires !IsValidGetRequest(request)
    ensures HandleRequest(request, files) == HandleRequest(request, others)
    ensures HandleRequest(request, files) == Sent(Ascii("HTTP/1.1 400 Bad Request\r\n\r\n"))
  {
  }

  /**
    A GET line is answered with the page routed from its path field: the
    index page for "/" and "/index.html", the 404 page otherwise; the
    handler does not fail on the path extraction. Lines after the first,
    such as a Host line, change nothing.
  */
  lemma ServesRoutedPage(text: string, ws1: string, rest: string, ws2: string, v: char, more: string, files: Files)
    requires GetLineParts(ws1, rest, ws2, v)
    requires text == GetLine(ws1, rest, ws2, v) + more
    requires more == [] || more[0] == '\n'
    ensures IsValidGetRequest(text)
    ensures HandleRequest(text, files) == LoadPageData("/" + rest[..Span(rest, 0, NonUnicodeSpace)], files)
  {
    MatchComplete(text, ws1, rest, ws2, v, more);
    PathField(text, ws1, rest, ws2, v, more);
  }

  /** "GET / HTTP/1.1" is answered with 200 and the index page. */
  lemma IndexExample(request: string, files: Files)
    requires request == "GET / HTTP/1.1" && "pages/index.html" in files
    ensures HandleRequest(request, files) == Sent(Ascii(OkHeader) + files["pages/index.html"])
  {
    assert request == GetLine(" ", "", " ", '1') + [];
    ServesRoutedPage(request, " ", "", " ", '1', [], files);
    assert "/" + ""[..0] == "/";
    assert "pages/" + Route("/").1 == "pages/index.html";
  }

  /** A path other than the two root paths, followed by a Host line, is answered with 404 and the 404 page. */
  lemma NotFoundExample(request: string, files: Files)
    requires request == "GET /a HTTP/1.0\nHost: x" && "pages/404.html" in files
    ensures HandleRequest(request, files) == Sent(Ascii(NotFoundHeader) + files["pages/404.html"])
  {
    assert request == GetLine(" ", "a", " ", '0') + "\nHost: x";
    SpanTo("a", 0, 1, NonUnicodeSpace);
    ServesRoutedPage(request, " ", "a", " ", '0', "\nHost: x", files);
    assert "/" + "a"[..1] == "/a";
    assert "pages/" + Route("/a").1 == "pages/404.html";
  }
}
