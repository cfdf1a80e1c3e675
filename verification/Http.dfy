/** Splitting text into tokens, and the ordered maps that hold headers. */
module HttpText {
  import opened Basics

  predicate Free(s: string, delim: string) { forall i :: 0 <= i < |s| ==> s[i] !in delim }

  /** Where the first delimiter of s stands; |s| when there is none. */
  function Cut(s: string, delim: string): (k: nat)
    ensures k <= |s| && Free(s[..k], delim) && (k < |s| ==> s[k] in delim)
  {
    if s == "" || s[0] in delim then 0
    else
      var k := 1 + Cut(s[1..], delim);
      assert s[..k] == [s[0]] + s[1..][..k - 1];
      k
  }

  /** The non-empty pieces of s between delimiters. */
  function Tokens(s: string, delim: string): seq<string>
    decreases |s|
  {
    var k := Cut(s, delim);
    (if k == 0 then [] else [s[..k]]) + (if k < |s| then Tokens(s[k + 1..], delim) else [])
  }

  lemma CutUnique(s: string, delim: string, k: nat)
    requires k <= |s| && Free(s[..k], delim) && (k < |s| ==> s[k] in delim)
    ensures Cut(s, delim) == k
  {
    hide Cut;
    var c := Cut(s, delim);
    if c < k {
      assert false;
    } else if k < c {
      assert false;
    }
  }

  lemma TokensUnfold(s: string, delim: string, k: nat)
    requires k == Cut(s, delim)
    ensures k < |s| ==> Tokens(s, delim) == (if k == 0 then [] else [s[..k]]) + Tokens(s[k + 1..], delim)
    ensures k == |s| ==> Tokens(s, delim) == if k == 0 then [] else [s[..k]]
  {
    hide Cut;
  }

  /** A piece without delimiters is one token. */
  lemma TokensOfWord(w: string, delim: string)
    requires Free(w, delim)
    ensures Tokens(w, delim) == if w == "" then [] else [w]
  {
    hide Cut, Tokens;
    assert w[..|w|] == w;
    TokensUnfold(w, delim, Cut(w, delim));
    CutUnique(w, delim, |w|);
  }

  /** A delimiter separates: the tokens on its two sides do not depend on each other. */
  lemma {:induction false} TokensSeparate(a: string, c: char, b: string, delim: string)
    requires c in delim
    ensures Tokens(a + [c] + b, delim) == Tokens(a, delim) + Tokens(b, delim)
    decreases |a|
  {
    hide Cut, Tokens;
    var s, k := a + [c] + b, Cut(a, delim);
    assert s[..k] == a[..k];
    assert s[k] == if k < |a| then a[k] else c;
    CutUnique(s, delim, k);
    TokensUnfold(s, delim, k);
    TokensUnfold(a, delim, k);
    if k == |a| {
      assert s[k + 1..] == b && a[..k] == a;
    } else {
      assert s[k + 1..] == a[k + 1..] + [c] + b;
      TokensSeparate(a[k + 1..], c, b, delim);
    }
  }

  /** Tokens are non-empty and hold no delimiter. */
  lemma {:induction false} TokensAreWords(s: string, delim: string)
    ensures forall i :: 0 <= i < |Tokens(s, delim)| ==> Tokens(s, delim)[i] != "" && Free(Tokens(s, delim)[i], delim)
    decreases |s|
  {
    var k := Cut(s, delim);
    if k < |s| {
      TokensAreWords(s[k + 1..], delim);
    }
  }

  /** Each character of a token stands in s, so what s is free of its tokens are free of. */
  lemma {:induction false} TokensKeepFree(s: string, delim: string, other: string)
    requires Free(s, other)
    ensures forall i :: 0 <= i < |Tokens(s, delim)| ==> Free(Tokens(s, delim)[i], other)
    decreases |s|
  {
    var k := Cut(s, delim);
    if k < |s| {
      TokensKeepFree(s[k + 1..], delim, other);
    }
  }

  /** The next delimiter at or after from. */
  method FindFirstOf(s: string, delim: string, from: nat) returns (pos: nat)
    requires from <= |s|
    ensures pos == from + Cut(s[from..], delim)
  {
    hide Cut;
    pos := from;
    while pos < |s| && s[pos] !in delim
      invariant from <= pos <= |s| && Free(s[from..pos], delim)
    {
      assert s[from..pos + 1] == s[from..pos] + [s[pos]];
      pos := pos + 1;
    }
    assert s[from..][..pos - from] == s[from..pos];
    CutUnique(s[from..], delim, pos - from);
  }

  function TokensFrom(s: string, delim: string, i: nat): seq<string> {
    if i <= |s| then Tokens(s[i..], delim) else []
  }

  lemma TokensStep(s: string, delim: string, last: nat, pos: nat)
    requires last <= |s| && pos == last + Cut(s[last..], delim)
    ensures pos <= |s|
    ensures TokensFrom(s, delim, last) == (if pos == last then [] else [s[last..pos]]) + TokensFrom(s, delim, pos + 1)
  {
    hide Cut, Tokens, Free;
    var rest := s[last..];
    TokensUnfold(rest, delim, pos - last);
    assert rest[..pos - last] == s[last..pos];
    if pos < |s| {
      assert rest[pos - last + 1..] == s[pos + 1..];
    }
  }

  method Split(s: string, delim: string) returns (tokens: seq<string>)
    ensures tokens == Tokens(s, delim)
  {
    hide Cut, Tokens, TokensFrom, Free;
    var last := 0;
    tokens := [];
    TokensEnds(s, delim);
    while last < |s| + 1
      invariant last <= |s| + 1
      invariant Tokens(s, delim) == tokens + TokensFrom(s, delim, last)
    {
      var pos := FindFirstOf(s, delim, last);
      TokensStep(s, delim, last, pos);
      Reassociate(tokens, if pos == last then [] else [s[last..pos]], TokensFrom(s, delim, pos + 1));
      if pos != last {
        tokens := tokens + [s[last..pos]];
      }
      last := pos + 1;
    }
  }

  lemma TokensEnds(s: string, delim: string)
    ensures [] + TokensFrom(s, delim, 0) == Tokens(s, delim) && TokensFrom(s, delim, |s| + 1) == []
  {
    assert s[0..] == s;
  }

  // ---------- Ordered maps ----------

  predicate Less(a: string, b: string) {
    b != "" && (a == "" || a[0] < b[0] || (a[0] == b[0] && Less(a[1..], b[1..])))
  }

  lemma {:induction false} LessTransitive(a: string, b: string, c: string)
    requires Less(a, b) && Less(b, c)
    ensures Less(a, c)
  {
    if a != "" && a[0] == b[0] == c[0] {
      LessTransitive(a[1..], b[1..], c[1..]);
    }
  }

  lemma {:induction false} LessTotal(a: string, b: string)
    ensures a == b || Less(a, b) || Less(b, a)
    ensures !(Less(a, b) && Less(b, a)) && !Less(a, a)
  {
    if a != "" {
      LessTotal(a[1..], a[1..]);
      if b != "" {
        LessTotal(a[1..], b[1..]);
        if a[0] == b[0] {
          assert a == [a[0]] + a[1..] && b == [b[0]] + b[1..];
        }
      }
    }
  }

  /** The order of std::string: by the first character that differs, a shorter one before a longer one. */
  lemma {:induction false} LessExactly(a: string, b: string)
    ensures Less(a, b) <==> (a < b || exists k :: 0 <= k < |a| && k < |b| && a[..k] == b[..k] && a[k] < b[k])
    decreases |a|
  {
    if a != "" && b != "" && a[0] == b[0] {
      LessExactly(a[1..], b[1..]);
      assert a == [a[0]] + a[1..] && b == [b[0]] + b[1..];
      if a[1..] < b[1..] {
        assert a < b;
      } else if k :| 0 <= k < |a[1..]| && k < |b[1..]| && a[1..][..k] == b[1..][..k] && a[1..][k] < b[1..][k] {
        assert a[..k + 1] == [a[0]] + a[1..][..k] && b[..k + 1] == [b[0]] + b[1..][..k];
        assert a[k + 1] < b[k + 1];
      }
      if a < b {
        assert a[1..] < b[1..];
      } else if k :| 0 <= k < |a| && k < |b| && a[..k] == b[..k] && a[k] < b[k] {
        assert a[1..][..k - 1] == a[..k][1..] && b[1..][..k - 1] == b[..k][1..];
        assert a[1..][k - 1] < b[1..][k - 1];
      }
    } else if a != "" && b != "" {
      if a[0] < b[0] {
        assert a[..0] == b[..0];
      }
      forall k | 0 < k < |a| && k < |b| ensures a[..k] != b[..k] {
        assert a[..k][0] == a[0] && b[..k][0] == b[0];
      }
    }
  }

  datatype Entry<T> = Entry(key: string, value: T)

  /** A map as its entries in key order. */
  predicate Ordered<T>(m: seq<Entry<T>>) { forall i, j :: 0 <= i < j < |m| ==> Less(m[i].key, m[j].key) }

  /** Adds an entry unless its key is there already. */
  function Insert<T>(m: seq<Entry<T>>, e: Entry<T>): seq<Entry<T>> {
    if m == [] then [e]
    else if m[0].key == e.key then m
    else if Less(e.key, m[0].key) then [e] + m
    else [m[0]] + Insert(m[1..], e)
  }

  lemma {:induction false} InsertMembers<T>(m: seq<Entry<T>>, e: Entry<T>, x: Entry<T>)
    requires x in Insert(m, e)
    ensures x in m || x == e
  {
    if m != [] && m[0].key != e.key && !Less(e.key, m[0].key) && x != m[0] {
      assert x in Insert(m[1..], e);
      InsertMembers(m[1..], e, x);
    }
  }

  lemma {:induction false} InsertOrdered<T>(m: seq<Entry<T>>, e: Entry<T>)
    requires Ordered(m)
    ensures Ordered(Insert(m, e))
  {
    if m == [] || m[0].key == e.key {
    } else if Less(e.key, m[0].key) {
      forall j | 0 <= j < |m| ensures Less(e.key, m[j].key) {
        if j > 0 {
          LessTransitive(e.key, m[0].key, m[j].key);
        }
      }
    } else {
      LessTotal(e.key, m[0].key);
      InsertOrdered(m[1..], e);
      var r := Insert(m[1..], e);
      forall j | 0 <= j < |r| ensures Less(m[0].key, r[j].key) {
        InsertMembers(m[1..], e, r[j]);
      }
    }
  }

  /** A key above all others goes last. */
  lemma {:induction false} InsertLast<T>(m: seq<Entry<T>>, e: Entry<T>)
    requires forall i :: 0 <= i < |m| ==> Less(m[i].key, e.key)
    ensures Insert(m, e) == m + [e]
  {
    if m != [] {
      LessTotal(m[0].key, e.key);
      LessTotal(e.key, e.key);
      InsertLast(m[1..], e);
      assert m == [m[0]] + m[1..];
    }
  }
}

/** HTTP requests: serialization and parsing. */
module Http {
  import opened HttpText

  const LINE_END := "\r\n"
  const SPACES := " \t\n\U{0B}\U{0C}\r"

  datatype Verb = Get | Head | Post | Put | Delete | Trace | Options | Connect | Patch

  datatype Version = Http10 | Http11 | Http20

  function VerbName(m: Verb): string {
    match m
    case Get => "GET"
    case Head => "HEAD"
    case Post => "POST"
    case Put => "PUT"
    case Delete => "DELETE"
    case Trace => "TRACE"
    case Options => "OPTIONS"
    case Connect => "CONNECT"
    case Patch => "PATCH"
  }

  /** The map lookup: a name that is not there gets the first verb. */
  function VerbOf(s: string): Verb {
    if s == "HEAD" then Head else if s == "POST" then Post else if s == "PUT" then Put
    else if s == "DELETE" then Delete else if s == "TRACE" then Trace else if s == "OPTIONS" then Options
    else if s == "CONNECT" then Connect else if s == "PATCH" then Patch else Get
  }

  function VersionName(v: Version): string {
    match v
    case Http10 => "HTTP/1.0"
    case Http11 => "HTTP/1.1"
    case Http20 => "HTTP/2.0"
  }

  function VersionOf(s: string): Version {
    if s == "HTTP/1.1" then Http11 else if s == "HTTP/2.0" then Http20 else Http10
  }

  lemma VerbNamed(m: Verb)
    ensures VerbOf(VerbName(m)) == m && IsWord(VerbName(m))
  {
    match m
    case Get =>
    case Head =>
    case Post =>
    case Put =>
    case Delete =>
    case Trace =>
    case Options =>
    case Connect =>
    case Patch =>
  }

  lemma VersionNamed(v: Version)
    ensures VersionOf(VersionName(v)) == v && IsWord(VersionName(v))
  {
    match v
    case Http10 =>
    case Http11 =>
    case Http20 =>
  }

  /** Fit to stand between the spaces of a first line. */
  predicate IsWord(s: string) { s != "" && Free(s, " \r\n") }

  // ---------- Headers ----------

  datatype Header = Header(key: string, value: string)

  function Squeezed(s: string): string {
    if s == "" then "" else (if s[0] in SPACES then "" else [s[0]]) + Squeezed(s[1..])
  }

  /** Key up to the first colon; value the rest of the line with every space removed. */
  function ParseHeader(s: string): Header {
    var k := Cut(s, ":");
    var rest := if k < |s| then s[k + 1..] else "";
    Header(s[..k], Squeezed(rest[..Cut(rest, "\n")]))
  }

  function HeaderLine(h: Header): string { h.key + ": " + h.value }

  function HeaderText(h: Header): string { HeaderLine(h) + LINE_END }

  lemma {:induction false} SqueezedIsFree(s: string)
    ensures Free(Squeezed(s), SPACES)
  {
    if s != "" {
      SqueezedIsFree(s[1..]);
    }
  }

  lemma {:induction false} SqueezedId(s: string)
    requires Free(s, SPACES)
    ensures Squeezed(s) == s
  {
    if s != "" {
      assert s[0] !in SPACES;
      SqueezedId(s[1..]);
      assert s == [s[0]] + s[1..];
    }
  }

  lemma {:induction false} SqueezedAppend(a: string, b: string)
    ensures Squeezed(a + b) == Squeezed(a) + Squeezed(b)
  {
    if a == "" {
      assert a + b == b;
    } else {
      assert (a + b)[1..] == a[1..] + b;
      SqueezedAppend(a[1..], b);
    }
  }

  predicate CleanHeader(h: Header) { ':' !in h.key && Free(h.value, SPACES) }

  /** A parsed header is always clean. */
  lemma ParsedHeaderClean(s: string)
    ensures CleanHeader(ParseHeader(s))
  {
    var k := Cut(s, ":");
    assert forall i :: 0 <= i < k ==> s[..k][i] !in ":";
    var rest := if k < |s| then s[k + 1..] else "";
    SqueezedIsFree(rest[..Cut(rest, "\n")]);
  }

  /** The text of a clean header, with anything blank up to its line's end, gives the header back. */
  lemma CleanHeaderParses(h: Header, tail: string)
    requires CleanHeader(h) && (tail == "" || tail == LINE_END)
    ensures ParseHeader(HeaderLine(h) + tail) == h
  {
    hide Squeezed, Cut;
    var s, k := HeaderLine(h) + tail, |h.key|;
    assert s[..k] == h.key && s[k] == ':';
    CutUnique(s, ":", k);
    var rest := s[k + 1..];
    assert rest == " " + h.value + tail;
    ValueParses(h.value, tail);
  }

  lemma ValueParses(value: string, tail: string)
    requires Free(value, SPACES) && (tail == "" || tail == LINE_END)
    ensures var rest := " " + value + tail; Squeezed(rest[..Cut(rest, "\n")]) == value
  {
    hide Squeezed, Cut;
    var blank := if tail == "" then "" else "\r";
    var line := " " + value + blank;
    var rest := " " + value + tail;
    assert rest[..|line|] == line;
    forall i | 0 <= i < |line| ensures line[i] !in "\n" {
      if 1 <= i < 1 + |value| {
        assert line[i] == value[i - 1];
        assert '\n' in SPACES;
      }
    }
    CutUnique(rest, "\n", |line|);
    SqueezedAppend(" " + value, blank);
    SqueezedAppend(" ", value);
    SqueezedId(value);
    SqueezedBlank(" ");
    SqueezedBlank(blank);
  }

  lemma SqueezedBlank(s: string)
    requires s == "" || s == " " || s == "\r"
    ensures Squeezed(s) == ""
  {
    if s != "" {
      assert s[1..] == "";
    }
  }

  /** Parsing a header's own text gives it back exactly when it is clean. */
  lemma HeaderRoundTrip(h: Header)
    ensures ParseHeader(HeaderText(h)) == h <==> CleanHeader(h)
  {
    ParsedHeaderClean(HeaderText(h));
    if CleanHeader(h) {
      CleanHeaderParses(h, LINE_END);
    }
  }

  // ---------- Requests ----------

  datatype Request = Request(verb: Verb, resource: string, version: Version, headers: seq<Entry<Header>>)

  datatype Result = Ok(request: Request) | NoLine | BadFirstLine

  function FirstLine(r: Request): string { VerbName(r.verb) + " " + r.resource + " " + VersionName(r.version) }

  function HeadersText(hs: seq<Entry<Header>>): string {
    if hs == [] then "" else HeaderText(hs[0].value) + HeadersText(hs[1..])
  }

  function Text(r: Request): string { FirstLine(r) + LINE_END + HeadersText(r.headers) + LINE_END }

  function Collected(lines: seq<string>, m: seq<Entry<Header>>): seq<Entry<Header>> {
    if lines == [] then m
    else Collected(lines[1..], Insert(m, Entry(ParseHeader(lines[0]).key, ParseHeader(lines[0]))))
  }

  function Parsed(s: string): Result {
    var lines := Tokens(s, LINE_END);
    if lines == [] then NoLine
    else
      var segments := Tokens(lines[0], " ");
      if |segments| != 3 then BadFirstLine
      else Ok(Request(VerbOf(segments[0]), segments[1], VersionOf(segments[2]), Collected(lines[1..], [])))
  }

  method Serialize(r: Request) returns (text: string)
    ensures text == Text(r)
  {
    text := VerbName(r.verb) + " " + r.resource + " " + VersionName(r.version) + LINE_END;
    var i := 0;
    while i < |r.headers|
      invariant 0 <= i <= |r.headers|
      invariant text + HeadersText(r.headers[i..]) == FirstLine(r) + LINE_END + HeadersText(r.headers)
    {
      assert r.headers[i..][1..] == r.headers[i + 1..];
      text := text + HeaderText(r.headers[i].value);
      i := i + 1;
    }
    assert text == FirstLine(r) + LINE_END + HeadersText(r.headers);
    text := text + LINE_END;
  }

  method Parse(s: string) returns (r: Result)
    ensures r == Parsed(s)
  {
    hide VerbOf, VersionOf, ParseHeader, Insert, Tokens;
    var lines := Split(s, LINE_END);
    if |lines| < 1 {
      return NoLine;
    }
    var segments := Split(lines[0], " ");
    if |segments| != 3 {
      return BadFirstLine;
    }
    var headers: seq<Entry<Header>> := [];
    var i := 1;
    TokensAreWords(s, LINE_END);
    while i < |lines|
      invariant 1 <= i <= |lines|
      invariant Collected(lines[i..], headers) == Collected(lines[1..], [])
    {
      assert lines[i..][1..] == lines[i + 1..];
      if |lines[i]| > 0 {
        var h := ParseHeader(lines[i]);
        headers := Insert(headers, Entry(h.key, h));
      }
      i := i + 1;
    }
    r := Ok(Request(VerbOf(segments[0]), segments[1], VersionOf(segments[2]), headers));
  }

  /** What a request has to be like to survive the wire. */
  predicate CleanEntry(e: Entry<Header>) {
    e.value.key == e.key && Free(e.key, LINE_END) && CleanHeader(e.value)
  }

  predicate Clean(r: Request) {
    && IsWord(r.resource)
    && forall i :: 0 <= i < |r.headers| ==> CleanEntry(r.headers[i])
  }

  // Everything parsed is clean.

  lemma {:induction false} CollectedClean(lines: seq<string>, m: seq<Entry<Header>>)
    requires forall i :: 0 <= i < |lines| ==> Free(lines[i], LINE_END)
    requires forall i :: 0 <= i < |m| ==> CleanEntry(m[i])
    requires Ordered(m)
    ensures forall i :: 0 <= i < |Collected(lines, m)| ==> CleanEntry(Collected(lines, m)[i])
    ensures Ordered(Collected(lines, m))
    decreases |lines|
  {
    if lines != [] {
      var h := ParseHeader(lines[0]);
      var e := Entry(h.key, h);
      ParsedHeaderClean(lines[0]);
      assert Free(h.key, LINE_END) by {
        forall i | 0 <= i < |h.key| ensures h.key[i] !in LINE_END { assert h.key[i] == lines[0][i]; }
      }
      InsertOrdered(m, e);
      var m' := Insert(m, e);
      forall i | 0 <= i < |m'| ensures CleanEntry(m'[i]) { InsertMembers(m, e, m'[i]); }
      CollectedClean(lines[1..], m');
    }
  }

  lemma ParsedClean(s: string)
    ensures Parsed(s).Ok? ==> Clean(Parsed(s).request) && Ordered(Parsed(s).request.headers)
  {
    if Parsed(s).Ok? {
      hide CleanEntry, Collected, Tokens;
      var lines := Tokens(s, LINE_END);
      TokensAreWords(s, LINE_END);
      TokensAreWords(lines[0], " ");
      TokensKeepFree(lines[0], " ", LINE_END);
      FreeBoth(Tokens(lines[0], " ")[1]);
      CollectedClean(lines[1..], []);
    }
  }

  lemma FreeBoth(s: string)
    ensures Free(s, " ") && Free(s, LINE_END) <==> Free(s, " \r\n")
  {
    if Free(s, " ") && Free(s, LINE_END) {
      forall i | 0 <= i < |s| ensures s[i] !in " \r\n" { assert s[i] !in " " && s[i] !in LINE_END; }
    }
    if Free(s, " \r\n") {
      forall i | 0 <= i < |s| ensures s[i] !in " " && s[i] !in LINE_END { assert s[i] !in " \r\n"; }
    }
  }

  // Everything clean is parsed back.

  /** The two characters of a line end separate as one. */
  lemma LinesSeparate(a: string, b: string)
    ensures Tokens(a + LINE_END + b, LINE_END) == Tokens(a, LINE_END) + Tokens(b, LINE_END)
  {
    hide Tokens;
    assert a + LINE_END + b == a + ['\r'] + (['\n'] + b);
    TokensSeparate(a, '\r', ['\n'] + b, LINE_END);
    assert ['\n'] + b == "" + ['\n'] + b;
    TokensSeparate("", '\n', b, LINE_END);
    TokensOfWord("", LINE_END);
  }

  function Lines(hs: seq<Entry<Header>>): seq<string> {
    if hs == [] then [] else [HeaderLine(hs[0].value)] + Lines(hs[1..])
  }

  lemma HeaderIsOneLine(h: Header)
    requires Free(h.key, LINE_END) && Free(h.value, SPACES)
    ensures Free(HeaderLine(h), LINE_END) && HeaderLine(h) != ""
  {
    var s := HeaderLine(h);
    forall i | 0 <= i < |s| ensures s[i] !in LINE_END {
      if i < |h.key| {
        assert s[i] == h.key[i];
      } else if i >= |h.key| + 2 {
        assert s[i] == h.value[i - |h.key| - 2];
        assert '\r' in SPACES && '\n' in SPACES;
      }
    }
  }

  lemma {:induction false} HeadersTokens(hs: seq<Entry<Header>>)
    requires forall i :: 0 <= i < |hs| ==> CleanEntry(hs[i])
    ensures Tokens(HeadersText(hs) + LINE_END, LINE_END) == Lines(hs)
  {
    hide Tokens;
    if hs == [] {
      assert "" + LINE_END == "" + LINE_END + "";
      LinesSeparate("", "");
      TokensOfWord("", LINE_END);
    } else {
      var h := hs[0].value;
      HeaderIsOneLine(h);
      assert HeadersText(hs) + LINE_END == HeaderLine(h) + LINE_END + (HeadersText(hs[1..]) + LINE_END);
      LinesSeparate(HeaderLine(h), HeadersText(hs[1..]) + LINE_END);
      TokensOfWord(HeaderLine(h), LINE_END);
      HeadersTokens(hs[1..]);
    }
  }

  lemma {:induction false} LinesCollected(hs: seq<Entry<Header>>, m: seq<Entry<Header>>)
    requires forall i :: 0 <= i < |hs| ==> CleanEntry(hs[i])
    requires Ordered(m + hs)
    ensures Collected(Lines(hs), m) == m + hs
    decreases |hs|
  {
    if hs != [] {
      var e := hs[0];
      assert CleanEntry(e);
      CleanHeaderParses(e.value, "");
      assert HeaderLine(e.value) + "" == HeaderLine(e.value);
      forall i | 0 <= i < |m| ensures Less(m[i].key, e.key) {
        assert (m + hs)[i] == m[i] && (m + hs)[|m|] == e;
      }
      InsertLast(m, e);
      assert (m + [e]) + hs[1..] == m + hs;
      assert Lines(hs)[1..] == Lines(hs[1..]);
      LinesCollected(hs[1..], m + [e]);
    }
  }

  lemma FirstLineSegments(r: Request)
    requires IsWord(r.resource)
    ensures Tokens(FirstLine(r), " ") == [VerbName(r.verb), r.resource, VersionName(r.version)]
    ensures Free(FirstLine(r), LINE_END)
  {
    var m, v := VerbName(r.verb), VersionName(r.version);
    VerbNamed(r.verb);
    VersionNamed(r.version);
    hide VerbName, VersionName, VerbOf, VersionOf;
    ThreeWords(m, r.resource, v);
  }

  lemma ThreeWords(a: string, b: string, c: string)
    requires IsWord(a) && IsWord(b) && IsWord(c)
    ensures Tokens(a + " " + b + " " + c, " ") == [a, b, c]
    ensures Free(a + " " + b + " " + c, LINE_END)
  {
    hide Tokens;
    FreeBoth(a);
    FreeBoth(b);
    FreeBoth(c);
    var sp := ' ';
    assert a + " " + b + " " + c == a + [sp] + (b + [sp] + c);
    TokensSeparate(a, sp, b + [sp] + c, " ");
    TokensSeparate(b, sp, c, " ");
    TokensOfWord(a, " ");
    TokensOfWord(b, " ");
    TokensOfWord(c, " ");
  }

  lemma CleanParses(r: Request)
    requires Clean(r) && Ordered(r.headers)
    ensures Parsed(Text(r)) == Ok(r)
  {
    hide CleanEntry, Collected, Tokens, HeadersText, Ordered, VerbName, VersionName, VerbOf, VersionOf;
    FirstLineSegments(r);
    VerbNamed(r.verb);
    VersionNamed(r.version);
    var rest := HeadersText(r.headers) + LINE_END;
    assert Text(r) == FirstLine(r) + LINE_END + rest;
    LinesSeparate(FirstLine(r), rest);
    TokensOfWord(FirstLine(r), LINE_END);
    HeadersTokens(r.headers);
    assert [] + r.headers == r.headers;
    LinesCollected(r.headers, []);
    assert Tokens(Text(r), LINE_END)[1..] == Lines(r.headers);
  }

  /**
   * Parsing what was serialized gives back the same verb, resource, version and header map exactly
   * when the resource is non-empty without space, CR or LF, every key has no colon, CR or LF and is
   * the key of its own header, and no value has white space.
   */
  lemma RoundTrip(r: Request)
    requires Ordered(r.headers)
    ensures Parsed(Text(r)) == Ok(r) <==> Clean(r)
  {
    if Clean(r) {
      CleanParses(r);
    }
    ParsedClean(Text(r));
  }

  /** Whatever text was accepted, its request survives being sent on. */
  lemma ReparseIsStable(s: string)
    requires Parsed(s).Ok?
    ensures Parsed(Text(Parsed(s).request)) == Parsed(s)
  {
    ParsedClean(s);
    CleanParses(Parsed(s).request);
  }

  // ---------- On the wire ----------

  /** What each verb and version is written as. */
  lemma WireNames()
    ensures VerbName(Get) == "GET" && VerbName(Head) == "HEAD" && VerbName(Post) == "POST" && VerbName(Put) == "PUT"
    ensures VerbName(Delete) == "DELETE" && VerbName(Trace) == "TRACE" && VerbName(Options) == "OPTIONS"
    ensures VerbName(Connect) == "CONNECT" && VerbName(Patch) == "PATCH"
    ensures VersionName(Http10) == "HTTP/1.0" && VersionName(Http11) == "HTTP/1.1" && VersionName(Http20) == "HTTP/2.0"
  {}

  /** The characters isspace accepts in the C locale. */
  lemma SpacesAre(c: char)
    ensures c in SPACES <==> c == ' ' || '\t' <= c <= '\r'
  {}

  /** A request with one header, character by character. */
  lemma ExampleText(resource: string, key: string, value: string)
    ensures Text(Request(Post, resource, Http11, [Entry(key, Header(key, value))])) ==
            "POST " + resource + " HTTP/1.1\r\n" + key + ": " + value + "\r\n\r\n"
  {
    var hs := [Entry(key, Header(key, value))];
    assert hs[1..] == [] && HeadersText(hs) == HeaderText(Header(key, value)) + "";
  }

  /** Key and value of a line: up to the first colon, and after it up to the line's end without white space. */
  lemma HeaderOfLine(key: string, value: string, tail: string)
    requires ':' !in key && '\n' !in value && (tail == "" || tail[0] == '\n')
    ensures ParseHeader(key + ":" + value + tail) == Header(key, Squeezed(value))
  {
    hide Squeezed, Cut;
    var s, k := key + ":" + value + tail, |key|;
    assert s[..k] == key && s[k] == ':' && s[k + 1..] == value + tail;
    CutUnique(s, ":", k);
    var rest := value + tail;
    assert rest[..|value|] == value;
    CutUnique(rest, "\n", |value|);
  }

  /** A line without a colon is all key. */
  lemma HeaderWithoutColon(line: string)
    requires ':' !in line
    ensures ParseHeader(line) == Header(line, "")
  {
    hide Squeezed, Cut;
    assert line[..|line|] == line;
    CutUnique(line, ":", |line|);
    CutUnique("", "\n", 0);
    SqueezedBlank("");
  }

  lemma {:induction false} NoTokensExactly(s: string, delim: string)
    ensures Tokens(s, delim) == [] <==> forall i :: 0 <= i < |s| ==> s[i] in delim
    decreases |s|
  {
    if s != "" {
      if s[0] in delim {
        assert s == "" + [s[0]] + s[1..];
        TokensSeparate("", s[0], s[1..], delim);
        TokensOfWord("", delim);
        NoTokensExactly(s[1..], delim);
        assert forall i :: 0 <= i < |s[1..]| ==> s[1..][i] == s[i + 1];
        assert forall i :: 0 < i < |s| ==> s[i] == s[1..][i - 1];
      } else {
        var k := Cut(s, delim);
        TokensUnfold(s, delim, k);
      }
    }
  }

  /** A text has no first line exactly when it is nothing but line ends. */
  lemma NoLineExactly(s: string)
    ensures Parsed(s) == NoLine <==> forall i :: 0 <= i < |s| ==> s[i] in LINE_END
  {
    hide Tokens;
    NoTokensExactly(s, LINE_END);
  }

  // ---------- Repeated headers ----------

  /** The line is the first with its key. */
  predicate IsFirst(lines: seq<string>, i: nat)
    requires i < |lines|
  {
    forall j :: 0 <= j < i ==> ParseHeader(lines[j]).key != ParseHeader(lines[i]).key
  }

  lemma {:induction false} InsertKeeps<T>(m: seq<Entry<T>>, e: Entry<T>, x: Entry<T>)
    requires x in m
    ensures x in Insert(m, e)
  {
    if m[0].key != e.key && !Less(e.key, m[0].key) && x != m[0] {
      assert x in m[1..];
      InsertKeeps(m[1..], e, x);
    }
  }

  lemma {:induction false} InsertPuts<T>(m: seq<Entry<T>>, e: Entry<T>)
    requires Ordered(m)
    ensures e in Insert(m, e) || exists x :: x in m && x.key == e.key
    ensures (exists x :: x in m && x.key == e.key) ==> Insert(m, e) == m
  {
    if m != [] && m[0].key != e.key {
      if Less(e.key, m[0].key) {
        forall x | x in m ensures x.key != e.key {
          var i :| 0 <= i < |m| && m[i] == x;
          LessTotal(e.key, m[0].key);
          if i > 0 {
            LessTotal(m[0].key, e.key);
            assert Less(m[0].key, m[i].key);
          }
        }
      } else {
        InsertPuts(m[1..], e);
        assert m == [m[0]] + m[1..];
      }
    } else if m != [] {
      assert m[0] in m;
    }
  }

  ghost predicate HasKey<T>(m: seq<Entry<T>>, key: string) { exists x :: x in m && x.key == key }

  function EntryOf(line: string): Entry<Header> { Entry(ParseHeader(line).key, ParseHeader(line)) }

  /** Inserting adds the entry exactly when its key is new, and loses nothing. */
  lemma InsertExactly<T>(m: seq<Entry<T>>, e: Entry<T>, x: Entry<T>)
    requires Ordered(m)
    ensures x in Insert(m, e) <==> x in m || (x == e && !HasKey(m, e.key))
    ensures Ordered(Insert(m, e))
  {
    InsertOrdered(m, e);
    InsertPuts(m, e);
    if x in m {
      InsertKeeps(m, e, x);
    }
    if x in Insert(m, e) {
      InsertMembers(m, e, x);
    }
  }

  lemma KeysInserted<T>(m: seq<Entry<T>>, e: Entry<T>, key: string)
    requires Ordered(m)
    ensures HasKey(Insert(m, e), key) <==> HasKey(m, key) || key == e.key
  {
    if HasKey(Insert(m, e), key) {
      var x :| x in Insert(m, e) && x.key == key;
      InsertExactly(m, e, x);
    }
    if HasKey(m, key) {
      var x :| x in m && x.key == key;
      InsertExactly(m, e, x);
    }
    if key == e.key {
      InsertExactly(m, e, e);
      InsertPuts(m, e);
      if x :| x in m && x.key == key {
        InsertExactly(m, e, x);
      } else {
        assert e in Insert(m, e);
      }
    }
  }

  /** The entry comes from the first line with its key, and m has none for it. */
  ghost predicate FromLine(lines: seq<string>, m: seq<Entry<Header>>, x: Entry<Header>) {
    !HasKey(m, x.key) && exists i :: 0 <= i < |lines| && x == EntryOf(lines[i]) && IsFirst(lines, i)
  }

  lemma FromLineUnfolds(lines: seq<string>, m: seq<Entry<Header>>, x: Entry<Header>)
    requires lines != [] && Ordered(m)
    ensures var e := EntryOf(lines[0]);
            FromLine(lines, m, x) <==> (x == e && !HasKey(m, e.key)) || FromLine(lines[1..], Insert(m, e), x)
  {
    hide ParseHeader, HasKey;
    var e, rest := EntryOf(lines[0]), lines[1..];
    KeysInserted(m, e, x.key);
    if FromLine(lines, m, x) {
      var i :| 0 <= i < |lines| && x == EntryOf(lines[i]) && IsFirst(lines, i);
      if i > 0 {
        assert rest[i - 1] == lines[i] && ParseHeader(lines[0]).key != ParseHeader(lines[i]).key;
        assert IsFirst(rest, i - 1) by {
          forall j | 0 <= j < i - 1 ensures ParseHeader(rest[j]).key != ParseHeader(rest[i - 1]).key {
            assert rest[j] == lines[j + 1];
          }
        }
      }
    }
    if x == e && !HasKey(m, e.key) {
      assert IsFirst(lines, 0);
    }
    if FromLine(rest, Insert(m, e), x) {
      var i :| 0 <= i < |rest| && x == EntryOf(rest[i]) && IsFirst(rest, i);
      assert lines[i + 1] == rest[i];
      assert IsFirst(lines, i + 1) by {
        forall j | 0 <= j < i + 1 ensures ParseHeader(lines[j]).key != ParseHeader(lines[i + 1]).key {
          if j > 0 {
            assert lines[j] == rest[j - 1];
          }
        }
      }
    }
  }

  lemma {:induction false} CollectedExactly(lines: seq<string>, m: seq<Entry<Header>>, x: Entry<Header>)
    requires Ordered(m)
    ensures x in Collected(lines, m) <==> x in m || FromLine(lines, m, x)
    decreases |lines|
  {
    hide ParseHeader, HasKey, Insert;
    if lines != [] {
      var e := EntryOf(lines[0]);
      InsertExactly(m, e, x);
      FromLineUnfolds(lines, m, x);
      CollectedExactly(lines[1..], Insert(m, e), x);
    }
  }

  /** The headers of a parsed request are, for each key, the first line with that key. */
  lemma FirstHeaderWins(s: string, x: Entry<Header>)
    requires Parsed(s).Ok?
    ensures var lines := Tokens(s, LINE_END)[1..];
            x in Parsed(s).request.headers <==>
            exists i :: 0 <= i < |lines| && x == EntryOf(lines[i]) && IsFirst(lines, i)
  {
    hide Tokens, Collected, ParseHeader;
    CollectedExactly(Tokens(s, LINE_END)[1..], [], x);
  }
}
