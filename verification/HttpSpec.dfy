/**
  What the request parser `analasy` of inc/http_types.h computes: a chain of strtok calls
  with changing delimiter sets over a text. Parsing undoes printing.
 */
module HttpSpec {

  const BUFSIZE := 4096

  const NUL := '\0'
  const SPACE: set<char> := {' '}
  const COLON: set<char> := {':'}
  const CRLF: set<char> := {'\r', '\n'}

  // ----- strtok on the remaining text -----

  datatype Tok = NoTok | Tok(token: string, rest: string)

  function SkipDelims(t: string, d: set<char>): string {
    if t != [] && t[0] in d then SkipDelims(t[1..], d) else t
  }

  /** The longest prefix without delimiters. */
  function Prefix(t: string, d: set<char>): (p: string)
    ensures p <= t && (|p| < |t| ==> t[|p|] in d)
    ensures forall i :: 0 <= i < |p| ==> p[i] !in d
  {
    if t == [] || t[0] in d then [] else [t[0]] + Prefix(t[1..], d)
  }

  /** A token and the text after it; the delimiter that ends it is consumed. */
  function Strtok(t: string, d: set<char>): (r: Tok)
    ensures r.Tok? ==> r.token != [] && |r.token| + |r.rest| + (if r.rest == [] then 0 else 1) <= |t|
  {
    var u := SkipDelims(t, d);
    SkipShrinks(t, d);
    if u == [] then NoTok
    else
      var p := Prefix(u, d);
      Tok(p, if |p| < |u| then u[|p| + 1..] else [])
  }

  lemma {:induction false} SkipShrinks(t: string, d: set<char>)
    ensures |SkipDelims(t, d)| <= |t| && t[|t| - |SkipDelims(t, d)|..] == SkipDelims(t, d)
    ensures SkipDelims(t, d) != [] ==> SkipDelims(t, d)[0] !in d
    ensures forall i :: 0 <= i < |t| - |SkipDelims(t, d)| ==> t[i] in d
  {
    if t != [] && t[0] in d {
      SkipShrinks(t[1..], d);
      forall i | 0 <= i < |t| - |SkipDelims(t, d)| ensures t[i] in d {
        assert i > 0 ==> t[i] == t[1..][i - 1];
      }
    }
  }

  predicate Free(t: string, d: set<char>) {
    forall i :: 0 <= i < |t| ==> t[i] !in d
  }

  predicate AllIn(t: string, d: set<char>) {
    forall i :: 0 <= i < |t| ==> t[i] in d
  }

  // ----- what analasy computes -----

  datatype Header = Header(name: string, value: string)

  /** NULL is dereferenced, the parser returns NULL, or it returns a request. */
  datatype Outcome =
    | Crash
    | Reject
    | Accept(method_: string, url: string, version: string, headers: seq<Header>)

  datatype HeaderOutcome = HeaderCrash | Headers(list: seq<Header>)

  /** The break condition: strncmp(p + 1, "\r\n", 2) == 0. */
  predicate EndsHeaders(token: string) {
    |token| >= 3 && token[1] == '\r' && token[2] == '\n'
  }

  /** One iteration of the header loop: NULL is dereferenced, the loop ends, or a
      header is stored. */
  datatype Step = StepCrash | StepEnd | StepHeader(h: Header, rest: string)

  /** A stored header costs at least three characters, four unless it is the last. */
  function HeaderStep(t: string): (r: Step)
    ensures r.StepHeader? ==> |r.rest| + (if r.rest == [] then 3 else 4) <= |t|
    ensures r.StepHeader? ==> |r.h.name| < |t| && |r.h.value| < |t|
  {
    match Strtok(t, COLON)
    case NoTok => StepCrash
    case Tok(p, rest) =>
      if EndsHeaders(p) then StepEnd
      else
        match Strtok(rest, CRLF)
        case NoTok => StepCrash
        case Tok(q, rest') => StepHeader(Header(p[1..], q[1..]), rest')
  }

  function ParseHeaders(t: string): HeaderOutcome
    decreases |t|
  {
    match HeaderStep(t)
    case StepCrash => HeaderCrash
    case StepEnd => Headers([])
    case StepHeader(h, rest) => Prepend(h, ParseHeaders(rest))
  }

  function Prepend(h: Header, o: HeaderOutcome): HeaderOutcome {
    if o.HeaderCrash? then o else Headers([h] + o.list)
  }

  /** strstr finds the four characters at position `i`. */
  predicate BlankLineAt(t: string, i: int) {
    0 <= i <= |t| - 4 && t[i] == '\r' && t[i + 1] == '\n' && t[i + 2] == '\r' && t[i + 3] == '\n'
  }

  predicate HasBlankLine(t: string) {
    exists i :: 0 <= i < |t| && BlankLineAt(t, i)
  }

  datatype LineOutcome = LineCrash | RequestLine(method_: string, url: string, version: string, rest: string)

  function ParseLine(t: string): (r: LineOutcome)
    ensures r.RequestLine? ==> |r.method_| <= |t| && |r.url| <= |t| && |r.version| <= |t| && |r.rest| <= |t|
  {
    match Strtok(t, SPACE)
    case NoTok => LineCrash
    case Tok(m, rest) =>
      match Strtok(rest, SPACE)
      case NoTok => LineCrash
      case Tok(u, rest) =>
        match Strtok(rest, CRLF)
        case NoTok => LineCrash
        case Tok(v, rest) => RequestLine(m, u, v, rest)
  }

  function Parse(t: string): Outcome {
    if HasBlankLine(t) then ParseTokens(t) else Reject
  }

  function ParseTokens(t: string): Outcome {
    match ParseLine(t)
    case LineCrash => Crash
    case RequestLine(m, u, v, rest) =>
      match ParseHeaders(rest)
      case HeaderCrash => Crash
      case Headers(list) => Accept(m, u, v, list)
  }

  // ----- printing -----

  /** A header line: the name, a colon, and the field text, of which the parser drops
      the first character. */
  datatype Line = Line(name: string, field: string)

  function PrintLines(lines: seq<Line>): string {
    if lines == [] then ""
    else lines[0].name + ":" + lines[0].field + "\r\n" + PrintLines(lines[1..])
  }

  function Print(m: string, u: string, v: string, lines: seq<Line>, body: string): string {
    m + " " + u + " " + v + "\r\n" + PrintLines(lines) + "\r\n" + body
  }

  /** Names have no colon and do not look like the end of the headers; field texts are
      not empty and stay on one line. */
  predicate WellFormed(line: Line) {
    && Free(line.name, COLON) && !(|line.name| >= 2 && line.name[0] == '\r' && line.name[1] == '\n')
    && line.field != [] && Free(line.field, CRLF)
  }

  function Received(lines: seq<Line>): seq<Header> {
    seq(|lines|, i requires 0 <= i < |lines| => Header(lines[i].name, Tail(lines[i].field)))
  }

  function Tail(t: string): string {
    if t == [] then [] else t[1..]
  }

  lemma {:induction false} PrefixExact(p: string, r: string, d: set<char>)
    requires Free(p, d) && (r != [] ==> r[0] in d)
    ensures Prefix(p + r, d) == p
  {
    if p != [] {
      assert (p + r)[1..] == p[1..] + r;
      PrefixExact(p[1..], r, d);
      assert p == [p[0]] + p[1..];
    }
  }

  /** strtok finds a token that stands at the cursor. */
  lemma StrtokExact(t: string, p: string, c: char, r: string, d: set<char>)
    requires t == p + [c] + r && p != [] && Free(p, d) && c in d
    ensures Strtok(t, d) == Tok(p, r)
  {
    assert t == p + ([c] + r);
    PrefixExact(p, [c] + r, d);
    assert t[0] == p[0];
  }

  /** One iteration of the header loop on a printed line; the cursor starts and ends
      on a line feed. */
  lemma HeaderLine(line: Line, more: string)
    requires WellFormed(line)
    ensures ParseHeaders("\n" + line.name + ":" + line.field + "\r" + more)
            == Prepend(Header(line.name, Tail(line.field)), ParseHeaders(more))
  {
    var Line(name, field) := line;
    var t := "\n" + name + ":" + field + "\r" + more;
    var p, rest := "\n" + name, field + ['\r'] + more;
    assert t == p + [':'] + rest;
    StrtokExact(t, p, ':', rest, COLON);
    StrtokExact(rest, field, '\r', more, CRLF);
    assert p[1..] == name;
    assert |name| >= 2 ==> p[1] == name[0] && p[2] == name[1];
  }

  /** What the header loop starts on: the line feed before the first header line. */
  function HeaderText(lines: seq<Line>, body: string): string {
    "\n" + PrintLines(lines) + "\r\n" + body
  }

  lemma FirstLine(lines: seq<Line>, body: string)
    requires lines != []
    ensures HeaderText(lines, body)
            == "\n" + lines[0].name + ":" + lines[0].field + "\r" + HeaderText(lines[1..], body)
  {
    var a, more := lines[0].name + ":" + lines[0].field, PrintLines(lines[1..]);
    assert PrintLines(lines) == a + "\r\n" + more;
    assert "\n" + (a + "\r\n" + more) + "\r\n" + body == "\n" + a + "\r" + ("\n" + more + "\r\n" + body);
  }

  lemma ReceivedFirst(lines: seq<Line>)
    requires lines != []
    ensures Received(lines) == [Header(lines[0].name, Tail(lines[0].field))] + Received(lines[1..])
  {
  }

  lemma {:induction false} HeadersUndoPrint(lines: seq<Line>, body: string)
    requires forall i :: 0 <= i < |lines| ==> WellFormed(lines[i])
    ensures ParseHeaders(HeaderText(lines, body)) == Headers(Received(lines))
  {
    if lines == [] {
      assert HeaderText(lines, body) == "\n\r\n" + body;
      EndToken(body);
    } else {
      HeadersUndoPrint(lines[1..], body);
      FirstLine(lines, body);
      HeaderLine(lines[0], HeaderText(lines[1..], body));
      ReceivedFirst(lines);
    }
  }

  lemma EndToken(body: string)
    ensures ParseHeaders("\n\r\n" + body) == Headers([])
  {
    var t := "\n\r\n" + body;
    var p := Prefix(t, COLON);
    assert t[0] == '\n' && t[1] == '\r' && t[2] == '\n';
    assert |p| >= 3;
  }

  /** Parsing undoes printing, whatever the body is. */
  lemma ParseUndoesPrint(m: string, u: string, v: string, lines: seq<Line>, body: string)
    requires m != [] && Free(m, SPACE) && u != [] && Free(u, SPACE) && v != [] && Free(v, CRLF)
    requires forall i :: 0 <= i < |lines| ==> WellFormed(lines[i])
    ensures Parse(Print(m, u, v, lines, body)) == Accept(m, u, v, Received(lines))
  {
    LineUndoesPrint(m, u, v, HeaderText(lines, body));
    HeadersUndoPrint(lines, body);
    EmptyLine(m + " " + u + " " + v, lines, body);
    SplitCrLf(m + " " + u + " " + v, PrintLines(lines), body);
  }

  lemma SplitCrLf(a: string, b: string, c: string)
    ensures a + "\r\n" + b + "\r\n" + c == a + "\r" + ("\n" + b + "\r\n" + c)
  {
    assert a + "\r\n" == a + "\r" + "\n";
  }

  lemma LineUndoesPrint(m: string, u: string, v: string, rest: string)
    requires m != [] && Free(m, SPACE) && u != [] && Free(u, SPACE) && v != [] && Free(v, CRLF)
    ensures ParseLine(m + " " + u + " " + v + "\r" + rest) == RequestLine(m, u, v, rest)
  {
    var t2 := v + ['\r'] + rest;
    var t1 := u + [' '] + t2;
    var t := m + " " + u + " " + v + "\r" + rest;
    assert t == m + [' '] + t1;
    StrtokExact(t, m, ' ', t1, SPACE);
    StrtokExact(t1, u, ' ', t2, SPACE);
    StrtokExact(t2, v, '\r', rest, CRLF);
  }

  /** The header part ends with an empty line. */
  lemma {:induction false} EmptyLine(a: string, lines: seq<Line>, body: string)
    ensures HasBlankLine(a + "\r\n" + PrintLines(lines) + "\r\n" + body)
    decreases |lines|
  {
    var t := a + "\r\n" + PrintLines(lines) + "\r\n" + body;
    if lines == [] {
      assert BlankLineAt(t, |a|);
    } else {
      var a' := a + "\r\n" + lines[0].name + ":" + lines[0].field;
      EmptyLine(a', lines[1..], body);
      assert t == a' + "\r\n" + PrintLines(lines[1..]) + "\r\n" + body;
    }
  }

  /** The usual form "name: value" comes back as it was. */
  lemma ParseUndoesPrintedHeaders(m: string, u: string, v: string, hs: seq<Header>, body: string)
    requires m != [] && Free(m, SPACE) && u != [] && Free(u, SPACE) && v != [] && Free(v, CRLF)
    requires forall i :: 0 <= i < |hs| ==> Free(hs[i].name, COLON + CRLF) && Free(hs[i].value, CRLF)
    ensures Parse(Print(m, u, v, Lines(hs), body)) == Accept(m, u, v, hs)
  {
    LinesWellFormed(hs);
    ParseUndoesPrint(m, u, v, Lines(hs), body);
  }

  lemma LinesWellFormed(hs: seq<Header>)
    requires forall i :: 0 <= i < |hs| ==> Free(hs[i].name, COLON + CRLF) && Free(hs[i].value, CRLF)
    ensures Received(Lines(hs)) == hs && forall i :: 0 <= i < |hs| ==> WellFormed(Lines(hs)[i])
  {
    forall i | 0 <= i < |hs| ensures WellFormed(Lines(hs)[i]) && Received(Lines(hs))[i] == hs[i] {
      assert Lines(hs)[i].field[1..] == hs[i].value;
    }
  }

  function Lines(hs: seq<Header>): seq<Line> {
    seq(|hs|, i requires 0 <= i < |hs| => Line(hs[i].name, " " + hs[i].value))
  }

  /** A header without any text after the colon swallows the next line as its value. */
  lemma EmptyFieldSwallowsLine(name: string, next: string, more: string)
    requires WellFormed(Line(name, next))
    ensures ParseHeaders("\n" + name + ":" + "\r\n" + next + "\r" + more)
            == Prepend(Header(name, next[1..]), ParseHeaders(more))
  {
    var t := "\n" + name + ":" + "\r\n" + next + "\r" + more;
    var p, rest := "\n" + name, next + ['\r'] + more;
    assert t == p + [':'] + ("\r\n" + rest);
    StrtokExact(t, p, ':', "\r\n" + rest, COLON);
    SkipTwo(rest);
    StrtokExact(rest, next, '\r', more, CRLF);
    assert p[1..] == name;
    assert |name| >= 2 ==> p[1] == name[0] && p[2] == name[1];
  }

  lemma SkipTwo(t: string)
    ensures Strtok("\r\n" + t, CRLF) == Strtok(t, CRLF)
  {
    var n := "\n" + t;
    assert ("\r\n" + t)[1..] == n && ("\r\n" + t)[0] == '\r' && n[1..] == t && n[0] == '\n';
    assert SkipDelims("\r\n" + t, CRLF) == SkipDelims(n, CRLF) == SkipDelims(t, CRLF);
  }

  /** A header line as RFC 7230 has it, except that the field text may be empty. */
  predicate OneLine(line: Line) {
    Free(line.name, COLON + CRLF) && Free(line.field, CRLF)
  }

  predicate SomeEmpty(lines: seq<Line>) {
    exists i :: 0 <= i < |lines| && lines[i].field == []
  }

  /** How many header lines at the end of the list have an empty field text. */
  function TrailingEmpty(lines: seq<Line>): nat {
    if lines == [] || lines[|lines| - 1].field != [] then 0 else 1 + TrailingEmpty(lines[..|lines| - 1])
  }

  lemma FirstTwoLines(lines: seq<Line>, body: string)
    requires |lines| > 1 && lines[0].field == []
    ensures var next := lines[1].name + ":" + lines[1].field;
            HeaderText(lines, body) == "\n" + lines[0].name + ":" + "\r\n" + next + "\r" + HeaderText(lines[2..], body)
  {
    assert lines[1..][1..] == lines[2..];
    var a, b, c := "\n" + lines[0].name + ":", lines[1].name + ":" + lines[1].field, HeaderText(lines[2..], body);
    FirstLine(lines, body);
    FirstLine(lines[1..], body);
    assert a + [] + "\r" + ("\n" + lines[1].name + ":" + lines[1].field + "\r" + c) == a + "\r\n" + b + "\r" + c;
  }

  lemma OnlyLineEnds()
    ensures Strtok("\r\n\r\n", CRLF).NoTok?
  {
    SkipTwo("\r\n");
    SkipTwo("");
    assert "\r\n" + "\r\n" == "\r\n\r\n" && "\r\n" + "" == "\r\n";
  }

  lemma EmptyLastField(line: Line)
    requires OneLine(line) && line.field == []
    ensures ParseHeaders(HeaderText([line], "")).HeaderCrash?
  {
    var p, t := "\n" + line.name, HeaderText([line], "");
    assert t == p + [':'] + "\r\n\r\n" by { FirstLine([line], ""); }
    StrtokExact(t, p, ':', "\r\n\r\n", COLON);
    OnlyLineEnds();
    assert |line.name| >= 2 ==> p[1] == line.name[0];
  }

  /** What the header loop makes of printed lines: one with an empty field text takes the
      whole next line, less its first character, as its value, and finds NULL at the end. */
  function Swallowing(lines: seq<Line>): HeaderOutcome {
    if lines == [] then Headers([])
    else if lines[0].field != [] then Prepend(Header(lines[0].name, Tail(lines[0].field)), Swallowing(lines[1..]))
    else if |lines| == 1 then HeaderCrash
    else Prepend(Header(lines[0].name, Tail(lines[1].name + ":" + lines[1].field)), Swallowing(lines[2..]))
  }

  /** The header loop on any printed lines, with or without empty field texts. */
  lemma {:induction false} ParsePrintedHeaders(lines: seq<Line>)
    requires forall i :: 0 <= i < |lines| ==> OneLine(lines[i])
    ensures ParseHeaders(HeaderText(lines, "")) == Swallowing(lines)
    decreases |lines|
  {
    if lines == [] {
      HeadersUndoPrint(lines, "");
    } else if lines[0].field != [] {
      ParsePrintedHeaders(lines[1..]);
      FirstLine(lines, "");
      HeaderLine(lines[0], HeaderText(lines[1..], ""));
    } else if |lines| == 1 {
      EmptyLastField(lines[0]);
      assert lines == [lines[0]];
    } else {
      ParsePrintedHeaders(lines[2..]);
      FirstTwoLines(lines, "");
      EmptyFieldSwallowsLine(lines[0].name, lines[1].name + ":" + lines[1].field, HeaderText(lines[2..], ""));
    }
  }

  lemma {:induction false} TrailingFront(lines: seq<Line>)
    requires lines != []
    ensures TrailingEmpty(lines[1..]) <= |lines| - 1
    ensures TrailingEmpty(lines)
            == if TrailingEmpty(lines[1..]) == |lines| - 1 && lines[0].field == [] then |lines|
               else TrailingEmpty(lines[1..])
  {
    var n := |lines| - 1;
    if n > 0 {
      TrailingFront(lines[..n]);
      assert lines[..n][1..] == lines[1..][..n - 1];
    }
  }

  /** A header that takes the next line keeps the parity of the empty texts at the end. */
  lemma TrailingPair(lines: seq<Line>)
    requires |lines| > 1 && lines[0].field == []
    ensures TrailingEmpty(lines) == TrailingEmpty(lines[2..]) || TrailingEmpty(lines) == TrailingEmpty(lines[2..]) + 2
  {
    assert lines[1..][1..] == lines[2..];
    TrailingFront(lines);
    TrailingFront(lines[1..]);
  }

  /** All headers come back, NULL is dereferenced, or headers are lost: the number of
      empty field texts, and how many of them end the list, decide which. */
  lemma {:induction false} SwallowingSplit(lines: seq<Line>)
    ensures Swallowing(lines).HeaderCrash? <==> TrailingEmpty(lines) % 2 == 1
    ensures !SomeEmpty(lines) ==> Swallowing(lines) == Headers(Received(lines))
    ensures Swallowing(lines).Headers? ==>
              |Swallowing(lines).list| <= |lines| && (SomeEmpty(lines) ==> |Swallowing(lines).list| < |lines|)
    decreases |lines|
  {
    if lines == [] {
    } else if lines[0].field != [] {
      SwallowingSplit(lines[1..]);
      TrailingFront(lines);
      ReceivedFirst(lines);
    } else if |lines| == 1 {
      assert TrailingEmpty(lines[..0]) == 0;
    } else {
      SwallowingSplit(lines[2..]);
      TrailingPair(lines);
    }
  }

  /** The same of the header loop: an empty field text costs a header or ends in NULL. */
  lemma EmptyFieldLosesHeader(lines: seq<Line>)
    requires forall i :: 0 <= i < |lines| ==> OneLine(lines[i])
    ensures var o := ParseHeaders(HeaderText(lines, ""));
            && (o.HeaderCrash? <==> TrailingEmpty(lines) % 2 == 1)
            && (o == Headers(Received(lines)) <==> !SomeEmpty(lines))
            && (o.Headers? && SomeEmpty(lines) ==> |o.list| < |lines|)
  {
    ParsePrintedHeaders(lines);
    SwallowingSplit(lines);
  }

  /** What analasy makes of any printed request without a body. It dereferences NULL
      exactly when an odd number of empty field texts ends the header list. */
  lemma ParsePrinted(m: string, u: string, v: string, lines: seq<Line>)
    requires m != [] && Free(m, SPACE) && u != [] && Free(u, SPACE) && v != [] && Free(v, CRLF)
    requires forall i :: 0 <= i < |lines| ==> OneLine(lines[i])
    ensures var o := Parse(Print(m, u, v, lines, ""));
            && (o.Crash? <==> TrailingEmpty(lines) % 2 == 1)
            && (!o.Crash? ==> Swallowing(lines).Headers? && o == Accept(m, u, v, Swallowing(lines).list))
            && (o == Accept(m, u, v, Received(lines)) <==> !SomeEmpty(lines))
            && (o.Accept? && SomeEmpty(lines) ==> |o.headers| < |lines|)
  {
    ParsePrintedHeaders(lines);
    EmptyFieldLosesHeader(lines);
    LineUndoesPrint(m, u, v, HeaderText(lines, ""));
    EmptyLine(m + " " + u + " " + v, lines, "");
    SplitCrLf(m + " " + u + " " + v, PrintLines(lines), "");
  }

  /** Parsing undoes printing, whatever the body is, exactly when no field text is empty. */
  lemma ParseUndoesPrintIff(m: string, u: string, v: string, lines: seq<Line>)
    requires m != [] && Free(m, SPACE) && u != [] && Free(u, SPACE) && v != [] && Free(v, CRLF)
    requires forall i :: 0 <= i < |lines| ==> OneLine(lines[i])
    ensures (forall body :: Parse(Print(m, u, v, lines, body)) == Accept(m, u, v, Received(lines)))
            <==> !SomeEmpty(lines)
  {
    ParsePrinted(m, u, v, lines);
    if !SomeEmpty(lines) {
      forall body ensures Parse(Print(m, u, v, lines, body)) == Accept(m, u, v, Received(lines)) {
        ParseUndoesPrint(m, u, v, lines, body);
      }
    }
  }

  // ----- the header index -----

  /** Completed iterations of the header loop; each fills two entries of nhead. */
  function Iterations(t: string): nat
    decreases |t|
  {
    match HeaderStep(t)
    case StepHeader(_, rest) => 1 + Iterations(rest)
    case _ => 0
  }

  /** The index stays far below the capacity of nhead, even if the parse fails. */
  lemma {:induction false} IterationsBound(t: string)
    ensures 4 * Iterations(t) <= |t| + 1
    ensures |t| < BUFSIZE ==> 2 * Iterations(t) <= BUFSIZE / 2
    ensures ParseHeaders(t).Headers? ==> |ParseHeaders(t).list| == Iterations(t)
    decreases |t|
  {
    match HeaderStep(t)
    case StepHeader(_, rest) => IterationsBound(rest);
    case _ =>
  }
}
