/**
  The C code of `analasy` in inc/http_types.h: strtok with its hidden cursor over a mutable
  buffer, and the request that it fills.
 */
module HttpParse {
  import opened HttpSpec
  import opened HttpGrammar

  class Tokenizer {
    const buf: array<char>
    ghost const len: nat    // where the string ends
    var cursor: nat         // strtok's hidden state

    constructor (buf: array<char>, ghost len: nat)
      requires len < buf.Length && len < BUFSIZE && buf[len] == NUL && forall i :: 0 <= i < len ==> buf[i] != NUL
      ensures this.buf == buf && this.len == len && Valid() && Rest() == buf[..len]
    {
      this.buf := buf;
      this.len := len;
      cursor := 0;
    }

    ghost predicate Valid()
      reads this, buf
    {
      cursor <= len < buf.Length && len < BUFSIZE && buf[len] == NUL && forall i :: cursor <= i < len ==> buf[i] != NUL
    }

    ghost function Rest(): string
      requires Valid()
      reads this, buf
    {
      buf[cursor..len]
    }

    /** The first character from the cursor on that is no delimiter. */
    method Skip(d: set<char>) returns (i: nat)
      requires Valid() && NUL !in d
      ensures cursor <= i <= len && buf[i] !in d && buf[i..len] == SkipDelims(Rest(), d)
    {
      i := cursor;
      while buf[i] in d
        invariant cursor <= i <= len && SkipDelims(buf[i..len], d) == SkipDelims(Rest(), d)
        decreases len - i
      {
        assert buf[i..len][1..] == buf[i + 1..len];
        i := i + 1;
      }
    }

    /** The end of the token that starts at `i`. */
    method Scan(i: nat, d: set<char>) returns (j: nat)
      requires Valid() && cursor <= i <= len
      ensures i <= j <= len && buf[i..j] == Prefix(buf[i..len], d)
      ensures j == len || (buf[j] != NUL && buf[j] in d)
    {
      j := i;
      while buf[j] != NUL && buf[j] !in d
        invariant i <= j <= len && Free(buf[i..j], d)
        decreases len - j
      {
        j := j + 1;
      }
      assert buf[i..len] == buf[i..j] + buf[j..len];
      PrefixExact(buf[i..j], buf[j..len], d);
    }

    /** strtok(NULL, d): the token starts at `p` and now ends at a NUL at `e`; -1 stands
        for NULL. */
    method Next(d: set<char>) returns (p: int, ghost e: nat)
      requires Valid() && NUL !in d
      modifies this`cursor, buf
      ensures Valid()
      ensures p == -1 <==> Strtok(old(Rest()), d).NoTok?
      ensures p != -1 ==>
                && 0 <= p < e <= len && buf[e] == NUL && (forall i :: p <= i < e ==> buf[i] != NUL)
                && Strtok(old(Rest()), d) == Tok(buf[p..e], Rest())
    {
      var i := Skip(d);
      if buf[i] == NUL {
        cursor := i;
        return -1, 0;
      }
      var j := Scan(i, d);
      assert j < len ==> buf[i..len][j - i + 1..] == buf[j + 1..len];
      assert Strtok(Rest(), d) == Tok(buf[i..j], if j < len then buf[j + 1..len] else []);
      Cut(i, j);
      return i, j;
    }

    /** Ends the token with a NUL, unless the string ends there anyway. */
    method Cut(i: nat, j: nat)
      requires Valid() && cursor <= i <= j <= len
      modifies this`cursor, buf
      ensures Valid() && buf[j] == NUL && buf[i..j] == old(buf[i..j]) && forall k :: i <= k < j ==> buf[k] != NUL
      ensures Rest() == if j < len then old(buf[j + 1..len]) else []
    {
      if buf[j] != NUL {
        buf[j] := NUL;
        cursor := j + 1;
      } else {
        cursor := j;
      }
    }

    /** strcpy from position `p` of the buffer into an array of BUFSIZE characters, which
        the string and its NUL must fit. */
    method Copy(p: nat, ghost e: nat) returns (s: string)
      requires p <= e < buf.Length && e - p < BUFSIZE && buf[e] == NUL && forall i :: p <= i < e ==> buf[i] != NUL
      ensures s == buf[p..e]
    {
      s := [];
      var i := p;
      while buf[i] != NUL
        invariant p <= i <= e && s == buf[p..i]
        decreases e - i
      {
        s := s + [buf[i]];
        i := i + 1;
      }
    }
  }

  /** newhead */
  datatype NewHead = NewHead(header: string, value: string)

  /** http_request; the fixed-size character arrays are strings shorter than BUFSIZE. */
  class HttpRequest {
    var method_: string
    var url: string
    var version: string
    const nhead: array<NewHead>

    constructor ()
      ensures fresh(nhead) && nhead.Length == BUFSIZE
    {
      nhead := new NewHead[BUFSIZE];
    }
  }

  datatype Result = Crashed | Null | Parsed(req: HttpRequest)

  /** strstr(buf, "\r\n\r\n") != NULL */
  method FindBlankLine(buf: array<char>, ghost len: nat) returns (found: bool)
    requires len < buf.Length && buf[len] == NUL && forall i :: 0 <= i < len ==> buf[i] != NUL
    ensures found == HasBlankLine(buf[..len])
  {
    var i := 0;
    while buf[i] != NUL
      invariant i <= len && forall j :: 0 <= j < i ==> !BlankLineAt(buf[..len], j)
      decreases len - i
    {
      if buf[i] == '\r' && buf[i + 1] == '\n' && buf[i + 2] == '\r' && buf[i + 3] == '\n' {
        assert BlankLineAt(buf[..len], i);
        return true;
      }
      i := i + 1;
    }
    return false;
  }

  /** The stored headers: the k-th name in nhead[2k].header, its value in
      nhead[2k + 1].value. */
  predicate Stored(a: seq<NewHead>, hs: seq<Header>) {
    2 * |hs| <= |a| && forall k :: 0 <= k < |hs| ==> a[2 * k].header == hs[k].name && a[2 * k + 1].value == hs[k].value
  }

  lemma StoredOne(a: seq<NewHead>, hs: seq<Header>, h: Header)
    requires Stored(a, hs) && 2 * |hs| + 2 <= |a|
    ensures var i := 2 * |hs|;
            Stored(a[i := a[i].(header := h.name)][i + 1 := a[i + 1].(value := h.value)], hs + [h])
  {
  }

  /** One iteration of the header loop, storing at index `i`. */
  method HeaderIteration(tok: Tokenizer, nhead: array<NewHead>, i: nat)
    returns (crash: bool, end: bool, ghost h: Header)
    requires tok.Valid() && i + 1 < nhead.Length
    modifies tok`cursor, tok.buf, nhead
    ensures tok.Valid()
    ensures crash <==> HeaderStep(old(tok.Rest())).StepCrash?
    ensures end <==> HeaderStep(old(tok.Rest())).StepEnd?
    ensures end ==> nhead[..] == old(nhead[..])
    ensures !crash && !end ==>
              && HeaderStep(old(tok.Rest())) == StepHeader(h, tok.Rest())
              && nhead[..]
                 == old(nhead[..])[i := old(nhead[i]).(header := h.name)][i + 1 := old(nhead[i + 1]).(value := h.value)]
  {
    crash, end, h := true, false, Header("", "");
    var p; ghost var e;
    p, e := tok.Next(COLON);
    if p == -1 { return; }
    if tok.buf[p + 1] == '\r' && tok.buf[p + 2] == '\n' { return false, true, h; }
    var name := tok.Copy(p + 1, e);
    nhead[i] := nhead[i].(header := name);
    p, e := tok.Next(CRLF);
    if p == -1 { return; }
    var value := tok.Copy(p + 1, e);
    nhead[i + 1] := nhead[i + 1].(value := value);
    return false, false, Header(name, value);
  }

  /** The header loop. */
  method AnalasyHeaders(tok: Tokenizer, nhead: array<NewHead>) returns (ok: bool, ghost hs: seq<Header>)
    requires tok.Valid() && nhead.Length == BUFSIZE
    modifies tok`cursor, tok.buf, nhead
    ensures !ok <==> ParseHeaders(old(tok.Rest())).HeaderCrash?
    ensures ok ==> ParseHeaders(old(tok.Rest())) == Headers(hs) && Stored(nhead[..], hs)
  {
    var i := 0;
    hs := [];
    ghost var t := tok.Rest();
    while true
      invariant tok.Valid() && i == 2 * |hs| && Stored(nhead[..], hs)
      invariant ParseHeaders(t) == PrependAll(hs, ParseHeaders(tok.Rest()))
      invariant |hs| + Iterations(tok.Rest()) == Iterations(t)
      decreases |tok.Rest()|
    {
      IterationsBound(t);
      ghost var rest, a := tok.Rest(), nhead[..];
      var crash, end; ghost var h;
      crash, end, h := HeaderIteration(tok, nhead, i);
      if crash { return false, hs; }
      if end { break; }
      StoredOne(a, hs, h);
      PrependOne(hs, h, ParseHeaders(tok.Rest()));
      hs := hs + [h];
      i := i + 2;
    }
    ok := true;
  }

  function PrependAll(hs: seq<Header>, o: HeaderOutcome): HeaderOutcome {
    if o.HeaderCrash? then o else Headers(hs + o.list)
  }

  lemma PrependOne(hs: seq<Header>, h: Header, o: HeaderOutcome)
    ensures PrependAll(hs, Prepend(h, o)) == PrependAll(hs + [h], o)
  {
    if o.Headers? {
      assert hs + ([h] + o.list) == hs + [h] + o.list;
    }
  }

  predicate AllShort(hs: seq<Header>, n: nat) {
    forall k :: 0 <= k < |hs| ==> |hs[k].name| < n && |hs[k].value| < n
  }

  /** Every string of the result fits the character array it is copied to. */
  predicate Fits(o: Outcome) {
    o.Accept? ==>
      && |o.method_| < BUFSIZE && |o.url| < BUFSIZE && |o.version| < BUFSIZE
      && 2 * |o.headers| <= BUFSIZE / 2 && AllShort(o.headers, BUFSIZE)
  }

  lemma {:induction false} HeaderLengths(t: string, n: nat)
    requires |t| < n
    ensures ParseHeaders(t).Headers? ==> AllShort(ParseHeaders(t).list, n)
    decreases |t|
  {
    match HeaderStep(t)
    case StepHeader(h, rest) => HeaderLengths(rest, n);
    case _ =>
  }

  lemma ParseFits(t: string)
    requires |t| < BUFSIZE
    ensures Fits(Parse(t))
  {
    if ParseLine(t).RequestLine? {
      HeaderLengths(ParseLine(t).rest, BUFSIZE);
      IterationsBound(ParseLine(t).rest);
    }
  }

  /** The three strtok calls for the request line. */
  method AnalasyLine(tok: Tokenizer, req: HttpRequest) returns (ok: bool)
    requires tok.Valid()
    modifies tok`cursor, tok.buf, req
    ensures tok.Valid() && ok == ParseLine(old(tok.Rest())).RequestLine?
    ensures ok ==> ParseLine(old(tok.Rest())) == RequestLine(req.method_, req.url, req.version, tok.Rest())
  {
    var p; ghost var e;
    p, e := tok.Next(SPACE);
    if p == -1 { return false; }
    req.method_ := tok.Copy(p, e);
    p, e := tok.Next(SPACE);
    if p == -1 { return false; }
    req.url := tok.Copy(p, e);
    p, e := tok.Next(CRLF);
    if p == -1 { return false; }
    req.version := tok.Copy(p, e);
    return true;
  }

  /** The strtok chain: all of analasy after the strstr test. */
  method AnalasyTokens(tok: Tokenizer, req: HttpRequest) returns (ok: bool, ghost hs: seq<Header>)
    requires tok.Valid() && req.nhead.Length == BUFSIZE
    modifies tok`cursor, tok.buf, req, req.nhead
    ensures ParseTokens(old(tok.Rest())) == if ok then Contents(req, hs) else Crash
    ensures ok ==> Stored(req.nhead[..], hs)
  {
    hs := [];
    ok := AnalasyLine(tok, req);
    if ok {
      ok, hs := AnalasyHeaders(tok, req.nhead);
    }
  }

  /** The outcome that the fields of a request show. */
  ghost function Contents(req: HttpRequest, hs: seq<Header>): Outcome
    reads req
  {
    Accept(req.method_, req.url, req.version, hs)
  }

  /** analasy: the outcome is that of `Parse` on the original text, although strtok
      overwrites the buffer on the way. */
  method Analasy(buf: array<char>, ghost len: nat) returns (r: Result)
    requires len < buf.Length && len < BUFSIZE && buf[len] == NUL && forall i :: 0 <= i < len ==> buf[i] != NUL
    modifies buf
    ensures r.Crashed? <==> Parse(old(buf[..len])).Crash?
    ensures r.Null? <==> Parse(old(buf[..len])).Reject?
    ensures r.Null? <==> !Occurs("\r\n\r\n", old(buf[..len]))
    ensures r.Parsed? ==>
              && fresh(r.req) && fresh(r.req.nhead)
              && var o := Parse(old(buf[..len]));
                 && o.Accept? && Fits(o) && Contents(r.req, o.headers) == o && Stored(r.req.nhead[..], o.headers)
                 && RequestIn(old(buf[..len]), r.req.method_, r.req.url, r.req.version, o.headers)
  {
    ghost var t := buf[..len];
    ParseFits(t);
    RejectExact(t);
    var req := new HttpRequest();
    var found := FindBlankLine(buf, len);
    if !found { return Null; }
    var tok := new Tokenizer(buf, len);
    assert tok.Rest() == t;
    var ok; ghost var hs;
    ok, hs := AnalasyTokens(tok, req);
    if !ok { return Crashed; }
    AcceptExact(t, req.method_, req.url, req.version, hs);
    return Parsed(req);
  }
}
