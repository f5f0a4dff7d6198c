/**
  What the request parser accepts, on any text: a grammar stated without strtok, and the
  proof that the parser follows it exactly.
 */
module HttpGrammar {
  import opened HttpSpec

  /** The text is delimiters `a`, a token and either nothing more or one delimiter and the
      rest. */
  predicate Tokenized(t: string, d: set<char>, a: string, p: string, rest: string) {
    && AllIn(a, d) && p != [] && Free(p, d) && a + p <= t
    && if |a + p| == |t| then rest == [] else t[|a + p|] in d && t[|a + p| + 1..] == rest
  }

  ghost predicate TokenAt(t: string, d: set<char>, p: string, rest: string) {
    exists a :: Tokenized(t, d, a, p, rest)
  }

  lemma {:induction false} SkipExact(a: string, t: string, d: set<char>)
    requires AllIn(a, d) && (t != [] ==> t[0] !in d)
    ensures SkipDelims(a + t, d) == t
  {
    if a == [] {
      assert a + t == t;
    } else {
      assert (a + t)[1..] == a[1..] + t;
      SkipExact(a[1..], t, d);
    }
  }

  lemma TokenizedStrtok(t: string, d: set<char>, a: string, p: string, rest: string)
    requires Tokenized(t, d, a, p, rest)
    ensures Strtok(t, d) == Tok(p, rest)
  {
    var u := t[|a|..];
    var r := t[|a + p|..];
    assert t == a + u && u == p + r;
    SkipExact(a, u, d);
    PrefixExact(p, r, d);
    assert |p| < |u| ==> u[|p| + 1..] == t[|a + p| + 1..];
  }

  lemma StrtokTokenized(t: string, d: set<char>) returns (a: string)
    ensures var r := Strtok(t, d);
            if r.Tok? then Tokenized(t, d, a, r.token, r.rest) else AllIn(t, d)
  {
    var u := SkipDelims(t, d);
    SkipShrinks(t, d);
    a := t[..|t| - |u|];
    var p := Prefix(u, d);
    assert t == a + u;
    if u != [] {
      assert a + p <= t;
      assert |p| < |u| ==> u[|p|] == t[|a + p|] && u[|p| + 1..] == t[|a + p| + 1..];
    }
  }

  /** strtok returns exactly the token that stands after the leading delimiters, and NULL
      iff there is nothing but delimiters. */
  lemma StrtokExactly(t: string, d: set<char>, p: string, rest: string)
    ensures Strtok(t, d) == Tok(p, rest) <==> TokenAt(t, d, p, rest)
    ensures Strtok(t, d).NoTok? <==> AllIn(t, d)
  {
    var a0 := StrtokTokenized(t, d);
    if TokenAt(t, d, p, rest) {
      var a :| Tokenized(t, d, a, p, rest);
      TokenizedStrtok(t, d, a, p, rest);
    }
    if AllIn(t, d) {
      assert t + [] == t;
      SkipExact(t, [], d);
    }
  }

  /** The header part of a request: pairs of a token up to a colon and a token up to a line
      end, of each of which the first character is dropped, and a token that starts with the
      end of the headers. */
  ghost predicate HeadersIn(t: string, hs: seq<Header>)
    decreases |hs|
  {
    exists p, r :: TokenAt(t, {':'}, p, r) && HeadersFrom(p, r, hs)
  }

  ghost predicate HeadersFrom(p: string, r: string, hs: seq<Header>)
    decreases |hs|, 0
  {
    if hs == [] then EndsHeaders(p)
    else
      && !EndsHeaders(p) && hs[0].name == Tail(p)
      && exists q, r' :: TokenAt(r, {'\r', '\n'}, q, r') && hs[0].value == Tail(q) && HeadersIn(r', hs[1..])
  }

  /** A whole request. */
  ghost predicate RequestIn(t: string, m: string, u: string, v: string, hs: seq<Header>) {
    exists t1, t2, t3 ::
      && TokenAt(t, {' '}, m, t1) && TokenAt(t1, {' '}, u, t2) && TokenAt(t2, {'\r', '\n'}, v, t3)
      && HeadersIn(t3, hs)
  }

  predicate OccursAt(w: string, t: string, i: int) {
    0 <= i <= |t| - |w| && t[i..i + |w|] == w
  }

  /** What strstr looks for. */
  ghost predicate Occurs(w: string, t: string) {
    exists i :: OccursAt(w, t, i)
  }

  /** The header loop returns exactly the headers that the text has. */
  lemma {:induction false} HeadersExact(t: string, hs: seq<Header>)
    ensures ParseHeaders(t) == Headers(hs) <==> HeadersIn(t, hs)
    decreases |t|
  {
    HeadersSound(t);
    if HeadersIn(t, hs) { HeadersComplete(t, hs); }
  }

  lemma {:induction false} HeadersSound(t: string)
    ensures ParseHeaders(t).Headers? ==> HeadersIn(t, ParseHeaders(t).list)
    decreases |t|
  {
    if ParseHeaders(t).Headers? {
      var k := Strtok(t, COLON);
      StrtokExactly(t, COLON, k.token, k.rest);
      if !EndsHeaders(k.token) {
        var v := Strtok(k.rest, CRLF);
        StrtokExactly(k.rest, CRLF, v.token, v.rest);
        HeadersSound(v.rest);
        var hs := ParseHeaders(t).list;
        assert hs[1..] == ParseHeaders(v.rest).list;
        assert HeadersFrom(k.token, k.rest, hs);
      }
    }
  }

  lemma StepEnds(t: string, p: string, r: string)
    requires TokenAt(t, {':'}, p, r) && EndsHeaders(p)
    ensures HeaderStep(t) == StepEnd
  {
    StrtokExactly(t, COLON, p, r);
  }

  lemma StepStores(t: string, p: string, r: string, q: string, r': string)
    requires TokenAt(t, {':'}, p, r) && !EndsHeaders(p) && TokenAt(r, {'\r', '\n'}, q, r')
    ensures HeaderStep(t) == StepHeader(Header(Tail(p), Tail(q)), r')
  {
    StrtokExactly(t, COLON, p, r);
    StrtokExactly(r, CRLF, q, r');
  }

  lemma NoHeaders(t: string)
    requires HeadersIn(t, [])
    ensures HeaderStep(t) == StepEnd
  {
    var p, r :| TokenAt(t, {':'}, p, r) && HeadersFrom(p, r, []);
    StepEnds(t, p, r);
  }

  lemma FirstHeader(t: string, hs: seq<Header>) returns (rest: string)
    requires hs != [] && HeadersIn(t, hs)
    ensures HeaderStep(t) == StepHeader(hs[0], rest) && HeadersIn(rest, hs[1..])
  {
    var p, r :| TokenAt(t, {':'}, p, r) && HeadersFrom(p, r, hs);
    var q, r' :| TokenAt(r, {'\r', '\n'}, q, r') && hs[0].value == Tail(q) && HeadersIn(r', hs[1..]);
    StepStores(t, p, r, q, r');
    rest := r';
  }

  lemma PrependFirst(hs: seq<Header>)
    requires hs != []
    ensures Prepend(hs[0], Headers(hs[1..])) == Headers(hs)
  {
    assert [hs[0]] + hs[1..] == hs;
  }

  lemma {:induction false} HeadersComplete(t: string, hs: seq<Header>)
    requires HeadersIn(t, hs)
    ensures ParseHeaders(t) == Headers(hs)
    decreases |hs|
  {
    if hs == [] {
      NoHeaders(t);
    } else {
      var rest := FirstHeader(t, hs);
      HeadersComplete(rest, hs[1..]);
      PrependFirst(hs);
    }
  }

  lemma LineExact(t: string, m: string, u: string, v: string, rest: string)
    ensures ParseLine(t) == RequestLine(m, u, v, rest) <==>
            exists t1, t2 :: TokenAt(t, {' '}, m, t1) && TokenAt(t1, {' '}, u, t2) && TokenAt(t2, {'\r', '\n'}, v, rest)
  {
    if ParseLine(t) == RequestLine(m, u, v, rest) {
      var t1 := Strtok(t, SPACE).rest;
      var t2 := Strtok(t1, SPACE).rest;
      StrtokExactly(t, SPACE, m, t1);
      StrtokExactly(t1, SPACE, u, t2);
      StrtokExactly(t2, CRLF, v, rest);
    }
    forall t1, t2 | TokenAt(t, {' '}, m, t1) && TokenAt(t1, {' '}, u, t2) && TokenAt(t2, {'\r', '\n'}, v, rest)
      ensures ParseLine(t) == RequestLine(m, u, v, rest)
    {
      StrtokExactly(t, SPACE, m, t1);
      StrtokExactly(t1, SPACE, u, t2);
      StrtokExactly(t2, CRLF, v, rest);
    }
  }

  lemma BlankLineOccurs(t: string)
    ensures HasBlankLine(t) <==> Occurs("\r\n\r\n", t)
  {
    var w := "\r\n\r\n";
    if HasBlankLine(t) {
      var i :| 0 <= i < |t| && BlankLineAt(t, i);
      assert t[i..i + |w|] == w;
      assert OccursAt(w, t, i);
    }
    if Occurs(w, t) {
      var i :| OccursAt(w, t, i);
      var u := t[i..i + |w|];
      assert u[0] == t[i] && u[1] == t[i + 1] && u[2] == t[i + 2] && u[3] == t[i + 3];
      assert BlankLineAt(t, i);
    }
  }

  /** The parser rejects exactly the texts without an empty line. */
  lemma RejectExact(t: string)
    ensures Parse(t).Reject? <==> !Occurs("\r\n\r\n", t)
  {
    BlankLineOccurs(t);
  }

  /** It accepts exactly the requests of the grammar, with exactly their parts. */
  lemma AcceptExact(t: string, m: string, u: string, v: string, hs: seq<Header>)
    ensures Parse(t) == Accept(m, u, v, hs) <==> Occurs("\r\n\r\n", t) && RequestIn(t, m, u, v, hs)
  {
    BlankLineOccurs(t);
    if ParseTokens(t) == Accept(m, u, v, hs) {
      var rest := ParseLine(t).rest;
      LineExact(t, m, u, v, rest);
      HeadersExact(rest, hs);
    }
    if RequestIn(t, m, u, v, hs) {
      var t1, t2, t3 :|
        && TokenAt(t, {' '}, m, t1) && TokenAt(t1, {' '}, u, t2) && TokenAt(t2, {'\r', '\n'}, v, t3)
        && HeadersIn(t3, hs);
      LineExact(t, m, u, v, t3);
      HeadersExact(t3, hs);
    }
  }

  /** It dereferences NULL on every other text that has an empty line. */
  lemma CrashExact(t: string)
    ensures Parse(t).Crash? <==>
            Occurs("\r\n\r\n", t) && !exists m, u, v, hs :: RequestIn(t, m, u, v, hs)
  {
    RejectExact(t);
    var o := Parse(t);
    if o.Accept? {
      AcceptExact(t, o.method_, o.url, o.version, o.headers);
    }
    forall m, u, v, hs | RequestIn(t, m, u, v, hs) ensures !o.Crash? {
      AcceptExact(t, m, u, v, hs);
    }
  }
}
