/** The request parser of Server/ServerHTTP.cpp: offsets into one text, found by searching and trimming. */
module HttpData {
  import opened Basics

  const CRLF := "\r\n"
  const CRLF2 := "\r\n\r\n"

  predicate IsTrim(c: char) { c == '\r' || c == '\n' || c == '\t' || c == '\0' || c == ' ' }

  // ---- Searching and trimming ------------------------------------------------------------------

  /** "t" stands at position "i". */
  predicate At(s: string, i: nat, t: string): (b: bool)
    ensures b ==> i + |t| <= |s|
    decreases t
  {
    if t == [] then i <= |s| else i < |s| && s[i] == t[0] && At(s, i + 1, t[1..])
  }

  lemma {:induction false} AtChar(s: string, i: nat, t: string, k: nat)
    requires At(s, i, t) && k < |t|
    ensures s[i + k] == t[k]
    decreases k
  {
    if k > 0 { AtChar(s, i + 1, t[1..], k - 1); }
  }

  /** "t" stands at "i" exactly when it is the text there. */
  lemma {:induction false} AtIsSlice(s: string, i: nat, t: string)
    ensures At(s, i, t) <==> i + |t| <= |s| && s[i..i + |t|] == t
    decreases t
  {
    if t != [] {
      AtIsSlice(s, i + 1, t[1..]);
      if i + |t| <= |s| {
        assert s[i..i + |t|][0] == s[i] && s[i..i + |t|][1..] == s[i + 1..i + 1 + |t[1..]|];
        if s[i] == t[0] && s[i + 1..i + 1 + |t[1..]|] == t[1..] { assert s[i..i + |t|] == [t[0]] + t[1..]; }
      }
    }
  }

  lemma {:induction false} AtParts(s: string, i: nat, a: string, b: string)
    requires At(s, i, a + b)
    ensures At(s, i, a) && At(s, i + |a|, b)
    decreases a
  {
    if a == [] {
      assert a + b == b;
    } else {
      assert (a + b)[1..] == a[1..] + b;
      AtParts(s, i + 1, a[1..], b);
    }
  }

  /** The first position from "from" on where "t" stands. */
  function Find(s: string, t: string, from: nat): (pos: Option<nat>)
    ensures pos.Some? ==> from <= pos.value && pos.value + |t| <= |s|
    decreases |s| + 1 - from
  {
    if from > |s| then None else if At(s, from, t) then Some(from) else Find(s, t, from + 1)
  }

  lemma {:induction false} FindIsFirst(s: string, t: string, from: nat)
    ensures var pos := Find(s, t, from);
            && (pos.Some? ==> At(s, pos.value, t))
            && forall k | from <= k < (if pos.Some? then pos.value else |s| + 1) :: !At(s, k, t)
    decreases |s| + 1 - from
  {
    if from <= |s| && !At(s, from, t) { FindIsFirst(s, t, from + 1); }
  }

  /** The last position up to "from" where "t" stands. */
  function FindLast(s: string, t: string, from: nat): (pos: Option<nat>)
    ensures pos.Some? ==> pos.value <= from && pos.value + |t| <= |s|
  {
    if At(s, from, t) then Some(from) else if from == 0 then None else FindLast(s, t, from - 1)
  }

  function TrimLeft(s: string, i: nat): (begin: nat)
    requires i <= |s|
    ensures i <= begin <= |s|
    decreases |s| - i
  {
    if i < |s| && IsTrim(s[i]) then TrimLeft(s, i + 1) else i
  }

  lemma {:induction false} TrimLeftStops(s: string, i: nat)
    requires i <= |s|
    ensures TrimLeft(s, i) < |s| ==> !IsTrim(s[TrimLeft(s, i)])
    ensures forall k | i <= k < TrimLeft(s, i) :: IsTrim(s[k])
    ensures forall c :: IsTrim(c) <==> c in {'\r', '\n', '\t', '\0', ' '}
    decreases |s| - i
  {
    if i < |s| && IsTrim(s[i]) { TrimLeftStops(s, i + 1); }
  }

  /** Stops at 0 even if the first character could be trimmed. */
  function TrimRight(s: string, i: nat): (end: nat)
    requires i < |s|
    ensures end <= i
  {
    if i > 0 && IsTrim(s[i]) then TrimRight(s, i - 1) else i
  }

  lemma {:induction false} TrimRightStops(s: string, i: nat)
    requires i < |s|
    ensures TrimRight(s, i) > 0 ==> !IsTrim(s[TrimRight(s, i)])
    ensures forall k | TrimRight(s, i) < k <= i :: IsTrim(s[k])
  {
    if i > 0 && IsTrim(s[i]) { TrimRightStops(s, i - 1); }
  }

  function Lower(c: char): char {
    if 'A' <= c <= 'Z' then c - 'A' + 'a' else c
  }

  // ---- parse() ------------------------------------------------------------------------------------

  /** Both ends of the method and of the URI are inclusive. */
  datatype Offsets = Offsets(
    requestBegin: nat, requestEnd: nat, methodEnd: nat, uriBegin: nat, uriEnd: nat,
    headerBegin: nat, headerEnd: nat, bodyBegin: nat, bodyEnd: nat)

  /** The bounds of the URI, between the method and the version. */
  function UriBounds(s: string, space: nat, requestEnd: nat): (r: Option<(nat, nat)>)
    requires space < |s|
    ensures r.Some? ==> space <= r.value.0 <= r.value.1 < |s| && !IsTrim(s[r.value.0])
  {
    var uriBegin, version := TrimLeft(s, space), FindLast(s, "HTTP", requestEnd);
    TrimLeftStops(s, space);
    if version.None? || version.value <= 1 then None
    else
      var uriEnd := TrimRight(s, version.value - 1);
      if uriBegin <= uriEnd then Some((uriBegin, uriEnd)) else None
  }

  /** The end of the method and the bounds of the URI; None where parse() throws. */
  function RequestLine(s: string, begin: nat, requestEnd: nat, headerBegin: nat): Option<(nat, nat, nat)>
    requires begin < |s| && !IsTrim(s[begin])
  {
    var space := Find(s, " ", begin);
    if space.None? || space.value >= headerBegin || |s| <= 1 then None
    else
      FindIsFirst(s, " ", begin);
      AtChar(s, space.value, " ", 0);
      match UriBounds(s, space.value, requestEnd)
      case None => None
      case Some((uriBegin, uriEnd)) => Some((space.value - 1, uriBegin, uriEnd))
  }

  /** Where the request begins, the first line ends and the header section ends. */
  function Sections(s: string): (r: Option<(nat, nat, nat)>)
    ensures r.Some? ==> var (begin, line, end) := r.value;
                        begin < |s| && !IsTrim(s[begin]) && At(s, line, CRLF) && At(s, end, CRLF2)
  {
    var begin := TrimLeft(s, 0);
    var end, line := Find(s, CRLF2, begin), Find(s, CRLF, begin);
    TrimLeftStops(s, 0);
    FindIsFirst(s, CRLF2, begin);
    FindIsFirst(s, CRLF, begin);
    if begin == |s| || end.None? || line.None? then None else Some((begin, line.value, end.value))
  }

  /** Where parse() puts its marks; None where it throws. */
  function Parse(s: string): Option<Offsets> {
    match Sections(s)
    case None => None
    case Some((begin, line, end)) =>
      match RequestLine(s, begin, TrimRight(s, line), line + 2)
      case None => None
      case Some((methodEnd, uriBegin, uriEnd)) =>
        if line > end then None
        else Some(Offsets(begin, TrimRight(s, line), methodEnd, uriBegin, uriEnd, line + 2, end + 2, end + 4, |s|))
  }

  // ---- Headers ------------------------------------------------------------------------------------

  /** The fields of a Header: half-open spans of the name and the value. */
  datatype HeaderSpan = HeaderSpan(nameBegin: nat, nameEnd: nat, valueBegin: nat, valueEnd: nat)

  /** The name and the value around a colon; None where an assertion fails. */
  function AroundColon(s: string, nameBegin: nat, colon: nat, valueEnd: nat): Option<HeaderSpan>
    requires colon < |s|
  {
    if colon == 0 then None
    else
      var nameEnd, valueBegin := TrimRight(s, colon - 1) + 1, TrimLeft(s, colon + 1);
      if nameBegin < nameEnd < valueBegin < valueEnd then Some(HeaderSpan(nameBegin, nameEnd, valueBegin, valueEnd))
      else None
  }

  /** The constructor of Header; None where one of its assertions fails. */
  function HeaderAt(s: string, index: nat): Option<HeaderSpan>
    requires index <= |s|
  {
    var nameBegin := TrimLeft(s, index);
    var line, colon := Find(s, CRLF, nameBegin), Find(s, ":", nameBegin);
    if line.None? then None
    else
      var valueEnd := TrimRight(s, line.value) + 1;
      if nameBegin >= valueEnd then None
      else if colon.None? || colon.value > valueEnd then Some(HeaderSpan(nameBegin, valueEnd, valueEnd, valueEnd))
      else AroundColon(s, nameBegin, colon.value, valueEnd)
  }

  /** The increment of the header iterator. */
  function NextHeader(s: string, i: nat, headerEnd: nat): nat {
    var pos := Find(s, CRLF, i);
    if pos.None? then headerEnd else pos.value + 2
  }

  /** The positions at which a loop over the headers stops. */
  function Starts(s: string, i: nat, headerEnd: nat): seq<nat>
    decreases if i <= |s| then |s| - i + 1 else 0
  {
    if i == headerEnd || i > |s| || NextHeader(s, i, headerEnd) <= i then []
    else [i] + Starts(s, NextHeader(s, i, headerEnd), headerEnd)
  }

  /** The first line break is at the end of the header section, or the next line starts before it. */
  lemma {:induction false} FirstBreak(s: string, from: nat, end: nat)
    requires At(s, end, CRLF2) && from <= end
    ensures Find(s, CRLF, from).Some? && (Find(s, CRLF, from).value == end || Find(s, CRLF, from).value + 2 <= end)
  {
    FindIsFirst(s, CRLF, from);
    assert CRLF2 == CRLF + CRLF;
    AtParts(s, end, CRLF, CRLF);
    var pos := Find(s, CRLF, from).value;
    AtChar(s, pos, CRLF, 1);
    AtChar(s, end, CRLF2, 0);
  }

  /** From each line of the header section the iterator goes on to the next line or exactly to the end. */
  lemma {:induction false} NextHeaderStays(s: string, i: nat, end: nat)
    requires At(s, end, CRLF2) && i <= end
    ensures var next := NextHeader(s, i, end + 2); i < next && (next <= end || next == end + 2)
  {
    FirstBreak(s, i, end);
  }

  /** A loop over the headers of any message that parses visits lines of the header section only, and
      ends at its end. */
  lemma {:induction false} StartsReachEnd(s: string, i: nat, end: nat)
    requires At(s, end, CRLF2) && (i <= end || i == end + 2)
    ensures var starts := Starts(s, i, end + 2);
            && (forall k | 0 <= k < |starts| :: starts[k] <= end)
            && if starts == [] then i == end + 2 else NextHeader(s, starts[|starts| - 1], end + 2) == end + 2
    decreases |s| - i
  {
    if i != end + 2 {
      NextHeaderStays(s, i, end);
      var next := NextHeader(s, i, end + 2);
      StartsReachEnd(s, next, end);
      var rest := Starts(s, next, end + 2);
      assert Starts(s, i, end + 2) == [i] + rest;
    }
  }

  lemma {:induction false} RequestLineBounds(s: string, begin: nat, requestEnd: nat, headerBegin: nat)
    requires begin < |s| && !IsTrim(s[begin]) && RequestLine(s, begin, requestEnd, headerBegin).Some?
    ensures var (methodEnd, uriBegin, uriEnd) := RequestLine(s, begin, requestEnd, headerBegin).value;
            begin <= methodEnd < uriBegin <= uriEnd < |s| && s[methodEnd + 1] == ' ' && !IsTrim(s[uriBegin])
  {
    var space := Find(s, " ", begin).value;
    FindIsFirst(s, " ", begin);
    AtChar(s, space, " ", 0);
  }

  lemma {:induction false} SectionsInOrder(s: string)
    requires Sections(s).Some?
    ensures var (begin, line, end) := Sections(s).value; begin <= line && (line == end || line + 2 <= end)
  {
    var begin := TrimLeft(s, 0);
    FirstBreak(s, begin, Find(s, CRLF2, begin).value);
  }

  /** The marks of the request line are in order. */
  lemma {:induction false} ParsedRequest(s: string)
    requires Parse(s).Some?
    ensures var o := Parse(s).value;
            && o.requestBegin <= o.methodEnd < o.uriBegin <= o.uriEnd < |s|
            && s[o.methodEnd + 1] == ' ' && !IsTrim(s[o.uriBegin])
  {
    var (begin, line, end) := Sections(s).value;
    RequestLineBounds(s, begin, TrimRight(s, line), line + 2);
  }

  /** The marks of the sections are in order, and the header section is whole lines. */
  lemma {:induction false} ParsedSections(s: string)
    requires Parse(s).Some?
    ensures var o := Parse(s).value;
            && o.requestEnd < o.headerBegin <= o.headerEnd
            && o.headerEnd + 2 == o.bodyBegin <= o.bodyEnd == |s|
            && At(s, o.headerEnd - 2, CRLF2) && (o.headerBegin <= o.headerEnd - 2 || o.headerBegin == o.headerEnd)
  {
    SectionsInOrder(s);
  }

  // ---- The classes ------------------------------------------------------------------------------------

  datatype HTTPMethod = OPTIONS | GET | HEAD | POST | PUT | DELETE | TRACE | CONNECT

  const METHODS: map<string, HTTPMethod> := map[
    "OPTIONS" := OPTIONS, "GET" := GET, "HEAD" := HEAD, "POST" := POST,
    "PUT" := PUT, "DELETE" := DELETE, "TRACE" := TRACE, "CONNECT" := CONNECT]

  function MethodOf(text: string): Option<HTTPMethod> {
    if text in METHODS then Some(METHODS[text]) else None
  }

  /** Equality up to the case of letters. */
  predicate SameFold(a: string, b: string) {
    |a| == |b| && forall k | 0 <= k < |a| :: Lower(a[k]) == Lower(b[k])
  }

  /** The eight methods of section 5.1.1 of RFC 2616, in capital letters only. */
  lemma {:induction false} MethodsByName(text: string, m: HTTPMethod)
    ensures MethodOf(text) == Some(m) <==>
            match m
            case OPTIONS => text == "OPTIONS"
            case GET => text == "GET"
            case HEAD => text == "HEAD"
            case POST => text == "POST"
            case PUT => text == "PUT"
            case DELETE => text == "DELETE"
            case TRACE => text == "TRACE"
            case CONNECT => text == "CONNECT"
  {
    DifferentNames();
  }

  lemma {:induction false} DifferentNames()
    ensures METHODS.Keys == {"OPTIONS", "GET", "HEAD", "POST", "PUT", "DELETE", "TRACE", "CONNECT"}
    ensures METHODS["OPTIONS"] == OPTIONS && METHODS["GET"] == GET && METHODS["HEAD"] == HEAD && METHODS["POST"] == POST
    ensures METHODS["PUT"] == PUT && METHODS["DELETE"] == DELETE && METHODS["TRACE"] == TRACE && METHODS["CONNECT"] == CONNECT
  {
    assert "OPTIONS"[0] == 'O' && "GET"[0] == 'G' && "HEAD"[0] == 'H' && "DELETE"[0] == 'D' && "TRACE"[0] == 'T';
    assert "CONNECT"[0] == 'C' && "POST"[1] == 'O' && "PUT"[1] == 'U';
  }

  /** Two characters count as one when they are the same, or the two cases of a letter from A to Z. */
  predicate OneLetter(a: char, b: char) {
    a == b || ('A' <= a <= 'Z' && b as int == a as int + 32) || ('A' <= b <= 'Z' && a as int == b as int + 32)
  }

  lemma {:induction false} FoldMeans(a: string, b: string)
    ensures SameFold(a, b) <==> |a| == |b| && forall k | 0 <= k < |a| :: OneLetter(a[k], b[k])
  {
    forall k | 0 <= k < |a| && k < |b| ensures Lower(a[k]) == Lower(b[k]) <==> OneLetter(a[k], b[k]) {
      LowerMeans(a[k], b[k]);
    }
  }

  lemma {:induction false} LowerMeans(a: char, b: char)
    ensures Lower(a) == Lower(b) <==> OneLetter(a, b)
  {
    assert 'a' as int == 97 && 'A' as int == 65 && 'Z' as int == 90;
  }

  function MethodText(s: string, o: Offsets): string
    requires o.requestBegin <= o.methodEnd < |s|
  {
    s[o.requestBegin..o.methodEnd + 1]
  }

  function UriText(s: string, o: Offsets): string
    requires o.uriBegin <= o.uriEnd < |s|
  {
    s[o.uriBegin..o.uriEnd + 1]
  }

  class Data {
    const data: string
    var requestBegin: nat
    var requestEnd: nat
    var headerBegin: nat
    var headerEnd: nat
    var bodyBegin: nat
    var bodyEnd: nat
    var methodEnd: nat
    var uriBegin: nat
    var uriEnd: nat

    function Marks(): Offsets
      reads this
    {
      Offsets(requestBegin, requestEnd, methodEnd, uriBegin, uriEnd, headerBegin, headerEnd, bodyBegin, bodyEnd)
    }

    /** parse() has succeeded. */
    predicate Parsed()
      reads this
    {
      Parse(data) == Some(Marks())
    }

    constructor (data: string)
      ensures this.data == data && methodEnd == |data|
    {
      this.data := data;
      var end := |data|;
      requestBegin, requestEnd, headerBegin, headerEnd := end, end, end, end;
      bodyBegin, bodyEnd, methodEnd, uriBegin, uriEnd := end, end, end, end, end;
    }

    method LTrim(index: nat) returns (i: nat)
      requires index <= |data|
      ensures i == TrimLeft(data, index)
    {
      i := index;
      while i < |data| && IsTrim(data[i])
        invariant index <= i <= |data| && TrimLeft(data, i) == TrimLeft(data, index)
      {
        i := i + 1;
      }
    }

    method RTrim(index: nat) returns (i: nat)
      requires index < |data|
      ensures i == TrimRight(data, index)
    {
      i := index;
      while i > 0 && IsTrim(data[i])
        invariant i < |data| && TrimRight(data, i) == TrimRight(data, index)
      {
        i := i - 1;
      }
    }

    method Compare(indexBegin: nat, indexEnd: nat, str: string) returns (same: bool)
      requires indexBegin < indexEnd <= |data|
      ensures same == SameFold(str, data[indexBegin..indexEnd])
    {
      if |str| != indexEnd - indexBegin { return false; }
      for i := 0 to |str|
        invariant forall k | 0 <= k < i :: Lower(str[k]) == Lower(data[indexBegin..indexEnd][k])
      {
        if Lower(str[i]) != Lower(data[indexBegin + i]) {
          assert data[indexBegin..indexEnd][i] == data[indexBegin + i];
          return false;
        }
      }
      return true;
    }

    /** Sets the marks, or throws. The check of the end of the method is made on the value the
        constructor left there, the size of the text. */
    method ParseMessage() returns (ok: bool)
      requires methodEnd == |data|
      modifies this
      ensures Parse(data) == if ok then Some(Marks()) else None
    {
      ok := ParseSections();
      if !ok { return; }
      ok := ParseRequestLine();
      SectionsInOrder(data);
      if !ok || headerBegin > headerEnd { return false; }
    }

    /** The parts of parse() that look for the sections. */
    method ParseSections() returns (ok: bool)
      modifies this`requestBegin, this`headerEnd, this`bodyBegin, this`bodyEnd, this`headerBegin, this`requestEnd
      ensures ok == Sections(data).Some?
      ensures ok ==> var (begin, line, end) := Sections(data).value;
                     && requestBegin == begin && requestEnd == TrimRight(data, line) && headerBegin == line + 2
                     && headerEnd == end + 2 && bodyBegin == end + 4 && bodyEnd == |data|
    {
      requestBegin := LTrim(0);
      if requestBegin >= |data| { return false; }

      var pos := Find(data, CRLF2, requestBegin);
      if pos.None? { return false; }
      headerEnd := pos.value + |CRLF|;
      bodyBegin := pos.value + |CRLF2|;
      bodyEnd := |data|;

      pos := Find(data, CRLF, requestBegin);
      if pos.None? { return false; }
      headerBegin := pos.value + |CRLF|;
      requestEnd := RTrim(pos.value);
      return true;
    }

    /** The parts of parse() that isolate the method and the URI. */
    method ParseRequestLine() returns (ok: bool)
      requires requestBegin < |data| && !IsTrim(data[requestBegin]) && methodEnd == |data|
      modifies this`methodEnd, this`uriBegin, this`uriEnd
      ensures RequestLine(data, requestBegin, requestEnd, headerBegin)
              == if ok then Some((methodEnd, uriBegin, uriEnd)) else None
    {
      var pos := Find(data, " ", requestBegin);
      if pos.None? || pos.value >= headerBegin || methodEnd <= 1 { return false; }
      FindIsFirst(data, " ", requestBegin);
      AtChar(data, pos.value, " ", 0);
      methodEnd := pos.value - 1;
      ok := IsolateURI();
    }

    method IsolateURI() returns (ok: bool)
      requires methodEnd + 1 < |data|
      modifies this`uriBegin, this`uriEnd
      ensures UriBounds(data, methodEnd + 1, requestEnd) == if ok then Some((uriBegin, uriEnd)) else None
    {
      uriBegin := LTrim(methodEnd + 1);
      var posEnd := FindLast(data, "HTTP", requestEnd);
      if posEnd.None? || posEnd.value <= 1 { return false; }
      uriEnd := RTrim(posEnd.value - 1);
      return uriBegin <= uriEnd;
    }

    method GetMethod() returns (m: Option<HTTPMethod>)
      requires Parsed()
      ensures requestBegin <= methodEnd < |data|
      ensures m == MethodOf(MethodText(data, Marks()))
    {
      var text := MethodString();
      m := MethodOf(text);
    }

    method MethodString() returns (text: string)
      requires Parsed()
      ensures requestBegin <= methodEnd < |data| && text == MethodText(data, Marks())
    {
      ParsedRequest(data);
      text := data[requestBegin..methodEnd + 1];
    }

    method GetURI() returns (uri: string)
      requires Parsed()
      ensures uriBegin <= uriEnd < |data| && uri == UriText(data, Marks())
    {
      ParsedRequest(data);
      uri := data[uriBegin..uriEnd + 1];
    }

    method GetData() returns (body: string)
      requires Parsed()
      ensures bodyBegin <= |data| && body == data[bodyBegin..]
    {
      ParsedSections(data);
      body := data[bodyBegin..bodyEnd];
    }

    /** The constructor of Header. */
    method HeaderOf(index: nat) returns (h: Option<HeaderSpan>)
      requires index <= |data|
      ensures h == HeaderAt(data, index)
    {
      var nameBegin := LTrim(index);
      var pos := Find(data, CRLF, nameBegin);
      if pos.None? { return None; }
      var valueEnd := RTrim(pos.value);
      valueEnd := valueEnd + 1;
      if nameBegin >= valueEnd { return None; }
      var colon := Find(data, ":", nameBegin);
      if colon.None? || colon.value > valueEnd { return Some(HeaderSpan(nameBegin, valueEnd, valueEnd, valueEnd)); }
      h := SplitAt(nameBegin, colon.value, valueEnd);
    }

    method SplitAt(nameBegin: nat, colon: nat, valueEnd: nat) returns (h: Option<HeaderSpan>)
      requires colon < |data|
      ensures h == AroundColon(data, nameBegin, colon, valueEnd)
    {
      if colon == 0 { return None; }
      var nameEnd := RTrim(colon - 1);
      nameEnd := nameEnd + 1;
      var valueBegin := LTrim(colon + 1);
      if nameBegin < nameEnd < valueBegin < valueEnd { return Some(HeaderSpan(nameBegin, nameEnd, valueBegin, valueEnd)); }
      return None;
    }

    /** A loop over the headers; it ends because the iterator hits the end of the section exactly. */
    method Headers() returns (starts: seq<nat>)
      requires Parsed()
      ensures starts == Starts(data, headerBegin, headerEnd)
    {
      ParsedSections(data);
      starts := HeadersFrom();
    }

    method HeadersFrom() returns (starts: seq<nat>)
      requires headerEnd >= 2 && At(data, headerEnd - 2, CRLF2)
      requires headerBegin <= headerEnd - 2 || headerBegin == headerEnd
      ensures starts == Starts(data, headerBegin, headerEnd)
    {
      starts := [];
      var i, end := headerBegin, headerEnd;
      while i != end
        invariant i <= end - 2 || i == end
        invariant starts + Starts(data, i, end) == Starts(data, headerBegin, headerEnd)
        decreases end - i
      {
        NextHeaderStays(data, i, end - 2);
        var next := NextHeader(data, i, end);
        assert starts + ([i] + Starts(data, next, end)) == (starts + [i]) + Starts(data, next, end);
        starts := starts + [i];
        i := next;
      }
    }
  }
}
