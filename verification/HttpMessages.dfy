/** Requests as RFC 2616 writes them (sections 4.1, 4.2 and 5.1), and what the parser makes of them. */
module HttpMessages {
  import opened Basics
  import opened HttpData

  /** A header with the blanks around its separator and at its end. */
  datatype Header = Header(name: string, blank1: string, blank2: string, value: string, blank3: string)

  /** A request with everything that may stand before, between and after its parts. */
  datatype Request = Request(
    lead: string, verb: string, gap1: string, uri: string, gap2: string, version: string, tail: string,
    headers: seq<Header>, body: string)

  function RenderHeader(h: Header): string { h.name + h.blank1 + ":" + h.blank2 + h.value + h.blank3 }

  /** The lines of the headers from the n-th on. */
  function RenderHeaders(headers: seq<Header>, n: nat): string
    requires n <= |headers|
    decreases |headers| - n
  {
    if n == |headers| then [] else RenderHeader(headers[n]) + CRLF + RenderHeaders(headers, n + 1)
  }

  function RenderLine(r: Request): string { r.verb + r.gap1 + r.uri + r.gap2 + r.version + r.tail }

  function Render(r: Request): string {
    r.lead + RenderLine(r) + CRLF + RenderHeaders(r.headers, 0) + CRLF + r.body
  }

  // ---- What a well-formed request is -----------------------------------------------------------

  predicate BreakAt(t: string, k: int) { 0 <= k < |t| - 1 && t[k] == '\r' && t[k + 1] == '\n' }

  ghost predicate NoBreak(t: string) { forall k :: !BreakAt(t, k) }

  /** A part that is not empty, has no line break inside, and no character to trim at its ends. */
  ghost predicate IsField(t: string) { t != [] && NoBreak(t) && !IsTrim(t[0]) && !IsTrim(t[|t| - 1]) }

  predicate IsBlank(t: string) { forall k | 0 <= k < |t| :: t[k] == ' ' || t[k] == '\t' }

  /** Every line break is followed by a blank: the text goes on in the next line. */
  ghost predicate IsFolded(t: string) {
    forall k :: BreakAt(t, k) ==> k + 2 < |t| && (t[k + 2] == ' ' || t[k + 2] == '\t')
  }

  /** Linear white space: blanks, and line breaks that are followed by a blank. */
  ghost predicate IsLws(t: string) {
    IsFolded(t) && forall k | 0 <= k < |t| :: t[k] == ' ' || t[k] == '\t' || BreakAt(t, k) || BreakAt(t, k - 1)
  }

  predicate Lacks(t: string, c: char) { forall k | 0 <= k < |t| :: t[k] != c }

  /** A header as section 4.2 of RFC 2616 writes it: the value may be empty, and it may be folded over
      several lines, as may the white space around it. */
  ghost predicate IsHeader(h: Header) {
    && IsField(h.name) && Lacks(h.name, ':') && IsLws(h.blank1) && IsLws(h.blank2) && IsLws(h.blank3)
    && (h.value != "" ==> IsFolded(h.value) && !IsTrim(h.value[0]) && !IsTrim(h.value[|h.value| - 1]))
  }

  /** A header of one line. */
  ghost predicate IsInLine(h: Header) {
    && IsField(h.name) && Lacks(h.name, ':') && IsBlank(h.blank1) && IsBlank(h.blank2) && IsBlank(h.blank3)
    && (h.value != "" ==> IsField(h.value))
  }

  ghost predicate IsVersion(t: string) { IsField(t) && |t| >= 4 && t[..4] == "HTTP" && Lacks(t[4..], 'H') }

  /** A request line: a method, a URI and a version, with blanks between them. */
  ghost predicate IsLine(r: Request) {
    && IsField(r.verb) && Lacks(r.verb, ' ')
    && IsBlank(r.gap1) && r.gap1 != [] && r.gap1[0] == ' '
    && IsField(r.uri) && IsBlank(r.gap2) && r.gap2 != [] && IsVersion(r.version) && IsBlank(r.tail)
  }

  predicate IsLead(t: string) { forall k | 0 <= k < |t| :: IsTrim(t[k]) }

  ghost predicate IsRequest(r: Request) { IsLead(r.lead) && IsLine(r) && AreHeaders(r.headers) }

  ghost predicate AreHeaders(headers: seq<Header>) { forall k | 0 <= k < |headers| :: IsHeader(headers[k]) }

  // ---- Parts of a text ---------------------------------------------------------------------------

  lemma {:induction false} NoBreakConcat(a: string, b: string)
    requires NoBreak(a) && NoBreak(b) && (a == [] || a[|a| - 1] != '\r')
    ensures NoBreak(a + b)
  {
    forall k ensures !BreakAt(a + b, k) {
      assert !BreakAt(a, k) && !BreakAt(b, k - |a|);
    }
  }

  lemma {:induction false} NoBreakParts(a: string, b: string)
    requires NoBreak(a + b)
    ensures NoBreak(a) && NoBreak(b)
  {
    forall k ensures !BreakAt(a, k) { assert BreakAt(a, k) ==> BreakAt(a + b, k); }
    forall k ensures !BreakAt(b, k) { assert BreakAt(b, k) ==> BreakAt(a + b, |a| + k); }
  }

  lemma {:induction false} FoldedConcat(a: string, b: string)
    requires IsFolded(a) && IsFolded(b) && (a == [] || a[|a| - 1] != '\r')
    ensures IsFolded(a + b)
  {
    forall k | BreakAt(a + b, k) ensures k + 2 < |a + b| && ((a + b)[k + 2] == ' ' || (a + b)[k + 2] == '\t') {
      assert BreakAt(a, k) || BreakAt(b, k - |a|);
    }
  }

  /** White space without a line break is blank, and it never ends in the middle of a break. */
  lemma {:induction false} LwsInLine(t: string)
    requires IsLws(t)
    ensures NoBreak(t) ==> IsBlank(t)
    ensures t == [] || t[|t| - 1] != '\r'
  {
    if t != [] {
      var k := |t| - 1;
      assert !BreakAt(t, k);
      assert t[k] == ' ' || t[k] == '\t' || BreakAt(t, k) || BreakAt(t, k - 1);
    }
    if NoBreak(t) {
      forall k | 0 <= k < |t| ensures t[k] == ' ' || t[k] == '\t' {
        assert !BreakAt(t, k) && !BreakAt(t, k - 1);
      }
    }
  }

  lemma {:induction false} NotAt(s: string, i: nat, t: string, k: nat)
    requires k < |t| && (i + k < |s| ==> s[i + k] != t[k])
    ensures !At(s, i, t)
  {
    if At(s, i, t) { AtChar(s, i, t, k); }
  }

  lemma {:induction false} FindSkips(s: string, t: string, i: nat, j: nat)
    requires i <= j <= |s| && forall k | i <= k < j :: !At(s, k, t)
    ensures Find(s, t, i) == Find(s, t, j)
    decreases j - i
  {
    if i < j { FindSkips(s, t, i + 1, j); }
  }

  lemma {:induction false} LineEnds(s: string, i: nat, line: string)
    requires At(s, i, line + CRLF) && NoBreak(line)
    ensures Find(s, CRLF, i) == Some(i + |line|)
  {
    AtParts(s, i, line, CRLF);
    AtChar(s, i + |line|, CRLF, 0);
    forall k | i <= k < i + |line| ensures !At(s, k, CRLF) {
      AtChar(s, i, line, k - i);
      if k + 1 < i + |line| {
        AtChar(s, i, line, k + 1 - i);
        assert !BreakAt(line, k - i);
        NotAt(s, k, CRLF, if s[k] != '\r' then 0 else 1);
      } else {
        NotAt(s, k, CRLF, 1);
      }
    }
    FindSkips(s, CRLF, i, i + |line|);
  }

  lemma {:induction false} FindsChar(s: string, i: nat, t: string, c: char)
    requires At(s, i, t + [c]) && Lacks(t, c)
    ensures Find(s, [c], i) == Some(i + |t|)
  {
    AtParts(s, i, t, [c]);
    forall k | i <= k < i + |t| ensures !At(s, k, [c]) {
      AtChar(s, i, t, k - i);
      NotAt(s, k, [c], 0);
    }
    FindSkips(s, [c], i, i + |t|);
  }

  lemma {:induction false} TrimsLeft(s: string, i: nat, blank: string)
    requires At(s, i, blank) && (forall k | 0 <= k < |blank| :: IsTrim(blank[k]))
    requires i + |blank| < |s| && !IsTrim(s[i + |blank|])
    ensures TrimLeft(s, i) == i + |blank|
  {
    forall k | i <= k < i + |blank| ensures IsTrim(s[k]) { AtChar(s, i, blank, k - i); }
    TrimLeftGoes(s, i, i + |blank|);
  }

  lemma {:induction false} TrimLeftGoes(s: string, i: nat, begin: nat)
    requires i <= begin < |s| && !IsTrim(s[begin]) && forall k | i <= k < begin :: IsTrim(s[k])
    ensures TrimLeft(s, i) == begin
    decreases begin - i
  {
    if i < begin { TrimLeftGoes(s, i + 1, begin); }
  }

  lemma {:induction false} TrimsRight(s: string, i: nat, end: nat)
    requires i <= end < |s| && !IsTrim(s[i]) && forall k | i < k <= end :: IsTrim(s[k])
    ensures TrimRight(s, end) == i
    decreases end
  {
    if i < end { TrimsRight(s, i, end - 1); }
  }

  lemma {:induction false} BlanksTrim(t: string)
    requires IsBlank(t)
    ensures forall k | 0 <= k < |t| :: IsTrim(t[k])
    ensures NoBreak(t) && (t == [] || t[|t| - 1] != '\r')
  {
  }

  // ---- Headers -----------------------------------------------------------------------------------

  /** The header at "i" has this name and this value. */
  predicate ReadsAs(s: string, i: nat, h: Header) {
    && i <= |s| && HeaderAt(s, i).Some?
    && var span := HeaderAt(s, i).value;
    && span.nameBegin <= span.nameEnd <= |s| && span.valueBegin <= span.valueEnd <= |s|
    && s[span.nameBegin..span.nameEnd] == h.name && s[span.valueBegin..span.valueEnd] == h.value
  }

  function HeaderSize(h: Header): nat { |h.name| + |h.blank1| + 1 + |h.blank2| + |h.value| + |h.blank3| }

  /** The parts of a header stand one after the other. */
  predicate HeaderStands(s: string, i: nat, h: Header) {
    var colon := i + |h.name| + |h.blank1|;
    var begin := colon + 1 + |h.blank2|;
    && At(s, i, h.name + h.blank1 + ":") && At(s, i, h.name) && At(s, i + |h.name|, h.blank1)
    && At(s, colon, ":") && At(s, colon + 1, h.blank2) && At(s, begin, h.value)
    && At(s, begin + |h.value|, h.blank3) && At(s, begin + |h.value| + |h.blank3|, CRLF)
  }

  lemma {:induction false} HeaderParts(s: string, i: nat, h: Header)
    requires At(s, i, RenderHeader(h) + CRLF)
    ensures HeaderStands(s, i, h) && |RenderHeader(h)| == HeaderSize(h)
  {
    AtParts(s, i, RenderHeader(h), CRLF);
    AtParts(s, i, h.name + h.blank1 + ":" + h.blank2 + h.value, h.blank3);
    AtParts(s, i, h.name + h.blank1 + ":" + h.blank2, h.value);
    AtParts(s, i, h.name + h.blank1 + ":", h.blank2);
    AtParts(s, i, h.name + h.blank1, ":");
    AtParts(s, i, h.name, h.blank1);
  }

  lemma {:induction false} HeaderBegins(h: Header)
    requires h.name != ""
    ensures |RenderHeader(h)| > 0 && RenderHeader(h)[0] == h.name[0]
  {
  }

  lemma {:induction false} HeaderIsFolded(h: Header)
    requires IsHeader(h)
    ensures IsFolded(RenderHeader(h))
  {
    LwsInLine(h.blank1);
    LwsInLine(h.blank2);
    LwsInLine(h.blank3);
    FoldedConcat(h.name, h.blank1);
    FoldedConcat(h.name + h.blank1, ":");
    FoldedConcat(h.name + h.blank1 + ":", h.blank2);
    FoldedConcat(h.name + h.blank1 + ":" + h.blank2, h.value);
    FoldedConcat(h.name + h.blank1 + ":" + h.blank2 + h.value, h.blank3);
  }

  lemma {:induction false} UnbrokenIsInLine(h: Header)
    requires IsHeader(h) && NoBreak(RenderHeader(h))
    ensures IsInLine(h)
  {
    NoBreakParts(h.name + h.blank1 + ":" + h.blank2 + h.value, h.blank3);
    NoBreakParts(h.name + h.blank1 + ":" + h.blank2, h.value);
    NoBreakParts(h.name + h.blank1 + ":", h.blank2);
    NoBreakParts(h.name + h.blank1, ":");
    NoBreakParts(h.name, h.blank1);
    LwsInLine(h.blank1);
    LwsInLine(h.blank2);
    LwsInLine(h.blank3);
  }

  /** After a field and a blank, trimming from the right goes back to the end of the field. */
  lemma {:induction false} TrimsBack(s: string, i: nat, field: string, blank: string, end: nat)
    requires At(s, i, field) && IsField(field) && At(s, i + |field|, blank) && IsBlank(blank)
    requires i + |field| - 1 <= end <= i + |field| + |blank| && end < |s|
    requires end == i + |field| + |blank| ==> IsTrim(s[end])
    ensures TrimRight(s, end) == i + |field| - 1
  {
    AtChar(s, i, field, |field| - 1);
    forall k | i + |field| <= k <= end ensures IsTrim(s[k]) {
      if k < i + |field| + |blank| { AtChar(s, i + |field|, blank, k - i - |field|); }
    }
    TrimsRight(s, i + |field| - 1, end);
  }

  /** The positions that a header's constructor finds. */
  lemma {:induction false} HeaderFound(s: string, i: nat, nameEnd: nat, colon: nat, begin: nat, end: nat, line: nat)
    requires i < nameEnd <= colon < begin < end <= line < |s|
    requires TrimLeft(s, i) == i && Find(s, CRLF, i) == Some(line) && Find(s, ":", i) == Some(colon)
    requires TrimRight(s, line) == end - 1 && TrimRight(s, colon - 1) == nameEnd - 1 && TrimLeft(s, colon + 1) == begin
    ensures HeaderAt(s, i) == Some(HeaderSpan(i, nameEnd, begin, end))
  {
  }

  lemma {:induction false} ColonFound(s: string, i: nat, h: Header)
    requires Lacks(h.name, ':') && IsBlank(h.blank1) && At(s, i, h.name + h.blank1 + ":")
    ensures Find(s, ":", i) == Some(i + |h.name| + |h.blank1|)
  {
    var t := h.name + h.blank1;
    forall k | 0 <= k < |t| ensures t[k] != ':' {
      if k < |h.name| { assert t[k] == h.name[k]; } else { assert t[k] == h.blank1[k - |h.name|]; }
    }
    FindsChar(s, i, t, ':');
  }

  lemma {:induction false} FieldIsReached(s: string, i: nat, blank: string, field: string)
    requires At(s, i, blank) && IsBlank(blank) && At(s, i + |blank|, field) && IsField(field)
    ensures TrimLeft(s, i) == i + |blank| < |s|
  {
    AtChar(s, i + |blank|, field, 0);
    BlanksTrim(blank);
    TrimsLeft(s, i, blank);
  }

  lemma {:induction false} NameStands(s: string, i: nat, h: Header)
    requires IsInLine(h) && At(s, i, h.name + h.blank1 + ":") && At(s, i, h.name) && At(s, i + |h.name|, h.blank1)
    ensures var colon := i + |h.name| + |h.blank1|;
            && i + |h.name| <= colon < |s| && TrimLeft(s, i) == i && Find(s, ":", i) == Some(colon)
            && TrimRight(s, colon - 1) == i + |h.name| - 1 && s[i..i + |h.name|] == h.name
  {
    AtIsSlice(s, i, h.name);
    ColonFound(s, i, h);
    assert At(s, i, "");
    FieldIsReached(s, i, "", h.name);
    TrimsBack(s, i, h.name, h.blank1, i + |h.name| + |h.blank1| - 1);
  }

  lemma {:induction false} ValueStands(s: string, begin: nat, blank2: string, text: string, blank3: string)
    requires IsBlank(blank2) && IsField(text) && IsBlank(blank3)
    requires At(s, begin, blank2) && At(s, begin + |blank2|, text) && At(s, begin + |blank2| + |text|, blank3)
    requires At(s, begin + |blank2| + |text| + |blank3|, CRLF)
    ensures var i, line := begin + |blank2|, begin + |blank2| + |text| + |blank3|;
            && line < |s| && TrimLeft(s, begin) == i && TrimRight(s, line) == i + |text| - 1
            && s[i..i + |text|] == text
  {
    var i, line := begin + |blank2|, begin + |blank2| + |text| + |blank3|;
    FieldIsReached(s, begin, blank2, text);
    AtChar(s, line, CRLF, 0);
    TrimsBack(s, i, text, blank3, line);
    AtIsSlice(s, i, text);
  }

  /** With an empty value, trimming from the left runs past the end of the line. */
  lemma {:induction false} BlanksStand(s: string, colon: nat, blank2: string, blank3: string)
    requires IsBlank(blank2) && IsBlank(blank3) && At(s, colon, ":") && At(s, colon + 1, blank2)
    requires At(s, colon + 1 + |blank2|, blank3) && At(s, colon + 1 + |blank2| + |blank3|, CRLF)
    ensures var line := colon + 1 + |blank2| + |blank3|;
            line < |s| && TrimRight(s, line) == colon && TrimLeft(s, colon + 1) > line
  {
    var line := colon + 1 + |blank2| + |blank3|;
    AtChar(s, colon, ":", 0);
    forall k | colon < k <= line ensures IsTrim(s[k]) {
      if k <= colon + |blank2| {
        AtChar(s, colon + 1, blank2, k - colon - 1);
      } else if k < line {
        AtChar(s, colon + 1 + |blank2|, blank3, k - colon - 1 - |blank2|);
      } else {
        AtChar(s, line, CRLF, 0);
      }
    }
    TrimsRight(s, colon, line);
    TrimLeftStops(s, colon + 1);
  }

  lemma {:induction false} EmptyValueFails(s: string, i: nat, nameEnd: nat, colon: nat, line: nat)
    requires i < nameEnd <= colon < line < |s| && TrimLeft(s, i) == i
    requires Find(s, CRLF, i) == Some(line) && Find(s, ":", i) == Some(colon)
    requires TrimRight(s, line) == colon && TrimLeft(s, colon + 1) > line
    ensures HeaderAt(s, i) == None
  {
  }

  /** What the constructor of Header makes of a header of one line: an assertion fails exactly when the
      value is empty, and otherwise it gives back the name and the value. */
  predicate Meets(s: string, i: nat, h: Header) {
    && i <= |s| && (HeaderAt(s, i).Some? <==> h.value != "")
    && (h.value != "" ==> ReadsAs(s, i, h))
  }

  lemma {:induction false} ValueMeets(s: string, i: nat, h: Header)
    requires IsInLine(h) && h.value != "" && HeaderStands(s, i, h) && Find(s, CRLF, i) == Some(i + HeaderSize(h))
    ensures Meets(s, i, h)
  {
    NameStands(s, i, h);
    ValueStands(s, i + |h.name| + |h.blank1| + 1, h.blank2, h.value, h.blank3);
    ValueIsMet(s, i, h);
  }

  lemma {:induction false} ValueIsMet(s: string, i: nat, h: Header)
    requires h.name != "" && h.value != ""
    requires var colon, line := i + |h.name| + |h.blank1|, i + HeaderSize(h);
             var begin := colon + 1 + |h.blank2|;
             && line < |s| && TrimLeft(s, i) == i && Find(s, CRLF, i) == Some(line) && Find(s, ":", i) == Some(colon)
             && TrimRight(s, line) == begin + |h.value| - 1 && TrimRight(s, colon - 1) == i + |h.name| - 1
             && TrimLeft(s, colon + 1) == begin
             && s[i..i + |h.name|] == h.name && s[begin..begin + |h.value|] == h.value
    ensures Meets(s, i, h)
  {
    var colon := i + |h.name| + |h.blank1|;
    var begin := colon + 1 + |h.blank2|;
    HeaderFound(s, i, i + |h.name|, colon, begin, begin + |h.value|, i + HeaderSize(h));
  }

  lemma {:induction false} EmptyValueMeets(s: string, i: nat, h: Header)
    requires IsInLine(h) && h.value == "" && HeaderStands(s, i, h) && Find(s, CRLF, i) == Some(i + HeaderSize(h))
    ensures Meets(s, i, h)
  {
    var colon := i + |h.name| + |h.blank1|;
    NameStands(s, i, h);
    BlanksStand(s, colon, h.blank2, h.blank3);
    EmptyValueFails(s, i, i + |h.name|, colon, i + HeaderSize(h));
  }

  lemma {:induction false} HeaderReads(s: string, i: nat, h: Header)
    requires IsInLine(h) && NoBreak(RenderHeader(h)) && At(s, i, RenderHeader(h) + CRLF)
    ensures Meets(s, i, h)
    ensures Find(s, CRLF, i) == Some(i + |RenderHeader(h)|) && i + |RenderHeader(h)| + 2 <= |s|
  {
    LineEnds(s, i, RenderHeader(h));
    HeaderParts(s, i, h);
    if h.value != "" { ValueMeets(s, i, h); } else { EmptyValueMeets(s, i, h); }
  }

  lemma {:induction false} StartsStep(s: string, i: nat, line: nat, end: nat)
    requires i <= line < |s| && line + 2 <= end && Find(s, CRLF, i) == Some(line)
    ensures Starts(s, i, end) == [i] + Starts(s, line + 2, end)
  {
  }

  function SizeOf(headers: seq<Header>, n: nat): nat
    requires n <= |headers|
    decreases |headers| - n
  {
    if n == |headers| then 0 else |RenderHeader(headers[n])| + 2 + SizeOf(headers, n + 1)
  }

  /** The lines of the headers from the n-th on stand one after the other. */
  predicate LinesAt(s: string, i: nat, headers: seq<Header>, n: nat)
    requires n <= |headers|
    decreases |headers| - n
  {
    n == |headers|
    || (At(s, i, RenderHeader(headers[n]) + CRLF) && LinesAt(s, i + |RenderHeader(headers[n])| + 2, headers, n + 1))
  }

  lemma {:induction false} HeadersAreLines(s: string, i: nat, headers: seq<Header>, n: nat)
    requires n <= |headers| && At(s, i, RenderHeaders(headers, n))
    ensures LinesAt(s, i, headers, n) && |RenderHeaders(headers, n)| == SizeOf(headers, n)
    decreases |headers| - n
  {
    if n < |headers| {
      AtParts(s, i, RenderHeader(headers[n]) + CRLF, RenderHeaders(headers, n + 1));
      HeadersAreLines(s, i + |RenderHeader(headers[n])| + 2, headers, n + 1);
    }
  }

  /** A loop over the headers gives the headers from the n-th on. */
  predicate ReadAs(s: string, starts: seq<nat>, headers: seq<Header>, n: nat)
    requires n <= |headers|
  {
    |starts| == |headers| - n && forall k | 0 <= k < |starts| :: ReadsAs(s, starts[k], headers[n + k])
  }

  /** It stops once at each of them. */
  predicate MeetAs(s: string, starts: seq<nat>, headers: seq<Header>, n: nat)
    requires n <= |headers|
  {
    |starts| == |headers| - n && forall k | 0 <= k < |starts| :: Meets(s, starts[k], headers[n + k])
  }

  /** No header is folded. */
  ghost predicate Unfolded(headers: seq<Header>, n: nat) {
    forall k | n <= k < |headers| :: NoBreak(RenderHeader(headers[k]))
  }

  lemma {:induction false} HeadersMeet(s: string, i: nat, headers: seq<Header>, n: nat, end: nat)
    requires n <= |headers| && AreHeaders(headers) && Unfolded(headers, n)
    requires LinesAt(s, i, headers, n) && end == i + SizeOf(headers, n)
    ensures MeetAs(s, Starts(s, i, end), headers, n)
    decreases |headers| - n
  {
    if n < |headers| {
      var line := i + |RenderHeader(headers[n])|;
      UnbrokenIsInLine(headers[n]);
      HeaderReads(s, i, headers[n]);
      HeadersMeet(s, line + 2, headers, n + 1, end);
      StartsStep(s, i, line, end);
      MeetAsCons(s, i, Starts(s, line + 2, end), headers, n);
    }
  }

  lemma {:induction false} MeetAsCons(s: string, i: nat, rest: seq<nat>, headers: seq<Header>, n: nat)
    requires n < |headers| && Meets(s, i, headers[n]) && MeetAs(s, rest, headers, n + 1)
    ensures MeetAs(s, [i] + rest, headers, n)
  {
    var starts := [i] + rest;
    forall k | 0 <= k < |starts| ensures Meets(s, starts[k], headers[n + k]) {
      if k > 0 { assert starts[k] == rest[k - 1] && Meets(s, rest[k - 1], headers[n + 1 + (k - 1)]); }
    }
  }

  /** From anywhere in the line of a header the loop stops at least once for each header to come, and once
      more if there is a break left in the line. */
  lemma {:induction false} StartsCount(s: string, j: nat, i: nat, headers: seq<Header>, n: nat, end: nat)
    requires n < |headers| && LinesAt(s, i, headers, n) && end == i + SizeOf(headers, n)
    requires i <= j <= i + |RenderHeader(headers[n])|
    ensures |Starts(s, j, end)| >= |headers| - n
    ensures (exists k :: BreakAt(RenderHeader(headers[n]), k) && j <= i + k) ==> |Starts(s, j, end)| > |headers| - n
    decreases |s| - j
  {
    var line := i + |RenderHeader(headers[n])|;
    var pos := NextBreak(s, j, i, RenderHeader(headers[n]));
    StartsStep(s, j, pos, end);
    if pos < line {
      StartsCount(s, pos + 2, i, headers, n, end);
    } else if n + 1 < |headers| {
      StartsCount(s, line + 2, line + 2, headers, n + 1, end);
    }
  }

  /** The next break is the first one left in the line, or the one at its end. */
  lemma {:induction false} NextBreak(s: string, j: nat, i: nat, line: string) returns (pos: nat)
    requires At(s, i, line + CRLF) && i <= j <= i + |line|
    ensures Find(s, CRLF, j) == Some(pos) && j <= pos <= pos + 2 <= |s|
    ensures pos == i + |line| || pos + 2 <= i + |line|
    ensures (exists k :: BreakAt(line, k) && j <= i + k) ==> pos < i + |line|
  {
    AtParts(s, i, line, CRLF);
    AtChar(s, i + |line|, CRLF, 0);
    FindIsFirst(s, CRLF, j);
    pos := Find(s, CRLF, j).value;
    AtChar(s, pos, CRLF, 1);
    if k :| BreakAt(line, k) && j <= i + k { BreakStands(s, i, line, k); }
  }

  lemma {:induction false} BreakStands(s: string, i: nat, line: string, k: nat)
    requires At(s, i, line) && BreakAt(line, k)
    ensures At(s, i + k, CRLF)
  {
    AtIsSlice(s, i, line);
    assert s[i + k] == s[i..i + |line|][k] && s[i + k + 1] == s[i..i + |line|][k + 1];
    assert s[i + k..i + k + 2] == CRLF;
    AtIsSlice(s, i + k, CRLF);
  }

  /** One folded header is enough for the loop to stop too often. */
  lemma {:induction false} FoldedCounts(s: string, i: nat, headers: seq<Header>, n: nat, end: nat)
    requires n <= |headers| && !Unfolded(headers, n) && LinesAt(s, i, headers, n) && end == i + SizeOf(headers, n)
    ensures |Starts(s, i, end)| > |headers| - n
    decreases |headers| - n
  {
    if NoBreak(RenderHeader(headers[n])) {
      var line := i + |RenderHeader(headers[n])|;
      LineEnds(s, i, RenderHeader(headers[n]));
      AtParts(s, i, RenderHeader(headers[n]), CRLF);
      FoldedCounts(s, line + 2, headers, n + 1, end);
      StartsStep(s, i, line, end);
    } else {
      var k :| BreakAt(RenderHeader(headers[n]), k);
      assert i <= i + k;
      StartsCount(s, i, i, headers, n, end);
    }
  }

  ghost predicate AllValued(headers: seq<Header>) { forall k | 0 <= k < |headers| :: headers[k].value != "" }

  /** The loop over the headers gives every header, in order, exactly when none is folded and no value is
      empty. When none is folded it still stops once at each, and an assertion fails at the empty values. */
  lemma {:induction false} HeadersRead(s: string, i: nat, headers: seq<Header>, end: nat)
    requires AreHeaders(headers) && LinesAt(s, i, headers, 0) && end == i + SizeOf(headers, 0)
    ensures ReadAs(s, Starts(s, i, end), headers, 0) <==> Unfolded(headers, 0) && AllValued(headers)
    ensures Unfolded(headers, 0) ==> MeetAs(s, Starts(s, i, end), headers, 0)
  {
    var starts := Starts(s, i, end);
    if Unfolded(headers, 0) {
      HeadersMeet(s, i, headers, 0, end);
      MeetIsRead(s, starts, headers);
    } else {
      FoldedCounts(s, i, headers, 0, end);
    }
  }

  lemma {:induction false} MeetIsRead(s: string, starts: seq<nat>, headers: seq<Header>)
    requires MeetAs(s, starts, headers, 0)
    ensures ReadAs(s, starts, headers, 0) <==> AllValued(headers)
  {
    if ReadAs(s, starts, headers, 0) {
      forall k | 0 <= k < |headers| ensures headers[k].value != "" {
        assert ReadsAs(s, starts[k], headers[0 + k]) && Meets(s, starts[k], headers[0 + k]);
      }
    }
  }

  /** The first empty line is the one after the headers, folded or not. */
  lemma {:induction false} EmptyLineFound(s: string, i: nat, line: string, headers: seq<Header>, n: nat)
    requires n <= |headers| && AreHeaders(headers) && IsFolded(line)
    requires At(s, i, line + CRLF) && LinesAt(s, i + |line| + 2, headers, n)
    requires At(s, i + |line| + 2 + SizeOf(headers, n), CRLF)
    ensures Find(s, CRLF2, i) == Some(i + |line| + SizeOf(headers, n))
    decreases |headers| - n
  {
    var end := i + |line|;
    LineHasNoEmptyLine(s, i, line);
    if n == |headers| {
      TwoBreaks(s, end);
    } else {
      LineIsNotEmpty(s, end, headers[n]);
      HeaderIsFolded(headers[n]);
      EmptyLineFound(s, end + 2, RenderHeader(headers[n]), headers, n + 1);
    }
  }

  lemma {:induction false} TwoBreaks(s: string, end: nat)
    requires At(s, end, CRLF) && At(s, end + 2, CRLF)
    ensures Find(s, CRLF2, end) == Some(end)
  {
    AtJoins(s, end, CRLF, CRLF);
    assert CRLF + CRLF == CRLF2;
  }

  lemma {:induction false} LineHasNoEmptyLine(s: string, i: nat, line: string)
    requires IsFolded(line) && At(s, i, line + CRLF)
    ensures Find(s, CRLF2, i) == Find(s, CRLF2, i + |line|) && At(s, i + |line|, CRLF)
  {
    AtParts(s, i, line, CRLF);
    forall k | i <= k < i + |line| ensures !At(s, k, CRLF2) {
      FoldIsNotEmptyLine(s, i, line, k);
    }
    FindSkips(s, CRLF2, i, i + |line|);
  }

  lemma {:induction false} AtJoins(s: string, i: nat, a: string, b: string)
    requires At(s, i, a) && At(s, i + |a|, b)
    ensures At(s, i, a + b)
    decreases a
  {
    if a == [] {
      assert a + b == b;
    } else {
      AtJoins(s, i + 1, a[1..], b);
      assert (a + b)[1..] == a[1..] + b;
    }
  }

  /** A break inside of the line is followed by a blank, and the last character by the break at its end. */
  lemma {:induction false} FoldIsNotEmptyLine(s: string, i: nat, line: string, k: nat)
    requires IsFolded(line) && At(s, i, line) && At(s, i + |line|, CRLF) && i <= k < i + |line|
    ensures !At(s, k, CRLF2)
  {
    AtChar(s, i, line, k - i);
    AtChar(s, i + |line|, CRLF, 0);
    if k + 1 < i + |line| { AtChar(s, i, line, k + 1 - i); }
    if k + 1 == i + |line| || s[k + 1] != '\n' {
      NotAt(s, k, CRLF2, 1);
    } else if s[k] != '\r' {
      NotAt(s, k, CRLF2, 0);
    } else {
      assert BreakAt(line, k - i);
      AtChar(s, i, line, k - i + 2);
      NotAt(s, k, CRLF2, 2);
    }
  }

  /** A header follows, so no empty line begins here. */
  lemma {:induction false} LineIsNotEmpty(s: string, end: nat, h: Header)
    requires IsHeader(h) && At(s, end, CRLF) && At(s, end + 2, RenderHeader(h) + CRLF)
    ensures Find(s, CRLF2, end) == Find(s, CRLF2, end + 2)
  {
    HeaderBegins(h);
    AtChar(s, end + 2, RenderHeader(h) + CRLF, 0);
    AtChar(s, end, CRLF, 1);
    NotAt(s, end, CRLF2, 2);
    NotAt(s, end + 1, CRLF2, 0);
    FindSkips(s, CRLF2, end, end + 2);
  }

  // ---- The request line ------------------------------------------------------------------------------

  /** The parts of the request line stand one after the other. */
  predicate LineStands(s: string, i: nat, r: Request) {
    var gap1 := i + |r.verb|;
    var uri := gap1 + |r.gap1|;
    var gap2 := uri + |r.uri|;
    var version := gap2 + |r.gap2|;
    && At(s, i, r.verb) && At(s, gap1, r.gap1) && At(s, uri, r.uri) && At(s, gap2, r.gap2)
    && At(s, version, r.version) && At(s, version + |r.version|, r.tail)
    && At(s, version + |r.version| + |r.tail|, CRLF)
  }

  function LineSize(r: Request): nat { |r.verb| + |r.gap1| + |r.uri| + |r.gap2| + |r.version| + |r.tail| }

  lemma {:induction false} LineParts(s: string, i: nat, r: Request)
    requires At(s, i, RenderLine(r) + CRLF)
    ensures LineStands(s, i, r) && |RenderLine(r)| == LineSize(r)
  {
    AtParts(s, i, RenderLine(r), CRLF);
    AtParts(s, i, r.verb + r.gap1 + r.uri + r.gap2 + r.version, r.tail);
    AtParts(s, i, r.verb + r.gap1 + r.uri + r.gap2, r.version);
    AtParts(s, i, r.verb + r.gap1 + r.uri, r.gap2);
    AtParts(s, i, r.verb + r.gap1, r.uri);
    AtParts(s, i, r.verb, r.gap1);
  }

  lemma {:induction false} LineIsLine(r: Request)
    requires IsLine(r)
    ensures NoBreak(RenderLine(r)) && |RenderLine(r)| == LineSize(r)
  {
    BlanksTrim(r.gap1);
    BlanksTrim(r.gap2);
    BlanksTrim(r.tail);
    NoBreakConcat(r.verb, r.gap1);
    NoBreakConcat(r.verb + r.gap1, r.uri);
    NoBreakConcat(r.verb + r.gap1 + r.uri, r.gap2);
    NoBreakConcat(r.verb + r.gap1 + r.uri + r.gap2, r.version);
    NoBreakConcat(r.verb + r.gap1 + r.uri + r.gap2 + r.version, r.tail);
  }

  lemma {:induction false} FindLastSkips(s: string, t: string, i: nat, from: nat)
    requires i <= from && forall k | i < k <= from :: !At(s, k, t)
    ensures FindLast(s, t, from) == FindLast(s, t, i)
    decreases from
  {
    if i < from { FindLastSkips(s, t, i, from - 1); }
  }

  lemma {:induction false} FindsVersion(s: string, i: nat, version: string)
    requires IsVersion(version) && At(s, i, version)
    ensures FindLast(s, "HTTP", i + |version| - 1) == Some(i)
  {
    assert version == version[..4] + version[4..];
    AtParts(s, i, version[..4], version[4..]);
    forall k | i < k <= i + |version| - 1 ensures !At(s, k, "HTTP") {
      AtChar(s, i, version, k - i);
      assert version[k - i] != 'H' by {
        if k - i < 4 { assert version[k - i] == "HTTP"[k - i]; } else { assert version[k - i] == version[4..][k - i - 4]; }
      }
      NotAt(s, k, "HTTP", 0);
    }
    FindLastSkips(s, "HTTP", i, i + |version| - 1);
  }

  lemma {:induction false} UriFound(s: string, gap1: nat, uri: nat, uriEnd: nat, version: nat, requestEnd: nat)
    requires gap1 < uri <= uriEnd < version && version > 1 && version < |s|
    requires TrimLeft(s, gap1) == uri && FindLast(s, "HTTP", requestEnd) == Some(version) && TrimRight(s, version - 1) == uriEnd
    ensures UriBounds(s, gap1, requestEnd) == Some((uri, uriEnd))
  {
  }

  lemma {:induction false} UriRead(s: string, gap1: nat, r: Request)
    requires IsLine(r) && At(s, gap1, r.gap1) && gap1 > 0
    requires var uri := gap1 + |r.gap1|;
             At(s, uri, r.uri) && At(s, uri + |r.uri|, r.gap2) && At(s, uri + |r.uri| + |r.gap2|, r.version)
    ensures var uri := gap1 + |r.gap1|;
            UriBounds(s, gap1, uri + |r.uri| + |r.gap2| + |r.version| - 1) == Some((uri, uri + |r.uri| - 1))
  {
    var uri := gap1 + |r.gap1|;
    var version := uri + |r.uri| + |r.gap2|;
    FieldIsReached(s, gap1, r.gap1, r.uri);
    FindsVersion(s, version, r.version);
    TrimsBack(s, uri, r.uri, r.gap2, version - 1);
    UriFound(s, gap1, uri, uri + |r.uri| - 1, version, version + |r.version| - 1);
  }

  lemma {:induction false} RequestLineFound(s: string, i: nat, gap1: nat, uri: (nat, nat), requestEnd: nat, headerBegin: nat)
    requires i < gap1 < headerBegin && gap1 < |s| && !IsTrim(s[i])
    requires Find(s, " ", i) == Some(gap1) && UriBounds(s, gap1, requestEnd) == Some(uri)
    ensures RequestLine(s, i, requestEnd, headerBegin) == Some((gap1 - 1, uri.0, uri.1))
  {
  }

  lemma {:induction false} RequestEnds(s: string, version: nat, r: Request)
    requires IsVersion(r.version) && IsBlank(r.tail)
    requires At(s, version, r.version) && At(s, version + |r.version|, r.tail)
    requires At(s, version + |r.version| + |r.tail|, CRLF)
    ensures TrimRight(s, version + |r.version| + |r.tail|) == version + |r.version| - 1
  {
    var line := version + |r.version| + |r.tail|;
    AtChar(s, line, CRLF, 0);
    TrimsBack(s, version, r.version, r.tail, line);
  }

  lemma {:induction false} VerbRead(s: string, i: nat, r: Request)
    requires IsLine(r) && At(s, i, r.verb) && At(s, i + |r.verb|, r.gap1)
    ensures i < |s| && !IsTrim(s[i]) && Find(s, " ", i) == Some(i + |r.verb|)
  {
    AtChar(s, i, r.verb, 0);
    SpaceFound(s, i, r);
  }

  lemma {:induction false} SpaceFound(s: string, i: nat, r: Request)
    requires IsLine(r) && At(s, i, r.verb) && At(s, i + |r.verb|, r.gap1)
    ensures Find(s, " ", i) == Some(i + |r.verb|)
  {
    assert r.gap1 == " " + r.gap1[1..];
    AtParts(s, i + |r.verb|, " ", r.gap1[1..]);
    AtJoins(s, i, r.verb, " ");
    FindsChar(s, i, r.verb, ' ');
  }

  // ---- The round trip ----------------------------------------------------------------------------------

  /** What the accessors give for parsed marks: the method, the URI and the body. */
  predicate HasTexts(s: string, o: Offsets, r: Request) {
    && o.requestBegin <= o.methodEnd < |s| && MethodText(s, o) == r.verb
    && o.uriBegin <= o.uriEnd < |s| && UriText(s, o) == r.uri
    && o.bodyBegin <= o.bodyEnd <= |s| && s[o.bodyBegin..o.bodyEnd] == r.body
  }

  /** And a loop over the headers gives every header, in order. */
  predicate Recovers(s: string, o: Offsets, r: Request) {
    HasTexts(s, o, r) && ReadAs(s, Starts(s, o.headerBegin, o.headerEnd), r.headers, 0)
  }

  lemma {:induction false} RenderedParts(r: Request)
    ensures var s, begin := Render(r), |r.lead|;
            var headers := begin + |RenderLine(r)| + 2;
            && At(s, 0, r.lead) && At(s, begin, RenderLine(r) + CRLF)
            && At(s, headers, RenderHeaders(r.headers, 0) + CRLF)
            && At(s, headers + |RenderHeaders(r.headers, 0)| + 2, r.body)
            && |s| == headers + |RenderHeaders(r.headers, 0)| + 2 + |r.body|
  {
    Regroup(r.lead, RenderLine(r), CRLF, RenderHeaders(r.headers, 0), CRLF, r.body);
    FourParts(r.lead, RenderLine(r) + CRLF, RenderHeaders(r.headers, 0) + CRLF, r.body);
  }

  lemma {:induction false} FourParts(a: string, b: string, c: string, d: string)
    ensures var s := a + b + c + d;
            At(s, 0, a) && At(s, |a|, b) && At(s, |a| + |b|, c) && At(s, |a| + |b| + |c|, d)
  {
    var s := a + b + c + d;
    AtIsSlice(s, 0, s);
    AtParts(s, 0, a + b + c, d);
    AtParts(s, 0, a + b, c);
    AtParts(s, 0, a, b);
  }

  lemma {:induction false} Regroup(a: string, b: string, c: string, d: string, e: string, f: string)
    ensures a + b + c + d + e + f == a + (b + c) + (d + e) + f
  {
    assert a + b + c == a + (b + c);
    assert (a + (b + c)) + d + e == (a + (b + c)) + (d + e);
  }

  /** The sections of a request stand one after the other. */
  predicate Standing(s: string, r: Request) {
    var begin := |r.lead|;
    var headers := begin + LineSize(r) + 2;
    var end := headers + SizeOf(r.headers, 0);
    && At(s, 0, r.lead) && LineStands(s, begin, r) && LinesAt(s, headers, r.headers, 0)
    && At(s, end, CRLF) && At(s, end + 2, r.body) && |s| == end + 2 + |r.body|
  }

  lemma {:induction false} RenderedStands(r: Request)
    ensures Standing(Render(r), r) && At(Render(r), |r.lead|, RenderLine(r) + CRLF)
  {
    RenderedParts(r);
    PartsStand(Render(r), r);
  }

  lemma {:induction false} PartsStand(s: string, r: Request)
    requires var headers := |r.lead| + |RenderLine(r)| + 2;
             && At(s, 0, r.lead) && At(s, |r.lead|, RenderLine(r) + CRLF)
             && At(s, headers, RenderHeaders(r.headers, 0) + CRLF)
             && At(s, headers + |RenderHeaders(r.headers, 0)| + 2, r.body)
             && |s| == headers + |RenderHeaders(r.headers, 0)| + 2 + |r.body|
    ensures Standing(s, r)
  {
    var headers := |r.lead| + |RenderLine(r)| + 2;
    LineParts(s, |r.lead|, r);
    AtParts(s, headers, RenderHeaders(r.headers, 0), CRLF);
    HeadersAreLines(s, headers, r.headers, 0);
  }

  lemma {:induction false} LeadSkipped(s: string, r: Request)
    requires IsLead(r.lead) && IsField(r.verb) && At(s, 0, r.lead) && At(s, |r.lead|, r.verb)
    ensures TrimLeft(s, 0) == |r.lead| < |s|
  {
    AtChar(s, |r.lead|, r.verb, 0);
    TrimsLeft(s, 0, r.lead);
  }

  lemma {:induction false} SectionsAre(s: string, begin: nat, line: nat, end: nat)
    requires TrimLeft(s, 0) == begin < |s| && Find(s, CRLF, begin) == Some(line) && Find(s, CRLF2, begin) == Some(end)
    ensures Sections(s) == Some((begin, line, end))
  {
  }

  lemma {:induction false} SectionsFound(s: string, r: Request)
    requires IsRequest(r) && Standing(s, r) && At(s, |r.lead|, RenderLine(r) + CRLF)
    ensures var begin, line := |r.lead|, |r.lead| + LineSize(r);
            Sections(s) == Some((begin, line, line + SizeOf(r.headers, 0)))
  {
    var begin := |r.lead|;
    LineIsLine(r);
    LeadSkipped(s, r);
    LineEnds(s, begin, RenderLine(r));
    EmptyLineFound(s, begin, RenderLine(r), r.headers, 0);
    SectionsAre(s, begin, begin + LineSize(r), begin + LineSize(r) + SizeOf(r.headers, 0));
  }

  lemma {:induction false} ParseFound(s: string, begin: nat, line: nat, end: nat, uri: (nat, nat, nat))
    requires Sections(s) == Some((begin, line, end)) && line <= end
    requires RequestLine(s, begin, TrimRight(s, line), line + 2) == Some(uri)
    ensures Parse(s) == Some(Offsets(begin, TrimRight(s, line), uri.0, uri.1, uri.2, line + 2, end + 2, end + 4, |s|))
  {
  }

  /** Where the marks of a rendered request are, with header lines of that size. */
  function MarksAt(r: Request, size: nat): Offsets
    requires r.verb != [] && r.uri != [] && r.version != []
  {
    var begin := |r.lead|;
    var line, uri := begin + LineSize(r), begin + |r.verb| + |r.gap1|;
    Offsets(begin, uri + |r.uri| + |r.gap2| + |r.version| - 1, begin + |r.verb| - 1, uri, uri + |r.uri| - 1,
            line + 2, line + 2 + size, line + 4 + size, line + 4 + size + |r.body|)
  }

  function MarksOf(r: Request): Offsets
    requires r.verb != [] && r.uri != [] && r.version != []
  {
    MarksAt(r, SizeOf(r.headers, 0))
  }

  /** What the request line gives. */
  predicate LineFound(s: string, r: Request)
    requires r.verb != [] && r.uri != [] && r.version != []
  {
    var begin, line, o := |r.lead|, |r.lead| + LineSize(r), MarksAt(r, 0);
    && begin < line < |s| && !IsTrim(s[begin]) && TrimRight(s, line) == o.requestEnd
    && RequestLine(s, begin, o.requestEnd, line + 2) == Some((o.methodEnd, o.uriBegin, o.uriEnd))
  }

  lemma {:induction false} LineIsFound(s: string, r: Request)
    requires r.verb != [] && r.uri != [] && r.version != []
    requires var begin, line, o := |r.lead|, |r.lead| + LineSize(r), MarksAt(r, 0);
             && begin < |s| && !IsTrim(s[begin]) && Find(s, " ", begin) == Some(o.methodEnd + 1)
             && begin < line < |s| && TrimRight(s, line) == o.requestEnd
             && UriBounds(s, o.methodEnd + 1, o.requestEnd) == Some((o.uriBegin, o.uriEnd))
    ensures LineFound(s, r)
  {
    var o := MarksAt(r, 0);
    RequestLineFound(s, |r.lead|, o.methodEnd + 1, (o.uriBegin, o.uriEnd), o.requestEnd, |r.lead| + LineSize(r) + 2);
  }

  /** The request line gives back the method and the URI. */
  lemma {:induction false} RequestLineReads(s: string, r: Request)
    requires IsLine(r) && LineStands(s, |r.lead|, r)
    ensures LineFound(s, r)
  {
    var gap1 := |r.lead| + |r.verb|;
    RequestEnds(s, gap1 + |r.gap1| + |r.uri| + |r.gap2|, r);
    VerbRead(s, |r.lead|, r);
    UriRead(s, gap1, r);
    LineIsFound(s, r);
  }

  lemma {:induction false} MarksFound(s: string, r: Request, size: nat)
    requires r.verb != [] && r.uri != [] && r.version != [] && LineFound(s, r)
    requires |s| == |r.lead| + LineSize(r) + 4 + size + |r.body|
    requires Sections(s) == Some((|r.lead|, |r.lead| + LineSize(r), |r.lead| + LineSize(r) + size))
    ensures Parse(s) == Some(MarksAt(r, size))
  {
    var line, o := |r.lead| + LineSize(r), MarksAt(r, size);
    ParseFound(s, |r.lead|, line, line + size, (o.methodEnd, o.uriBegin, o.uriEnd));
  }

  lemma {:induction false} TextsFound(s: string, r: Request, size: nat)
    requires r.verb != [] && r.uri != [] && r.version != []
    requires At(s, |r.lead|, r.verb) && At(s, |r.lead| + |r.verb| + |r.gap1|, r.uri)
    requires At(s, |r.lead| + LineSize(r) + 4 + size, r.body)
    ensures HasTexts(s, MarksAt(r, size), r)
  {
    AtIsSlice(s, |r.lead|, r.verb);
    AtIsSlice(s, |r.lead| + |r.verb| + |r.gap1|, r.uri);
    AtIsSlice(s, |r.lead| + LineSize(r) + 4 + size, r.body);
  }

  lemma {:induction false} StandingLine(s: string, r: Request)
    requires Standing(s, r)
    ensures LineStands(s, |r.lead|, r) && |s| == |r.lead| + LineSize(r) + 4 + SizeOf(r.headers, 0) + |r.body|
  {
  }

  lemma {:induction false} LineParses(s: string, r: Request, size: nat)
    requires IsLine(r) && LineStands(s, |r.lead|, r) && |s| == |r.lead| + LineSize(r) + 4 + size + |r.body|
    requires Sections(s) == Some((|r.lead|, |r.lead| + LineSize(r), |r.lead| + LineSize(r) + size))
    ensures Parse(s) == Some(MarksAt(r, size))
  {
    RequestLineReads(s, r);
    MarksFound(s, r, size);
  }

  lemma {:induction false} StandingLines(s: string, r: Request)
    requires Standing(s, r) && r.verb != [] && r.uri != [] && r.version != []
    ensures LinesAt(s, MarksOf(r).headerBegin, r.headers, 0)
    ensures MarksOf(r).headerEnd == MarksOf(r).headerBegin + SizeOf(r.headers, 0)
  {
  }

  lemma {:induction false} StandingTexts(s: string, r: Request)
    requires Standing(s, r) && r.verb != [] && r.uri != [] && r.version != []
    ensures HasTexts(s, MarksOf(r), r)
  {
    TextsFound(s, r, SizeOf(r.headers, 0));
  }

  lemma {:induction false} ParseIsFound(r: Request)
    requires IsRequest(r)
    ensures Parse(Render(r)) == Some(MarksOf(r)) && HasTexts(Render(r), MarksOf(r), r)
  {
    RenderedStands(r);
    StandingParses(Render(r), r);
    StandingTexts(Render(r), r);
  }

  lemma {:induction false} StandingParses(s: string, r: Request)
    requires IsRequest(r) && Standing(s, r) && At(s, |r.lead|, RenderLine(r) + CRLF)
    ensures Parse(s) == Some(MarksOf(r))
  {
    SectionsFound(s, r);
    StandingLine(s, r);
    LineParses(s, r, SizeOf(r.headers, 0));
  }

  /** What a loop over the headers of a rendered request stops at. */
  function StartsOf(r: Request): seq<nat>
    requires r.verb != [] && r.uri != [] && r.version != []
  {
    Starts(Render(r), MarksOf(r).headerBegin, MarksOf(r).headerEnd)
  }

  lemma {:induction false} HeadersAreFound(r: Request)
    requires IsRequest(r)
    ensures ReadAs(Render(r), StartsOf(r), r.headers, 0) <==> Unfolded(r.headers, 0) && AllValued(r.headers)
    ensures Unfolded(r.headers, 0) ==> MeetAs(Render(r), StartsOf(r), r.headers, 0)
  {
    RenderedStands(r);
    StandingLines(Render(r), r);
    HeadersRead(Render(r), MarksOf(r).headerBegin, r.headers, MarksOf(r).headerEnd);
  }

  /** Every well-formed request parses, with the method, the URI and the body it was made of. A loop over
      the headers gives back every header, in order, exactly when no header is folded and no value is
      empty; when none is folded it stops once at each header, and an assertion fails at exactly those
      whose value is empty. */
  lemma {:induction false} ParseRecovers(r: Request)
    requires IsRequest(r)
    ensures Parse(Render(r)) == Some(MarksOf(r)) && HasTexts(Render(r), MarksOf(r), r)
    ensures Recovers(Render(r), MarksOf(r), r) <==> Unfolded(r.headers, 0) && AllValued(r.headers)
    ensures Unfolded(r.headers, 0) ==> MeetAs(Render(r), StartsOf(r), r.headers, 0)
  {
    ParseIsFound(r);
    HeadersAreFound(r);
  }

  // ---- Two requests that are not given back ------------------------------------------------------------

  /** "GET / HTTP/1.1" with one header. */
  function Get(h: Header): Request { Request("", "GET", " ", "/", " ", "HTTP/1.1", "", [h], "") }

  lemma {:induction false} GetRecovers(h: Header)
    requires IsHeader(h)
    ensures IsRequest(Get(h)) && Parse(Render(Get(h))) == Some(MarksOf(Get(h)))
    ensures Recovers(Render(Get(h)), MarksOf(Get(h)), Get(h)) <==> NoBreak(RenderHeader(h)) && h.value != ""
    ensures NoBreak(RenderHeader(h)) ==>
              MeetAs(Render(Get(h)), StartsOf(Get(h)), [h], 0)
  {
    GetIsRequest(h);
    OneHeader(h);
    ParseRecovers(Get(h));
  }

  lemma {:induction false} GetIsRequest(h: Header)
    requires IsHeader(h)
    ensures IsRequest(Get(h))
  {
    assert "HTTP/1.1"[..4] == "HTTP" && "HTTP/1.1"[4..] == "/1.1";
  }

  lemma {:induction false} OneHeader(h: Header)
    ensures Unfolded([h], 0) <==> NoBreak(RenderHeader(h))
    ensures AllValued([h]) <==> h.value != ""
  {
    assert [h][0] == h;
  }

  lemma {:induction false} EmptyValueIsMet(s: string, starts: seq<nat>, h: Header)
    requires MeetAs(s, starts, [h], 0) && h.value == ""
    ensures |starts| == 1 && starts[0] <= |s| && HeaderAt(s, starts[0]) == None
  {
    assert Meets(s, starts[0], [h][0 + 0]);
  }

  lemma {:induction false} EmptyValueIsAllowed(h: Header)
    requires h == Header("X", "", "", "", "")
    ensures IsHeader(h) && RenderHeader(h) == "X:" && NoBreak(RenderHeader(h))
  {
  }

  /** The header line "X:" is allowed, and its assertion fails. */
  lemma {:induction false} EmptyValueExample(h: Header)
    requires h == Header("X", "", "", "", "")
    ensures RenderHeader(h) == "X:" && IsRequest(Get(h)) && Parse(Render(Get(h))) == Some(MarksOf(Get(h)))
    ensures var starts := StartsOf(Get(h));
            |starts| == 1 && starts[0] <= |Render(Get(h))| && HeaderAt(Render(Get(h)), starts[0]) == None
  {
    EmptyValueIsAllowed(h);
    GetRecovers(h);
    EmptyValueIsMet(Render(Get(h)), StartsOf(Get(h)), h);
  }

  /** The value "a", folded with "b", is allowed, and it is not given back. */
  lemma {:induction false} FoldedValueExample(h: Header)
    requires h == Header("X", "", " ", "a\r\n b", "")
    ensures IsRequest(Get(h)) && !Recovers(Render(Get(h)), MarksOf(Get(h)), Get(h))
  {
    assert BreakAt(h.value, 1) && forall k :: BreakAt(h.value, k) ==> k == 1;
    GetRecovers(h);
    if NoBreak(RenderHeader(h)) { UnbrokenIsInLine(h); }
  }
}
