/** Where the captures of Server/ServerREST.cpp begin and end, and which URIs reach a pattern. */
module RestMatches {
  import opened Basics
  import opened RestRoutes

  // ---- One match ----------------------------------------------------------------------------------------

  /** A run of digits from "begin" to "end" that cannot be made longer. */
  predicate IsDigitRun(s: string, begin: nat, end: nat) {
    && begin < end <= |s| && (forall k | begin <= k < end :: IsDigit(s[k]))
    && (end < |s| ==> !IsDigit(s[end]))
  }

  predicate IsSign(c: char) { c == '-' || c == '+' }

  /** A number from "begin" to "end" that cannot be made longer. */
  predicate IsNumber(s: string, signed: bool, begin: nat, end: nat)
    requires begin < |s|
  {
    if signed && IsSign(s[begin]) then IsDigitRun(s, begin + 1, end) else IsDigitRun(s, begin, end)
  }

  /** The node at "p" matches nothing at "index", or a match that ends at 0, which counts as none. */
  predicate NothingAt(nodes: set<Path>, p: Path, s: string, index: nat)
    requires p in nodes && index < |s|
  {
    var n := NextMatch(nodes, p, s, index);
    n.NoMatch? || n.end == 0
  }

  /** "end" is the first position from "index" on at which the node at "p" finds something, or the end of the
      text if there is none. */
  ghost predicate IsFirstAt(nodes: set<Path>, p: Path, s: string, index: nat, end: nat)
    requires p in nodes
  {
    && index <= end <= |s|
    && (forall k | index <= k < end :: NothingAt(nodes, p, s, k))
    && (end < |s| ==> !NothingAt(nodes, p, s, end))
  }

  lemma {:induction false} DigitsEndIsRun(s: string, index: nat)
    requires index <= |s|
    ensures var end := DigitsEnd(s, index);
            && (forall k | index <= k < end :: IsDigit(s[k])) && (end < |s| ==> !IsDigit(s[end]))
    decreases |s| - index
  {
    if index < |s| && IsDigit(s[index]) { DigitsEndIsRun(s, index + 1); }
  }

  lemma {:induction false} OneDigitRun(s: string, begin: nat, end: nat)
    requires begin <= |s| && IsDigitRun(s, begin, end)
    ensures end == DigitsEnd(s, begin)
    decreases end - begin
  {
    DigitsEndIsRun(s, begin);
  }

  lemma {:induction false} ScanIsFirst(nodes: set<Path>, child: Path, s: string, index: nat)
    requires child in nodes && index < |s|
    ensures IsFirstAt(nodes, child, s, index, ScanString(nodes, child, s, index))
    decreases |s| - index
  {
    if First(NextMatch(nodes, child, s, index)) == 0 && index + 1 < |s| {
      ScanIsFirst(nodes, child, s, index + 1);
    }
  }

  /** getNextMatch tries four kinds of keys in this order: the character itself; INT and UINT, where a number
      starts, up to its last digit; STRING, up to where the node behind it first finds something. */
  lemma {:induction false} NextMeans(nodes: set<Path>, p: Path, s: string, index: nat, n: Next)
    requires p in nodes && index < |s|
    ensures n == NextMatch(nodes, p, s, index) <==>
            var byChar, byInt, byUint, byString := p + [Char(s[index])], p + [Cap(INT)], p + [Cap(UINT)], p + [Cap(STRING)];
            if byChar in nodes then n == Match(index + 1, byChar, None)
            else if byInt in nodes && exists end :: IsNumber(s, true, index, end) then
              n.Match? && n == Match(n.end, byInt, Some(INT)) && IsNumber(s, true, index, n.end)
            else if byUint in nodes && exists end :: IsNumber(s, false, index, end) then
              n.Match? && n == Match(n.end, byUint, Some(UINT)) && IsNumber(s, false, index, n.end)
            else if byString in nodes then
              n.Match? && n == Match(n.end, byString, Some(STRING)) && IsFirstAt(nodes, byString, s, index, n.end)
            else n == NoMatch
  {
    NumberEnds(s, true, index);
    NumberEnds(s, false, index);
    if p + [Cap(STRING)] in nodes {
      ScanIsFirst(nodes, p + [Cap(STRING)], s, index);
      if n.Match? && IsFirstAt(nodes, p + [Cap(STRING)], s, index, n.end) {
        OneFirst(nodes, p + [Cap(STRING)], s, index, n.end, ScanString(nodes, p + [Cap(STRING)], s, index));
      }
    }
  }

  lemma {:induction false} OneFirst(nodes: set<Path>, p: Path, s: string, index: nat, i: nat, j: nat)
    requires p in nodes && IsFirstAt(nodes, p, s, index, i) && IsFirstAt(nodes, p, s, index, j)
    ensures i == j
  {
  }

  /** Where a number starts, and where it ends. */
  lemma {:induction false} NumberEnds(s: string, signed: bool, index: nat)
    requires index < |s|
    ensures var begin := if signed then SignEnd(s, index) else index;
            && ((exists end :: IsNumber(s, signed, index, end)) <==> DigitsEnd(s, begin) > begin)
            && forall end | IsNumber(s, signed, index, end) :: end == DigitsEnd(s, begin)
  {
    var begin := if signed then SignEnd(s, index) else index;
    DigitsEndIsRun(s, begin);
    if DigitsEnd(s, begin) > begin { assert IsNumber(s, signed, index, DigitsEnd(s, begin)); }
    forall end | IsNumber(s, signed, index, end) ensures end == DigitsEnd(s, begin) {
      OneDigitRun(s, begin, end);
    }
  }

  // ---- A tree of one pattern -------------------------------------------------------------------------------

  /** Every STRING capture is followed by a character, or ends the pattern. */
  predicate Separated(path: Path) {
    forall i | 0 <= i < |path| - 1 && path[i] == Cap(STRING) :: path[i + 1].Char?
  }

  /** The texts can be told apart where they are filled in: a STRING does not hold the character that follows it,
      and is not empty at the end; a number has the shape of one, and no digit follows it. */
  predicate Distinguished(path: Path, texts: seq<string>)
    requires |texts| == Captures(path)
    decreases path
  {
    if path == [] then true
    else match path[0]
      case Char(_) => Distinguished(path[1..], texts)
      case Cap(_) =>
        FirstDistinguished(path, texts) && Distinguished(path[1..], texts[1..])
  }

  predicate FirstDistinguished(path: Path, texts: seq<string>)
    requires path != [] && path[0].Cap? && |texts| == Captures(path)
  {
    var text, after := texts[0], Substitute(path[1..], texts[1..]);
    if path[0].capture != STRING then HasShape(path[0].capture, text) && (after == [] || !IsDigit(after[0]))
    else if path[1..] == [] then text != []
    else path[1].Char? ==> path[1].c !in text
  }

  /** The spans of the texts in the text that they are filled into. */
  function SpansFrom(path: Path, texts: seq<string>, from: nat): seq<Span>
    requires |texts| == Captures(path)
    decreases path
  {
    if path == [] then []
    else match path[0]
      case Char(_) => SpansFrom(path[1..], texts, from + 1)
      case Cap(capture) =>
        [Span(from, from + |texts[0]|, capture)] + SpansFrom(path[1..], texts[1..], from + |texts[0]|)
  }

  /** Below a prefix of the one pattern, there is its next key only. */
  lemma {:induction false} OnlyChild(path: Path, k: nat, key: Key)
    requires k <= |path|
    ensures path[..k] in Prefixes(path)
    ensures path[..k] + [key] in Prefixes(path) <==> k < |path| && path[k] == key
  {
    if path[..k] + [key] in Prefixes(path) {
      var j :| 0 <= j <= |path| && path[..k] + [key] == path[..j];
      assert j == k + 1 && path[..j][k] == key;
    }
    if k < |path| && path[k] == key { assert path[..k] + [key] == path[..k + 1]; }
  }

  lemma {:induction false} NextOfChar(path: Path, k: nat, s: string, index: nat)
    requires k < |path| && path[k].Char? && index < |s|
    ensures path[..k] in Prefixes(path)
    ensures NextMatch(Prefixes(path), path[..k], s, index) ==
            if s[index] == path[k].c then Match(index + 1, path[..k + 1], None) else NoMatch
  {
    OnlyChild(path, k, Char(s[index]));
    OnlyChild(path, k, Cap(INT));
    OnlyChild(path, k, Cap(UINT));
    OnlyChild(path, k, Cap(STRING));
    assert path[..k] + [path[k]] == path[..k + 1];
  }

  lemma {:induction false} NextAtEnd(path: Path, s: string, index: nat)
    requires index < |s|
    ensures path in Prefixes(path) && NextMatch(Prefixes(path), path, s, index) == NoMatch
  {
    assert path[..|path|] == path;
    OnlyChild(path, |path|, Char(s[index]));
    OnlyChild(path, |path|, Cap(INT));
    OnlyChild(path, |path|, Cap(UINT));
    OnlyChild(path, |path|, Cap(STRING));
  }

  /** A number, up to its last digit. */
  lemma {:induction false} NextOfNumber(path: Path, k: nat, s: string, index: nat, end: nat)
    requires k < |path| && path[k].Cap? && path[k].capture != STRING && index < |s|
    ensures path[..k] in Prefixes(path)
    ensures NextMatch(Prefixes(path), path[..k], s, index) == Match(end, path[..k + 1], Some(path[k].capture))
            <==> IsNumber(s, path[k] == Cap(INT), index, end)
  {
    OnlyChild(path, k, Char(s[index]));
    OnlyChild(path, k, Cap(INT));
    OnlyChild(path, k, Cap(UINT));
    OnlyChild(path, k, Cap(STRING));
    assert path[..k] + [path[k]] == path[..k + 1];
    NextMeans(Prefixes(path), path[..k], s, index, NextMatch(Prefixes(path), path[..k], s, index));
    NumberEnds(s, path[k] == Cap(INT), index);
  }

  /** Behind a STRING, the next character of the pattern is found, and nothing behind the end of the pattern. */
  lemma {:induction false} NothingBehind(path: Path, k: nat, s: string, index: nat)
    requires 0 < k <= |path| && 0 < index < |s| && (k < |path| ==> path[k].Char?)
    ensures path[..k] in Prefixes(path)
    ensures NothingAt(Prefixes(path), path[..k], s, index) <==> k == |path| || s[index] != path[k].c
  {
    if k < |path| {
      NextOfChar(path, k, s, index);
    } else {
      assert path[..k] == path;
      NextAtEnd(path, s, index);
    }
  }

  lemma {:induction false} FirstBehind(path: Path, k: nat, s: string, index: nat, end: nat)
    requires 0 < k <= |path| && 0 < index < |s| && (k < |path| ==> path[k].Char?)
    ensures path[..k] in Prefixes(path)
    ensures IsFirstAt(Prefixes(path), path[..k], s, index, end)
            <==> && index <= end <= |s|
                 && if k == |path| then end == |s| else path[k].c !in s[index..end] && (end < |s| ==> s[end] == path[k].c)
  {
    OnlyChild(path, k, Cap(STRING));
    forall j | index <= j < |s|
      ensures NothingAt(Prefixes(path), path[..k], s, j) <==> k == |path| || s[j] != path[k].c
    {
      NothingBehind(path, k, s, j);
    }
  }

  /** A STRING, up to the first character that follows it in the pattern, or to the end. */
  lemma {:induction false} NextOfString(path: Path, k: nat, s: string, index: nat, end: nat)
    requires k < |path| && path[k] == Cap(STRING) && 0 < index < |s| && (k + 1 < |path| ==> path[k + 1].Char?)
    ensures path[..k] in Prefixes(path)
    ensures NextMatch(Prefixes(path), path[..k], s, index) == Match(end, path[..k + 1], Some(STRING))
            <==> && index <= end <= |s|
                 && if k + 1 == |path| then end == |s|
                    else path[k + 1].c !in s[index..end] && (end < |s| ==> s[end] == path[k + 1].c)
  {
    OnlyChild(path, k, Char(s[index]));
    OnlyChild(path, k, Cap(INT));
    OnlyChild(path, k, Cap(UINT));
    OnlyChild(path, k, Cap(STRING));
    assert path[..k] + [path[k]] == path[..k + 1];
    NextMeans(Prefixes(path), path[..k], s, index, Match(end, path[..k + 1], Some(STRING)));
    FirstBehind(path, k + 1, s, index, end);
  }

  /** A text at "index" is a number that cannot be made longer exactly when it has the shape of one and no digit
      follows. */
  lemma {:induction false} ShapeIsNumber(s: string, capture: Capture, index: nat, end: nat)
    requires index < |s| && index <= end <= |s| && capture != STRING
    ensures IsNumber(s, capture == INT, index, end)
            <==> HasShape(capture, s[index..end]) && (end < |s| ==> !IsDigit(s[end]))
  {
    var text := s[index..end];
    assert forall k | 0 <= k < |text| :: text[k] == s[index + k];
    if AllDigits(text) { assert IsDigit(text[0]); }
    if text != [] {
      assert AllDigits(text) <==> forall k | index <= k < end :: IsDigit(s[k]) by {
        if AllDigits(text) { forall k | index <= k < end ensures IsDigit(s[k]) { assert IsDigit(text[k - index]); } }
      }
      assert text[1..] == s[index + 1..end];
      assert AllDigits(text[1..]) <==> index + 1 < end && forall k | index + 1 <= k < end :: IsDigit(s[k]) by {
        if AllDigits(text[1..]) {
          forall k | index + 1 <= k < end ensures IsDigit(s[k]) { assert IsDigit(text[1..][k - index - 1]); }
        }
      }
    }
  }

  lemma {:induction false} FirstEnds(path: Path, k: nat, s: string, index: nat, texts: seq<string>)
    requires k < |path| && path[k].Cap? && Separated(path) && 0 < index < |s|
    requires |texts| == Captures(path[k..]) && s[index..] == Substitute(path[k..], texts)
    ensures path[..k] in Prefixes(path)
    ensures var end := index + |texts[0]|;
            && end <= |s| && s[index..end] == texts[0] && s[end..] == Substitute(path[k + 1..], texts[1..])
            && (NextMatch(Prefixes(path), path[..k], s, index) == Match(end, path[..k + 1], Some(path[k].capture))
                <==> FirstDistinguished(path[k..], texts))
  {
    var text, after := texts[0], Substitute(path[k + 1..], texts[1..]);
    var end := index + |text|;
    assert path[k..][1..] == path[k + 1..];
    TwoParts(s, index, text, after);
    if path[k] == Cap(STRING) {
      NextOfString(path, k, s, index, end);
      if k + 1 < |path| {
        assert path[k..][1] == path[k + 1] && path[k + 1..][0] == path[k + 1];
      }
    } else {
      NextOfNumber(path, k, s, index, end);
      ShapeIsNumber(s, path[k].capture, index, end);
    }
  }

  lemma {:induction false} TwoParts(s: string, index: nat, text: string, after: string)
    requires index <= |s| && s[index..] == text + after
    ensures var end := index + |text|;
            end <= |s| && s[index..end] == text && s[end..] == after && (after != [] ==> end < |s| && s[end] == after[0])
  {
    var end := index + |text|;
    assert s[index..][..|text|] == text && s[index..][|text|..] == after;
    assert s[index..end] == s[index..][..|text|] && s[end..] == s[index..][|text|..];
  }

  function OneTree(path: Path, callback: Callback): Tree { Tree(Prefixes(path), map[path := callback]) }

  /** From any node of the one pattern. */
  lemma {:induction false} WalkFills(path: Path, callback: Callback, k: nat, s: string, index: nat, spans: seq<Span>, texts: seq<string>)
    requires k <= |path| && Separated(path) && index <= |s| && (index > 0 || (k == 0 && (path == [] || path[0].Char?)))
    requires |texts| == Captures(path[k..]) && s[index..] == Substitute(path[k..], texts)
    requires |spans| + Captures(path[k..]) <= MAX_MATCHES
    ensures path[..k] in Prefixes(path)
    ensures Walk(OneTree(path, callback), s, path[..k], index, spans)
            == Found(callback, path, spans + SpansFrom(path[k..], texts, index))
            <==> Distinguished(path[k..], texts)
    decreases |path| - k
  {
    assert path[..k] in Prefixes(path);
    if k == |path| {
      assert path[..k] == path && path[k..] == [];
      assert spans + [] == spans;
    } else {
      assert path[k..][1..] == path[k + 1..];
      if path[k].Char? {
        WalkFillsChar(path, callback, k, s, index, spans, texts);
      } else {
        WalkFillsCap(path, callback, k, s, index, spans, texts);
      }
    }
  }

  lemma {:induction false} WalkFillsChar(path: Path, callback: Callback, k: nat, s: string, index: nat, spans: seq<Span>, texts: seq<string>)
    requires k < |path| && path[k].Char? && path[k..][1..] == path[k + 1..] && Separated(path) && index <= |s|
    requires |texts| == Captures(path[k..]) && s[index..] == Substitute(path[k..], texts)
    requires |spans| + Captures(path[k..]) <= MAX_MATCHES
    ensures path[..k] in Prefixes(path)
    ensures Walk(OneTree(path, callback), s, path[..k], index, spans)
            == Found(callback, path, spans + SpansFrom(path[k..], texts, index))
            <==> Distinguished(path[k..], texts)
    decreases |path| - k, 0
  {
    TwoParts(s, index, [path[k].c], Substitute(path[k + 1..], texts));
    NextOfChar(path, k, s, index);
    WalkFills(path, callback, k + 1, s, index + 1, spans, texts);
  }

  lemma {:induction false} WalkFillsCap(path: Path, callback: Callback, k: nat, s: string, index: nat, spans: seq<Span>, texts: seq<string>)
    requires k < |path| && path[k].Cap? && path[k..][1..] == path[k + 1..] && Separated(path) && 0 < index <= |s|
    requires |texts| == Captures(path[k..]) && s[index..] == Substitute(path[k..], texts)
    requires |spans| + Captures(path[k..]) <= MAX_MATCHES
    ensures path[..k] in Prefixes(path)
    ensures Walk(OneTree(path, callback), s, path[..k], index, spans)
            == Found(callback, path, spans + SpansFrom(path[k..], texts, index))
            <==> Distinguished(path[k..], texts)
    decreases |path| - k, 0
  {
    assert path[..k] in Prefixes(path);
    if index == |s| {
      NothingToFill(path, k, texts);
      assert path[..k] != path;
    } else {
      FirstEnds(path, k, s, index, texts);
      var t, n := OneTree(path, callback), NextMatch(Prefixes(path), path[..k], s, index);
      var end, span := index + |texts[0]|, Span(index, index + |texts[0]|, path[k].capture);
      if FirstDistinguished(path[k..], texts) {
        WalkFills(path, callback, k + 1, s, end, spans + [span], texts[1..]);
        Associative(spans, [span], SpansFrom(path[k + 1..], texts[1..], end));
        assert Walk(t, s, path[..k], index, spans) == Walk(t, s, path[..k + 1], end, spans + [span]);
      } else {
        OtherEnd(path, callback, k, s, index, spans, end, SpansFrom(path[k + 1..], texts[1..], end));
      }
    }
  }

  /** Nothing can be filled into what is left only if a capture is left empty that must not be. */
  lemma {:induction false} NothingToFill(path: Path, k: nat, texts: seq<string>)
    requires k < |path| && path[k].Cap? && Separated(path)
    requires |texts| == Captures(path[k..]) && Substitute(path[k..], texts) == []
    ensures !Distinguished(path[k..], texts)
  {
    assert path[k..][1..] == path[k + 1..];
    assert k + 1 < |path| ==> path[k + 1..][0] == path[k + 1];
  }

  /** A capture that ends elsewhere leads to other spans. */
  lemma {:induction false} OtherEnd(path: Path, callback: Callback, k: nat, s: string, index: nat, spans: seq<Span>, end: nat, more: seq<Span>)
    requires k < |path| && path[k].Cap? && index < |s| && path[..k] in Prefixes(path)
    requires NextMatch(Prefixes(path), path[..k], s, index) != Match(end, path[..k + 1], Some(path[k].capture))
    ensures Walk(OneTree(path, callback), s, path[..k], index, spans)
            != Found(callback, path, spans + ([Span(index, end, path[k].capture)] + more))
  {
    var t := OneTree(path, callback);
    var n := NextMatch(Prefixes(path), path[..k], s, index);
    if n.Match? && Walk(t, s, path[..k], index, spans).Found? {
      NextIsChild(Prefixes(path), path[..k], s, index);
      OnlyChild(path, k, n.node[|path[..k]|]);
      assert path[..k] + [path[k]] == path[..k + 1];
      var span := Span(index, n.end, path[k].capture);
      var rest, others := WalkSpells(t, s, n.node, n.end, spans + [span]);
      assert (spans + [span] + others)[|spans|] == span;
      assert (spans + ([Span(index, end, path[k].capture)] + more))[|spans|] == Span(index, end, path[k].capture);
    }
  }

  lemma {:induction false} OneRegistered(uri: string, callback: Callback, path: Path)
    requires Compile(uri, 0, 0) == Some(path)
    ensures Accepted([Registration(uri, callback)])
    ensures Build(Routes([Registration(uri, callback)])) == OneTree(path, callback)
  {
    var routes := Routes([Registration(uri, callback)]);
    assert routes == [Route(path, callback)] && routes[..0] == [];
    assert path[..0] == [] && {[]} + Prefixes(path) == Prefixes(path);
  }

  /** A pattern that is registered alone and starts with a character: the URI that is the pattern with texts filled
      in reaches its callback with exactly these texts if and only if the texts can be told apart. */
  lemma {:induction false} PatternIsServed(uri: string, callback: Callback, path: Path, texts: seq<string>)
    requires Compile(uri, 0, 0) == Some(path) && path != [] && path[0].Char? && Separated(path)
    requires |texts| == Captures(path)
    ensures var t, s := Build(Routes([Registration(uri, callback)])), Substitute(path, texts);
            && [] in t.nodes
            && (Dispatch(t, s) == Found(callback, path, SpansFrom(path, texts, 0)) <==> Distinguished(path, texts))
  {
    var s := Substitute(path, texts);
    OneRegistered(uri, callback, path);
    CompileBoundsCaptures(uri, 0, 0);
    assert path[0..] == path && s[0..] == s && path[..0] == [];
    assert [] + SpansFrom(path, texts, 0) == SpansFrom(path, texts, 0);
    WalkFills(path, callback, 0, s, 0, [], texts);
  }

  predicate Shows(s: string, span: Span, text: string) {
    span.begin <= span.end <= |s| && s[span.begin..span.end] == text
  }

  predicate ShowAll(s: string, spans: seq<Span>, texts: seq<string>) {
    |spans| == |texts| && forall k | 0 <= k < |spans| :: Shows(s, spans[k], texts[k])
  }

  lemma {:induction false} ShowAllCons(s: string, span: Span, spans: seq<Span>, texts: seq<string>)
    requires texts != [] && Shows(s, span, texts[0]) && ShowAll(s, spans, texts[1..])
    ensures ShowAll(s, [span] + spans, texts)
  {
  }

  /** These spans show the texts. */
  lemma {:induction false} SpansShowTexts(path: Path, texts: seq<string>, s: string, from: nat)
    requires from <= |s| && |texts| == Captures(path) && s[from..] == Substitute(path, texts)
    ensures ShowAll(s, SpansFrom(path, texts, from), texts)
    decreases path
  {
    if path != [] {
      match path[0]
      case Char(c) =>
        TwoParts(s, from, [c], Substitute(path[1..], texts));
        SpansShowTexts(path[1..], texts, s, from + 1);
      case Cap(capture) =>
        var end := from + |texts[0]|;
        TwoParts(s, from, texts[0], Substitute(path[1..], texts[1..]));
        SpansShowTexts(path[1..], texts[1..], s, end);
        ShowAllCons(s, Span(from, end, capture), SpansFrom(path[1..], texts[1..], end), texts);
    }
  }

  /** The route "/a/{STRING}/b" serves "/a/x/b" with "x". */
  lemma {:induction false} StringExample(callback: Callback)
    ensures Accepted([Registration("/a/{STRING}/b", callback)])
    ensures var t := Build(Routes([Registration("/a/{STRING}/b", callback)]));
            [] in t.nodes &&
            var o := Dispatch(t, "/a/x/b");
            o.Found? && o.callback == callback && o.spans == [Span(3, 4, STRING)]
  {
    var path := [Char('/'), Char('a'), Char('/'), Cap(STRING), Char('/'), Char('b')];
    ExampleCompiles(path);
    ExampleFills(path);
    OneRegistered("/a/{STRING}/b", callback, path);
    PatternIsServed("/a/{STRING}/b", callback, path, ["x"]);
  }

  lemma {:induction false} ExampleCompiles(path: Path)
    requires path == [Char('/'), Char('a'), Char('/'), Cap(STRING), Char('/'), Char('b')]
    ensures Compile("/a/{STRING}/b", 0, 0) == Some(path)
  {
    var p := Part("/a/", STRING, Tail("/b"));
    ExampleRenders(p);
    RenderCompiles(p, "", 0);
    LiteralOf("/b", [Char('/'), Char('b')]);
    LiteralOf("/a/", [Char('/'), Char('a'), Char('/')]);
    assert Keys(p) == Literal("/a/") + [Cap(STRING)] + Literal("/b") == path;
  }

  lemma {:induction false} ExampleRenders(p: Pattern)
    requires p == Part("/a/", STRING, Tail("/b"))
    ensures "" + Render(p) == "/a/{STRING}/b" && PlainTexts(p) && CapturesIn(p) == 1
  {
    assert Render(p) == "/a/" + "{" + "STRING" + "}" + "/b";
  }

  lemma {:induction false} LiteralOf(s: string, keys: Path)
    requires |s| == |keys| && forall i | 0 <= i < |s| :: s[i] != '\0' && keys[i] == Char(s[i])
    ensures Literal(s) == keys
  {
    if s != [] {
      LiteralOf(s[1..], keys[1..]);
      assert keys == [keys[0]] + keys[1..];
    }
  }

  lemma {:induction false} ExampleFills(path: Path)
    requires path == [Char('/'), Char('a'), Char('/'), Cap(STRING), Char('/'), Char('b')]
    ensures Captures(path) == 1 && Substitute(path, ["x"]) == "/a/x/b"
    ensures Distinguished(path, ["x"]) && SpansFrom(path, ["x"], 0) == [Span(3, 4, STRING)]
  {
    var p1, p2, p3, p4, p5 := path[1..], path[2..], path[3..], path[4..], path[5..];
    assert p1[1..] == p2 && p2[1..] == p3 && p3[1..] == p4 && p4[1..] == p5 && p5[1..] == [];
    assert Captures(p5) == 0 && Substitute(p5, []) == "b" && Distinguished(p5, []) && SpansFrom(p5, [], 5) == [];
    assert Captures(p4) == 0 && Substitute(p4, []) == "/b" && Distinguished(p4, []) && SpansFrom(p4, [], 4) == [];
    assert ["x"][1..] == [];
    assert Captures(p3) == 1 && Substitute(p3, ["x"]) == "x/b" && Distinguished(p3, ["x"]);
    assert SpansFrom(p3, ["x"], 3) == [Span(3, 4, STRING)];
    assert Captures(p2) == 1 && Substitute(p2, ["x"]) == "/x/b" && Distinguished(p2, ["x"]);
    assert SpansFrom(p2, ["x"], 2) == [Span(3, 4, STRING)];
    assert Captures(p1) == 1 && Substitute(p1, ["x"]) == "a/x/b" && Distinguished(p1, ["x"]);
    assert SpansFrom(p1, ["x"], 1) == [Span(3, 4, STRING)];
  }
}
