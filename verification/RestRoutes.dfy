/** The routes of Server/ServerREST.cpp on values: the pattern language, the tree of registered
    patterns as the set of its node paths, and the greedy matcher.  */
module RestRoutes {
  import opened Basics

  datatype Capture = INT | UINT | STRING

  /** A key of a node's map, other than the endpoint. */
  datatype Key = Char(c: char) | Cap(capture: Capture)

  /** Callbacks are told apart by number. */
  type Callback = nat

  /** A node is named by the keys that lead to it. */
  type Path = seq<Key>

  const MAX_MATCHES: nat := 10

  // ---- The pattern language --------------------------------------------------------

  function Find(s: string, c: char, index: nat): (pos: nat)
    requires index <= |s|
    ensures index <= pos <= |s|
    ensures forall k | index <= k < pos :: s[k] != c
    ensures pos < |s| ==> s[pos] == c
    decreases |s| - index
  {
    if index == |s| || s[index] == c then index else Find(s, c, index + 1)
  }

  /** A literal is passed on as a C string: it ends at the first null character. */
  function Literal(s: string): (p: Path)
    ensures '\0' !in s ==> |p| == |s|
  {
    if s == [] || s[0] == '\0' then [] else [Char(s[0])] + Literal(s[1..])
  }

  function Preset(s: string): Option<Capture> {
    if s == "INT" then Some(INT) else if s == "UINT" then Some(UINT) else if s == "STRING" then Some(STRING) else None
  }

  /** A "{...}" that starts at "pos": its capture and where the text goes on, None where an assertion
      of addRoute fails. */
  function CompilePreset(uri: string, pos: nat, nbCapture: nat): (r: Option<(Capture, nat)>)
    requires pos < |uri|
    ensures r.Some? ==> pos < r.value.1 <= |uri| && nbCapture < MAX_MATCHES
  {
    var pos2 := Find(uri, '}', pos + 1);
    if pos2 == |uri| || nbCapture >= MAX_MATCHES then None
    else match Preset(uri[pos + 1..pos2])
      case None => None
      case Some(capture) => Some((capture, pos2 + 1))
  }

  /** addRoute: the keys that a pattern walks through. */
  function Compile(uri: string, index: nat, nbCapture: nat): Option<Path>
    requires index <= |uri|
    decreases |uri| - index
  {
    var pos := Find(uri, '{', index);
    var literal := Literal(uri[index..pos]);
    if pos == |uri| then Some(literal)
    else match CompilePreset(uri, pos, nbCapture)
      case None => None
      case Some((capture, next)) =>
        match Compile(uri, next, nbCapture + 1)
        case None => None
        case Some(rest) => Some(literal + [Cap(capture)] + rest)
  }

  function Captures(p: Path): nat {
    if p == [] then 0 else (if p[0].Cap? then 1 else 0) + Captures(p[1..])
  }

  lemma {:induction false} CapturesConcat(p: Path, q: Path)
    ensures Captures(p + q) == Captures(p) + Captures(q)
  {
    if p == [] {
      assert p + q == q;
    } else {
      assert (p + q)[1..] == p[1..] + q;
      CapturesConcat(p[1..], q);
    }
  }

  lemma {:induction false} LiteralHasNoCapture(s: string)
    ensures Captures(Literal(s)) == 0
  {
    if s != [] && s[0] != '\0' {
      LiteralHasNoCapture(s[1..]);
      assert Literal(s)[1..] == Literal(s[1..]);
    }
  }

  /** No pattern that addRoute accepts captures more than MAX_MATCHES times. */
  lemma {:induction false} CompileBoundsCaptures(uri: string, index: nat, nbCapture: nat)
    requires index <= |uri| && nbCapture <= MAX_MATCHES && Compile(uri, index, nbCapture).Some?
    ensures Captures(Compile(uri, index, nbCapture).value) + nbCapture <= MAX_MATCHES == 10
    decreases |uri| - index
  {
    var pos := Find(uri, '{', index);
    LiteralHasNoCapture(uri[index..pos]);
    if pos < |uri| {
      var (capture, next) := CompilePreset(uri, pos, nbCapture).value;
      CompileBoundsCaptures(uri, next, nbCapture + 1);
      OneMoreCapture(Literal(uri[index..pos]), capture, Compile(uri, next, nbCapture + 1).value);
    }
  }

  lemma {:induction false} OneMoreCapture(literal: Path, capture: Capture, rest: Path)
    requires Captures(literal) == 0
    ensures Captures(literal + [Cap(capture)] + rest) == 1 + Captures(rest)
  {
    CapturesConcat(literal + [Cap(capture)], rest);
    CapturesConcat(literal, [Cap(capture)]);
  }

  // ---- The tree -----------------------------------------------------------------------

  /** The tree of one method: the paths of its nodes, and the callback of every endpoint. */
  datatype Tree = Tree(nodes: set<Path>, endpoints: map<Path, Callback>)

  datatype Route = Route(path: Path, callback: Callback)

  function Empty(): Tree { Tree({[]}, map[]) }

  function Prefixes(p: Path): set<Path> {
    set k | 0 <= k <= |p| :: p[..k]
  }

  /** The keys of a pattern are added one below the other; the first callback registered stays. */
  function Insert(t: Tree, r: Route): Tree {
    Tree(t.nodes + Prefixes(r.path), if r.path in t.endpoints then t.endpoints else t.endpoints[r.path := r.callback])
  }

  function Build(routes: seq<Route>): Tree {
    if routes == [] then Empty() else Insert(Build(routes[..|routes| - 1]), routes[|routes| - 1])
  }

  ghost predicate Wf(t: Tree) {
    && [] in t.nodes && t.endpoints.Keys <= t.nodes
    && (forall p | p in t.nodes && p != [] :: p[..|p| - 1] in t.nodes)
    && (forall p | p in t.nodes :: Captures(p) <= MAX_MATCHES)
  }

  // ---- The matcher -----------------------------------------------------------------------

  function Below(nodes: set<Path>, p: Path): set<Path> {
    set q | q in nodes && |q| > |p|
  }

  lemma {:induction false} ChildIsLower(nodes: set<Path>, p: Path, k: Key)
    requires p + [k] in nodes
    ensures Below(nodes, p + [k]) < Below(nodes, p)
  {
    assert p + [k] in Below(nodes, p) && p + [k] !in Below(nodes, p + [k]);
  }

  predicate IsDigit(c: char) { '0' <= c <= '9' }

  /** The first position from "index" on that does not hold a digit. */
  function DigitsEnd(s: string, index: nat): (end: nat)
    requires index <= |s|
    ensures index <= end <= |s| && forall k | index <= k < end :: IsDigit(s[k])
    decreases |s| - index
  {
    if index < |s| && IsDigit(s[index]) then DigitsEnd(s, index + 1) else index
  }

  function SignEnd(s: string, index: nat): (end: nat)
    requires index < |s|
    ensures index <= end <= index + 1
  {
    if s[index] == '-' || s[index] == '+' then index + 1 else index
  }

  /** getNextMatch: {0, nullptr} is NoMatch. */
  datatype Next = NoMatch | Match(end: nat, node: Path, capture: Option<Capture>)

  /** The "first" of the pair returned; 0 stands for "no match" even where there is one. */
  function First(n: Next): nat { if n.NoMatch? then 0 else n.end }

  function NextMatch(nodes: set<Path>, p: Path, s: string, index: nat): (n: Next)
    requires p in nodes && index < |s|
    ensures n.Match? ==> n.node in nodes && index <= n.end <= |s|
    decreases Below(nodes, p), 0
  {
    if p + [Char(s[index])] in nodes then Match(index + 1, p + [Char(s[index])], None)
    else if p + [Cap(INT)] in nodes && DigitsEnd(s, SignEnd(s, index)) > SignEnd(s, index) then
      Match(DigitsEnd(s, SignEnd(s, index)), p + [Cap(INT)], Some(INT))
    else if p + [Cap(UINT)] in nodes && DigitsEnd(s, index) > index then
      Match(DigitsEnd(s, index), p + [Cap(UINT)], Some(UINT))
    else if p + [Cap(STRING)] in nodes then
      ChildIsLower(nodes, p, Cap(STRING));
      Match(ScanString(nodes, p + [Cap(STRING)], s, index), p + [Cap(STRING)], Some(STRING))
    else NoMatch
  }

  /** The text of a STRING capture ends where the node behind it first finds a match. */
  function ScanString(nodes: set<Path>, child: Path, s: string, index: nat): (end: nat)
    requires child in nodes && index < |s|
    ensures index <= end <= |s|
    decreases Below(nodes, child), |s| - index
  {
    if First(NextMatch(nodes, child, s, index)) != 0 then index
    else if index + 1 < |s| then ScanString(nodes, child, s, index + 1)
    else index + 1
  }

  datatype Span = Span(begin: nat, end: nat, capture: Capture)

  /** What handleResponse does: run a callback, answer 404, or trip an assertion. */
  datatype Outcome = NotFound | Found(callback: Callback, path: Path, spans: seq<Span>) | Crash

  function Walk(t: Tree, s: string, p: Path, index: nat, spans: seq<Span>): Outcome
    requires p in t.nodes && index <= |s|
    decreases Below(t.nodes, p)
  {
    if index == |s| then
      if p in t.endpoints then Found(t.endpoints[p], p, spans) else NotFound
    else
      match NextMatch(t.nodes, p, s, index)
      case NoMatch => NotFound
      case Match(end, node, capture) =>
        NextIsChild(t.nodes, p, s, index);
        if capture == None then Walk(t, s, node, end, spans)
        else if end == 0 || |spans| >= MAX_MATCHES then Crash
        else Walk(t, s, node, end, spans + [Span(index, end, capture.value)])
  }

  /** Every match goes one key down. */
  lemma {:induction false} NextIsChild(nodes: set<Path>, p: Path, s: string, index: nat)
    requires p in nodes && index < |s| && NextMatch(nodes, p, s, index).Match?
    ensures var n := NextMatch(nodes, p, s, index);
            && n.node == p + [if n.capture == None then Char(s[index]) else Cap(n.capture.value)]
            && Below(nodes, n.node) < Below(nodes, p)
  {
    var n := NextMatch(nodes, p, s, index);
    ChildIsLower(nodes, p, if n.capture == None then Char(s[index]) else Cap(n.capture.value));
  }

  function Dispatch(t: Tree, s: string): Outcome
    requires [] in t.nodes
  {
    Walk(t, s, [], 0, [])
  }

  // ---- What a dispatch means ----------------------------------------------------------------

  predicate AllDigits(s: string) {
    s != [] && forall k | 0 <= k < |s| :: IsDigit(s[k])
  }

  /** A signed number, a number, or any text. */
  predicate HasShape(capture: Capture, s: string) {
    match capture
    case INT => AllDigits(s) || (s != [] && (s[0] == '-' || s[0] == '+') && AllDigits(s[1..]))
    case UINT => AllDigits(s)
    case STRING => true
  }

  /** Reading "path" along s[from..] consumes it exactly, one span after the other. */
  predicate Spells(path: Path, s: string, from: nat, spans: seq<Span>)
    decreases path
  {
    if path == [] then from == |s| && spans == []
    else match path[0]
      case Char(c) => from < |s| && s[from] == c && Spells(path[1..], s, from + 1, spans)
      case Cap(capture) =>
        && spans != [] && spans[0].begin == from <= spans[0].end <= |s|
        && spans[0].capture == capture && HasShape(capture, s[from..spans[0].end])
        && Spells(path[1..], s, spans[0].end, spans[1..])
  }

  /** A pattern with its captures replaced by texts. */
  function Substitute(path: Path, texts: seq<string>): string
    requires |texts| == Captures(path)
    decreases path
  {
    if path == [] then []
    else match path[0]
      case Char(c) => [c] + Substitute(path[1..], texts)
      case Cap(_) => texts[0] + Substitute(path[1..], texts[1..])
  }

  /** getMatchAsString. */
  function Text(s: string, span: Span): string
    requires span.begin <= span.end <= |s|
  {
    s[span.begin..span.end]
  }

  predicate Ordered(s: string, spans: seq<Span>) {
    && (forall k | 0 <= k < |spans| :: spans[k].begin <= spans[k].end <= |s|)
    && (forall k | 0 < k < |spans| :: spans[k - 1].end <= spans[k].begin)
  }

  function Texts(s: string, spans: seq<Span>): seq<string>
    requires Ordered(s, spans)
  {
    seq(|spans|, k requires 0 <= k < |spans| => Text(s, spans[k]))
  }

  lemma {:induction false} NextHasShape(nodes: set<Path>, p: Path, s: string, index: nat)
    requires p in nodes && index < |s|
    ensures var n := NextMatch(nodes, p, s, index);
            n.Match? ==> if n.capture == None then n.end == index + 1 else HasShape(n.capture.value, s[index..n.end])
  {
    var n := NextMatch(nodes, p, s, index);
    if n.Match? && n.capture == Some(INT) {
      var text := s[index..n.end];
      if SignEnd(s, index) == index + 1 {
        assert text[1..] == s[index + 1..n.end];
      }
    }
  }

  lemma {:induction false} WalkSpells(t: Tree, s: string, p: Path, index: nat, spans: seq<Span>)
      returns (rest: Path, more: seq<Span>)
    requires p in t.nodes && index <= |s| && Walk(t, s, p, index, spans).Found?
    ensures var o := Walk(t, s, p, index, spans);
            && o.path == p + rest && o.spans == spans + more
            && o.path in t.endpoints && o.callback == t.endpoints[o.path]
            && Spells(rest, s, index, more)
    decreases Below(t.nodes, p)
  {
    if index == |s| {
      rest, more := [], [];
    } else {
      NextHasShape(t.nodes, p, s, index);
      NextIsChild(t.nodes, p, s, index);
      var n := NextMatch(t.nodes, p, s, index);
      var key := n.node[|p|];
      if n.capture == None {
        rest, more := WalkSpells(t, s, n.node, n.end, spans);
      } else {
        var span := Span(index, n.end, n.capture.value);
        rest, more := WalkSpells(t, s, n.node, n.end, spans + [span]);
        SpansSnoc(spans, span, more);
        more := [span] + more;
      }
      PathSnoc(p, key, rest);
      rest := [key] + rest;
    }
  }

  lemma {:induction false} PathSnoc(p: Path, key: Key, rest: Path)
    ensures (p + [key]) + rest == p + ([key] + rest)
    ensures ([key] + rest)[1..] == rest
  {
  }

  lemma {:induction false} SpansSnoc(spans: seq<Span>, span: Span, more: seq<Span>)
    ensures (spans + [span]) + more == spans + ([span] + more)
    ensures ([span] + more)[1..] == more
  {
  }

  lemma {:induction false} OrderedCons(s: string, spans: seq<Span>)
    requires spans != [] && spans[0].begin <= spans[0].end <= |s| && Ordered(s, spans[1..])
    requires |spans| > 1 ==> spans[0].end <= spans[1].begin
    ensures Ordered(s, spans)
  {
    var rest := spans[1..];
    forall k | 0 < k < |spans|
      ensures spans[k].begin <= spans[k].end <= |s| && spans[k - 1].end <= spans[k].begin
    {
      assert rest[k - 1].end <= |s|;
      if k > 1 { assert rest[k - 2].end <= rest[k - 1].begin; }
    }
  }

  lemma {:induction false} SpellsInOrder(path: Path, s: string, from: nat, spans: seq<Span>)
    requires from <= |s| && Spells(path, s, from, spans)
    ensures |spans| == Captures(path) && Ordered(s, spans)
    ensures spans != [] ==> from <= spans[0].begin
    decreases path
  {
    if path != [] {
      match path[0]
      case Char(c) =>
        SpellsInOrder(path[1..], s, from + 1, spans);
      case Cap(capture) =>
        SpellsInOrder(path[1..], s, spans[0].end, spans[1..]);
        OrderedCons(s, spans);
    }
  }

  lemma {:induction false} SpellsMeans(path: Path, s: string, from: nat, spans: seq<Span>)
    requires from <= |s| && Spells(path, s, from, spans)
    requires |spans| == Captures(path) && Ordered(s, spans)
    ensures Substitute(path, Texts(s, spans)) == s[from..]
    decreases path
  {
    if path != [] {
      match path[0]
      case Char(c) =>
        SpellsMeans(path[1..], s, from + 1, spans);
        assert s[from..] == [c] + s[from + 1..];
      case Cap(capture) =>
        SpellsInOrder(path[1..], s, spans[0].end, spans[1..]);
        SpellsMeans(path[1..], s, spans[0].end, spans[1..]);
        TextsTail(s, spans);
        assert s[from..] == Text(s, spans[0]) + s[spans[0].end..];
    }
  }

  lemma {:induction false} TextsTail(s: string, spans: seq<Span>)
    requires spans != [] && Ordered(s, spans) && Ordered(s, spans[1..])
    ensures Texts(s, spans)[0] == Text(s, spans[0])
    ensures Texts(s, spans)[1..] == Texts(s, spans[1..])
  {
  }

  /** What the captures promise: they are ordered spans of the right shape along the pattern, at most
      MAX_MATCHES of them, and putting their texts back into the pattern gives the URI. */
  ghost predicate Fits(path: Path, s: string, spans: seq<Span>) {
    && Spells(path, s, 0, spans) && Ordered(s, spans)
    && |spans| == Captures(path) <= MAX_MATCHES
    && Substitute(path, Texts(s, spans)) == s
  }

  /** Whenever a callback runs, it is the one registered for the path taken, and the captures fit. */
  lemma {:induction false} DispatchIsSound(t: Tree, s: string)
    requires Wf(t) && Dispatch(t, s).Found?
    ensures var o := Dispatch(t, s);
            o.path in t.endpoints && o.callback == t.endpoints[o.path] && Fits(o.path, s, o.spans)
  {
    var rest, more := WalkSpells(t, s, [], 0, []);
    var o := Dispatch(t, s);
    assert o.path == rest && o.spans == more;
    SpellsInOrder(rest, s, 0, more);
    SpellsMeans(rest, s, 0, more);
  }

  /** Past the first character neither assertion of handleResponse and addMatch can fire. */
  lemma {:induction false} WalkDoesNotCrash(t: Tree, s: string, p: Path, index: nat, spans: seq<Span>)
    requires Wf(t) && p in t.nodes && 0 < index <= |s| && |spans| == Captures(p)
    ensures !Walk(t, s, p, index, spans).Crash?
    decreases Below(t.nodes, p)
  {
    if index < |s| {
      var n := NextMatch(t.nodes, p, s, index);
      if n.Match? {
        CapturesBelow(t, s, p, index);
        if n.capture == None {
          WalkDoesNotCrash(t, s, n.node, n.end, spans);
        } else {
          WalkDoesNotCrash(t, s, n.node, n.end, spans + [Span(index, n.end, n.capture.value)]);
        }
      }
    }
  }

  lemma {:induction false} CapturesBelow(t: Tree, s: string, p: Path, index: nat)
    requires Wf(t) && p in t.nodes && index < |s| && NextMatch(t.nodes, p, s, index).Match?
    ensures var n := NextMatch(t.nodes, p, s, index);
            && Captures(n.node) == Captures(p) + (if n.capture == None then 0 else 1) <= MAX_MATCHES
            && Below(t.nodes, n.node) < Below(t.nodes, p)
  {
    var n := NextMatch(t.nodes, p, s, index);
    NextIsChild(t.nodes, p, s, index);
    CapturesConcat(p, n.node[|p|..]);
    assert n.node == p + n.node[|p|..];
  }

  /** The one condition under which an assertion fires: the root chooses a STRING capture whose next
      node already matches at the first character, so that the capture is empty and ends at 0. */
  ghost predicate EmptyCaptureAtStart(t: Tree, s: string)
    requires [] in t.nodes
  {
    && s != []
    && [Char(s[0])] !in t.nodes
    && !([Cap(INT)] in t.nodes && DigitsEnd(s, SignEnd(s, 0)) > SignEnd(s, 0))
    && !([Cap(UINT)] in t.nodes && DigitsEnd(s, 0) > 0)
    && [Cap(STRING)] in t.nodes && First(NextMatch(t.nodes, [Cap(STRING)], s, 0)) != 0
  }

  lemma {:induction false} NextAtRoot(t: Tree, s: string)
    requires Wf(t) && s != []
    ensures EmptyCaptureAtStart(t, s) <==>
            var n := NextMatch(t.nodes, [], s, 0); n.Match? && n.end == 0 && n.capture != None
  {
    assert [] + [Char(s[0])] == [Char(s[0])];
    assert forall c: Capture :: [] + [Cap(c)] == [Cap(c)];
  }

  /** handleResponse trips an assertion exactly when the first capture is empty and at offset 0. */
  lemma {:induction false} DispatchCrashesExactly(t: Tree, s: string)
    requires Wf(t)
    ensures Dispatch(t, s).Crash? <==> EmptyCaptureAtStart(t, s)
  {
    if s != [] {
      NextAtRoot(t, s);
      var n := NextMatch(t.nodes, [], s, 0);
      if n.Match? && n.end > 0 {
        CapturesBelow(t, s, [], 0);
        if n.capture == None {
          WalkDoesNotCrash(t, s, n.node, n.end, []);
        } else {
          WalkDoesNotCrash(t, s, n.node, n.end, [] + [Span(0, n.end, n.capture.value)]);
        }
      }
    }
  }

  /** So none fires when no route starts with a STRING capture. */
  lemma {:induction false} DispatchDoesNotCrash(t: Tree, s: string)
    requires Wf(t) && [Cap(STRING)] !in t.nodes
    ensures !Dispatch(t, s).Crash?
  {
    DispatchCrashesExactly(t, s);
  }

  // ---- Literal routes --------------------------------------------------------------------------

  lemma {:induction false} LiteralAt(s: string, k: nat)
    requires '\0' !in s && k <= |s|
    ensures |Literal(s)| == |s| && Literal(s)[..k] == Literal(s[..k])
    ensures k < |s| ==> Literal(s)[k] == Char(s[k])
    decreases |s|
  {
    if s != [] {
      assert '\0' !in s[1..];
      LiteralAt(s[1..], if k == 0 then 0 else k - 1);
      if k > 0 {
        assert s[..k][1..] == s[1..][..k - 1];
        assert Literal(s)[..k] == [Char(s[0])] + Literal(s[1..])[..k - 1];
      }
    }
  }

  lemma {:induction false} WalkChar(t: Tree, s: string, p: Path, index: nat, spans: seq<Span>)
    requires p in t.nodes && index < |s| && p + [Char(s[index])] in t.nodes
    ensures Walk(t, s, p, index, spans) == Walk(t, s, p + [Char(s[index])], index + 1, spans)
  {
  }

  lemma {:induction false} LiteralGoesOn(s: string, k: nat)
    requires '\0' !in s && k < |s|
    ensures |Literal(s)| == |s| && Literal(s)[..k + 1] == Literal(s)[..k] + [Char(s[k])]
    ensures Literal(s)[..k + 1] in Prefixes(Literal(s))
  {
    LiteralAt(s, k);
  }

  lemma {:induction false} WalkLiteral(t: Tree, s: string, k: nat)
    requires '\0' !in s && k <= |s| && Prefixes(Literal(s)) <= t.nodes && Literal(s) in t.endpoints
    requires Literal(s)[..k] in t.nodes
    ensures |Literal(s)| == |s|
    ensures Walk(t, s, Literal(s)[..k], k, []) == Found(t.endpoints[Literal(s)], Literal(s), [])
    decreases |s| - k
  {
    if k < |s| {
      LiteralGoesOn(s, k);
      WalkChar(t, s, Literal(s)[..k], k, []);
      WalkLiteral(t, s, k + 1);
    } else {
      assert Literal(s)[..k] == Literal(s);
    }
  }

  /** Keys stop at the first null character. */
  lemma {:induction false} LiteralIsShorter(s: string)
    ensures |Literal(s)| <= |s| && (|Literal(s)| == |s| <==> '\0' !in s)
  {
    if s != [] && s[0] != '\0' {
      LiteralIsShorter(s[1..]);
      assert s == [s[0]] + s[1..];
    }
  }

  /** A path without captures spells one character for each of its keys. */
  lemma {:induction false} LiteralSpells(path: Path, s: string, from: nat, spans: seq<Span>)
    requires from <= |s| && Captures(path) == 0 && Spells(path, s, from, spans)
    ensures |path| == |s| - from && spans == []
  {
    if path != [] { LiteralSpells(path[1..], s, from + 1, spans); }
  }

  /** A URI equal to the text of a registered literal route reaches the callback registered first for it,
      without captures, whatever else is in the tree, exactly when it holds no null character: the route
      ends at the first one, and the URI does not. */
  lemma {:induction false} LiteralRouteWins(routes: seq<Route>, s: string, i: nat)
    requires i < |routes| && routes[i].path == Literal(s)
    requires forall j | 0 <= j < i :: routes[j].path != Literal(s)
    ensures [] in Build(routes).nodes
    ensures Dispatch(Build(routes), s) == Found(routes[i].callback, Literal(s), []) <==> '\0' !in s
  {
    BuildNodes(routes, []);
    if '\0' !in s {
      LiteralRouteIsTaken(routes, s, i);
    } else if Dispatch(Build(routes), s) == Found(routes[i].callback, Literal(s), []) {
      var rest, more := WalkSpells(Build(routes), s, [], 0, []);
      assert rest == Literal(s);
      LiteralHasNoCapture(s);
      LiteralSpells(rest, s, 0, more);
      LiteralIsShorter(s);
    }
  }

  lemma {:induction false} LiteralRouteIsTaken(routes: seq<Route>, s: string, i: nat)
    requires '\0' !in s && i < |routes| && routes[i].path == Literal(s)
    requires forall j | 0 <= j < i :: routes[j].path != Literal(s)
    ensures [] in Build(routes).nodes
    ensures Dispatch(Build(routes), s) == Found(routes[i].callback, Literal(s), [])
  {
    BuildNodes(routes, Literal(s));
    forall q | q in Prefixes(Literal(s))
      ensures q in Build(routes).nodes
    {
      BuildNodes(routes, q);
    }
    BuildNodes(routes, []);
    BuildEndpoint(routes, i);
    assert Literal(s)[..0] == [];
    WalkLiteral(Build(routes), s, 0);
  }

  /** Registering the text of such a route compiles to exactly those keys. */
  lemma {:induction false} LiteralCompiles(s: string)
    requires '{' !in s
    ensures Compile(s, 0, 0) == Some(Literal(s))
  {
    assert s[0..|s|] == s;
  }

  // ---- The order of registration ---------------------------------------------------------------

  lemma {:induction false} BuildNodes(routes: seq<Route>, q: Path)
    ensures q in Build(routes).nodes <==> q == [] || exists i :: 0 <= i < |routes| && q <= routes[i].path
  {
    if routes != [] {
      var last := |routes| - 1;
      BuildNodes(routes[..last], q);
      assert q in Prefixes(routes[last].path) <==> q <= routes[last].path by {
        if q <= routes[last].path { assert q == routes[last].path[..|q|]; }
      }
      if i :| 0 <= i < |routes[..last]| && q <= routes[..last][i].path {
        assert q <= routes[i].path;
      }
    }
  }

  lemma {:induction false} BuildHasEndpoints(routes: seq<Route>, p: Path)
    ensures p in Build(routes).endpoints <==> exists i :: 0 <= i < |routes| && routes[i].path == p
  {
    if routes != [] {
      var last := |routes| - 1;
      BuildHasEndpoints(routes[..last], p);
      if i :| 0 <= i < |routes[..last]| && routes[..last][i].path == p {
        assert routes[i].path == p;
      }
    }
  }

  /** The first callback registered for a path is the one that stays. */
  lemma {:induction false} BuildEndpoint(routes: seq<Route>, i: nat)
    requires i < |routes| && forall j | 0 <= j < i :: routes[j].path != routes[i].path
    ensures routes[i].path in Build(routes).endpoints
    ensures Build(routes).endpoints[routes[i].path] == routes[i].callback
  {
    var last := |routes| - 1;
    BuildHasEndpoints(routes[..last], routes[i].path);
    if i < last {
      assert routes[..last][i] == routes[i];
      BuildEndpoint(routes[..last], i);
    }
  }

  ghost predicate Distinct(routes: seq<Route>) {
    forall i, j | 0 <= i < j < |routes| :: routes[i].path != routes[j].path
  }

  ghost predicate SameRoutes(a: seq<Route>, b: seq<Route>) {
    forall r :: r in a <==> r in b
  }

  lemma {:induction false} SameNodes(a: seq<Route>, b: seq<Route>, q: Path)
    requires SameRoutes(a, b) && q in Build(a).nodes
    ensures q in Build(b).nodes
  {
    BuildNodes(a, q);
    BuildNodes(b, q);
    if i :| 0 <= i < |a| && q <= a[i].path {
      assert a[i] in b;
      var j :| 0 <= j < |b| && b[j] == a[i];
    }
  }

  lemma {:induction false} SameEndpoint(a: seq<Route>, b: seq<Route>, p: Path)
    requires SameRoutes(a, b) && Distinct(a) && Distinct(b) && p in Build(a).endpoints
    ensures p in Build(b).endpoints && Build(a).endpoints[p] == Build(b).endpoints[p]
  {
    BuildHasEndpoints(a, p);
    var i :| 0 <= i < |a| && a[i].path == p;
    assert a[i] in b;
    var j :| 0 <= j < |b| && b[j] == a[i];
    BuildEndpoint(a, i);
    BuildEndpoint(b, j);
  }

  /** The same distinct patterns, registered in any order, build the same tree; every URI is then
      dispatched to the same callback with the same captures. */
  lemma {:induction false} OrderDoesNotMatter(a: seq<Route>, b: seq<Route>)
    requires SameRoutes(a, b) && Distinct(a) && Distinct(b)
    ensures Build(a) == Build(b)
  {
    forall q ensures q in Build(a).nodes <==> q in Build(b).nodes {
      if q in Build(a).nodes { SameNodes(a, b, q); }
      if q in Build(b).nodes { SameNodes(b, a, q); }
    }
    forall p ensures p in Build(a).endpoints <==> p in Build(b).endpoints {
      if p in Build(a).endpoints { SameEndpoint(a, b, p); }
      if p in Build(b).endpoints { SameEndpoint(b, a, p); }
    }
    forall p | p in Build(a).endpoints ensures Build(a).endpoints[p] == Build(b).endpoints[p] {
      SameEndpoint(a, b, p);
    }
    assert Build(a).nodes == Build(b).nodes;
    assert Build(a).endpoints == Build(b).endpoints;
  }

  /** Every tree that routes accepted by addRoute can build satisfies Wf. */
  lemma {:induction false} BuildIsWf(routes: seq<Route>)
    requires forall r | r in routes :: Captures(r.path) <= MAX_MATCHES
    ensures Wf(Build(routes))
  {
    if routes != [] {
      var last := |routes| - 1;
      BuildIsWf(routes[..last]);
      InsertIsWf(Build(routes[..last]), routes[last]);
    }
  }

  lemma {:induction false} InsertIsWf(t: Tree, r: Route)
    requires Wf(t) && Captures(r.path) <= MAX_MATCHES
    ensures Wf(Insert(t, r))
  {
    var t' := Insert(t, r);
    assert r.path == r.path[..|r.path|] && r.path in Prefixes(r.path);
    forall p | p in t'.nodes
      ensures Captures(p) <= MAX_MATCHES && (p != [] ==> p[..|p| - 1] in t'.nodes)
    {
      if p !in t.nodes { PrefixIsWf(r.path, p); }
    }
  }

  lemma {:induction false} PrefixIsWf(path: Path, p: Path)
    requires p in Prefixes(path)
    ensures Captures(p) <= Captures(path) && (p != [] ==> p[..|p| - 1] in Prefixes(path))
  {
    var k :| 0 <= k <= |path| && p == path[..k];
    CapturesConcat(p, path[k..]);
    assert path == p + path[k..];
    if p != [] { assert p[..|p| - 1] == path[..k - 1]; }
  }

  // ---- From registrations to dispatches ----------------------------------------------------------

  datatype Registration = Registration(uri: string, callback: Callback)

  predicate Accepted(regs: seq<Registration>) {
    forall i | 0 <= i < |regs| :: Compile(regs[i].uri, 0, 0).Some?
  }

  function Routes(regs: seq<Registration>): seq<Route>
    requires Accepted(regs)
  {
    seq(|regs|, i requires 0 <= i < |regs| => Route(Compile(regs[i].uri, 0, 0).value, regs[i].callback))
  }

  lemma {:induction false} RoutesAreWf(regs: seq<Registration>)
    requires Accepted(regs)
    ensures Wf(Build(Routes(regs)))
  {
    var routes := Routes(regs);
    forall r | r in routes ensures Captures(r.path) <= MAX_MATCHES {
      var k :| 0 <= k < |regs| && r == routes[k];
      CompileBoundsCaptures(regs[k].uri, 0, 0);
    }
    BuildIsWf(routes);
  }

  /** Whenever a callback runs, it is the one of a registered pattern, of the first registration when
      several compile to the same keys, and the captures fit the pattern. */
  lemma {:induction false} CallbackIsRegistered(regs: seq<Registration>, s: string, o: Outcome) returns (i: nat)
    requires Accepted(regs) && [] in Build(Routes(regs)).nodes && o == Dispatch(Build(Routes(regs)), s) && o.Found?
    ensures i < |regs| && Compile(regs[i].uri, 0, 0) == Some(o.path) && o.callback == regs[i].callback
    ensures forall j | 0 <= j < i :: Compile(regs[j].uri, 0, 0) != Some(o.path)
    ensures Fits(o.path, s, o.spans)
  {
    RoutesAreWf(regs);
    DispatchIsSound(Build(Routes(regs)), s);
    i := RegisteredFirst(regs, o.path);
  }

  lemma {:induction false} RegisteredFirst(regs: seq<Registration>, path: Path) returns (i: nat)
    requires Accepted(regs) && path in Build(Routes(regs)).endpoints
    ensures i < |regs| && Compile(regs[i].uri, 0, 0) == Some(path)
    ensures Build(Routes(regs)).endpoints[path] == regs[i].callback
    ensures forall j | 0 <= j < i :: Compile(regs[j].uri, 0, 0) != Some(path)
  {
    var routes := Routes(regs);
    BuildHasEndpoints(routes, path);
    i := FirstRoute(routes, path, 0);
    BuildEndpoint(routes, i);
    forall j | 0 <= j < i ensures Compile(regs[j].uri, 0, 0) != Some(path) {
      assert routes[j].path != path;
    }
  }

  lemma {:induction false} FirstRoute(routes: seq<Route>, p: Path, from: nat) returns (i: nat)
    requires exists k :: from <= k < |routes| && routes[k].path == p
    requires forall k | 0 <= k < from :: routes[k].path != p
    ensures i < |routes| && routes[i].path == p && forall k | 0 <= k < i :: routes[k].path != p
    decreases |routes| - from
  {
    if routes[from].path == p { i := from; } else { i := FirstRoute(routes, p, from + 1); }
  }

  /** A route that starts with a STRING capture followed by "c" trips the assertion on the URI "c". */
  lemma {:induction false} LeadingStringCrashes(t: Tree, c: char)
    requires Wf(t) && !IsDigit(c)
    requires [Cap(STRING)] in t.nodes && [Cap(STRING), Char(c)] in t.nodes && [Char(c)] !in t.nodes
    ensures Dispatch(t, [c]).Crash?
  {
    assert [Cap(STRING)] + [Char(c)] == [Cap(STRING), Char(c)];
    assert First(NextMatch(t.nodes, [Cap(STRING)], [c], 0)) == 1;
    DispatchCrashesExactly(t, [c]);
  }

  /** "{STRING}/" is such a route. */
  lemma {:induction false} LeadingStringExample(route: Route)
    requires route.path == Keys(Part("", STRING, Tail("/")))
    ensures [] in Build([route]).nodes && Dispatch(Build([route]), "/").Crash?
  {
    var path := [Cap(STRING), Char('/')];
    assert route.path == path && [route][..0] == [];
    BuildIsWf([route]);
    assert [Cap(STRING)] <= [route][0].path && path <= [route][0].path;
    BuildNodes([route], [Cap(STRING)]);
    BuildNodes([route], path);
    BuildNodes([route], [Char('/')]);
    LeadingStringCrashes(Build([route]), '/');
  }

  // ---- The pattern language, the other way round -------------------------------------------------

  /** A pattern: text, then captures each followed by text. */
  datatype Pattern = Tail(text: string) | Part(before: string, capture: Capture, rest: Pattern)

  function PresetName(capture: Capture): string {
    match capture case INT => "INT" case UINT => "UINT" case STRING => "STRING"
  }

  function Render(p: Pattern): string {
    match p
    case Tail(text) => text
    case Part(before, capture, rest) => before + "{" + PresetName(capture) + "}" + Render(rest)
  }

  function Keys(p: Pattern): Path {
    match p
    case Tail(text) => Literal(text)
    case Part(before, capture, rest) => Literal(before) + [Cap(capture)] + Keys(rest)
  }

  predicate PlainTexts(p: Pattern) {
    match p
    case Tail(text) => '{' !in text
    case Part(before, _, rest) => '{' !in before && PlainTexts(rest)
  }

  function CapturesIn(p: Pattern): nat {
    match p case Tail(_) => 0 case Part(_, _, rest) => 1 + CapturesIn(rest)
  }

  lemma {:induction false} FindPast(s: string, c: char, index: nat, text: string)
    requires index + |text| <= |s| && s[index..index + |text|] == text && c !in text
    requires index + |text| == |s| || s[index + |text|] == c
    ensures Find(s, c, index) == index + |text|
    decreases |text|
  {
    if text != [] {
      assert s[index] == text[0];
      assert s[index + 1..index + 1 + |text[1..]|] == text[1..];
      FindPast(s, c, index + 1, text[1..]);
    }
  }

  lemma {:induction false} PresetOfName(capture: Capture)
    ensures Preset(PresetName(capture)) == Some(capture)
    ensures '}' !in PresetName(capture)
  {
  }

  lemma {:induction false} PresetCompiles(s: string, pos: nat, capture: Capture, nbCapture: nat)
    requires var name := PresetName(capture);
             pos + |name| + 2 <= |s| && s[pos + 1..pos + 1 + |name|] == name && s[pos + 1 + |name|] == '}'
    ensures CompilePreset(s, pos, nbCapture) ==
            if nbCapture < MAX_MATCHES then Some((capture, pos + |PresetName(capture)| + 2)) else None
  {
    PresetOfName(capture);
    FindPast(s, '}', pos + 1, PresetName(capture));
  }

  /** A rendered pattern compiles to its keys exactly when it has at most MAX_MATCHES captures. */
  lemma {:induction false} RenderCompiles(p: Pattern, prefix: string, nbCapture: nat)
    requires PlainTexts(p) && nbCapture <= MAX_MATCHES
    ensures Compile(prefix + Render(p), |prefix|, nbCapture) ==
            if nbCapture + CapturesIn(p) <= 10 then Some(Keys(p)) else None
    decreases p
  {
    if p.Tail? {
      var s := prefix + Render(p);
      FindPast(s, '{', |prefix|, p.text);
      assert s[|prefix|..|s|] == p.text;
    } else {
      var prefix' := PartRenders(prefix, p);
      if nbCapture < MAX_MATCHES {
        RenderCompiles(p.rest, prefix', nbCapture + 1);
      }
      PartCompiles(p, prefix, prefix', nbCapture);
    }
  }

  lemma {:induction false} PartCompiles(p: Pattern, prefix: string, prefix': string, nbCapture: nat)
    requires p.Part? && '{' !in p.before && prefix + Render(p) == prefix' + Render(p.rest)
    requires |prefix'| == |prefix| + |p.before| + |PresetName(p.capture)| + 2
    ensures Compile(prefix + Render(p), |prefix|, nbCapture) ==
            if nbCapture >= MAX_MATCHES || Compile(prefix' + Render(p.rest), |prefix'|, nbCapture + 1).None? then None
            else Some(Literal(p.before) + [Cap(p.capture)] + Compile(prefix' + Render(p.rest), |prefix'|, nbCapture + 1).value)
  {
    var s, pos := prefix + Render(p), |prefix| + |p.before|;
    var _ := PartRenders(prefix, p);
    FindPast(s, '{', |prefix|, p.before);
    PresetCompiles(s, pos, p.capture, nbCapture);
    if nbCapture < MAX_MATCHES {
      assert s[|prefix|..pos] == p.before;
      CompileGoesOn(s, |prefix|, pos, nbCapture, p.capture, |prefix'|);
    }
  }

  lemma {:induction false} CompileGoesOn(s: string, index: nat, pos: nat, nbCapture: nat, capture: Capture, next: nat)
    requires index <= pos < next <= |s| && Find(s, '{', index) == pos
    requires CompilePreset(s, pos, nbCapture) == Some((capture, next))
    ensures Compile(s, index, nbCapture) ==
            match Compile(s, next, nbCapture + 1)
            case None => None
            case Some(rest) => Some(Literal(s[index..pos]) + [Cap(capture)] + rest)
  {
  }

  lemma {:induction false} PartRenders(prefix: string, p: Pattern) returns (prefix': string)
    requires p.Part?
    ensures var s, name, pos := prefix + Render(p), PresetName(p.capture), |prefix| + |p.before|;
            && s == prefix' + Render(p.rest) && |prefix'| == pos + |name| + 2
            && s[|prefix|..pos] == p.before && s[pos] == '{'
            && s[pos + 1..pos + 1 + |name|] == name && s[pos + 1 + |name|] == '}'
  {
    var name, tail := PresetName(p.capture), Render(p.rest);
    prefix' := prefix + p.before + "{" + name + "}";
    var s := prefix + Render(p);
    assert s == prefix' + tail;
    assert s == prefix + p.before + ("{" + name + "}" + tail);
    assert s == (prefix + p.before + "{") + name + ("}" + tail);
    SliceOfConcat(prefix, p.before, "{" + name + "}" + tail);
    SliceOfConcat(prefix + p.before + "{", name, "}" + tail);
  }

  lemma {:induction false} SliceOfConcat(a: string, b: string, c: string)
    ensures (a + b + c)[|a|..|a| + |b|] == b
    ensures c != [] ==> (a + b + c)[|a| + |b|] == c[0]
  {
  }
}
