/** The nodes of Server/ServerREST.cpp in memory: addRoute grows the maps of the nodes in place, and
    handleResponse walks them.  Both are proved against the tree of paths of RestRoutes.  */
module RestServer {
  import opened Basics
  import opened RestRoutes

  /** Where a node is: its method and its path. */
  datatype Place = Place(httpMethod: nat, path: Path)

  class Node {
    var children: map<Key, Node>
    var endPoint: Option<Callback>
    ghost const name: Place

    constructor (ghost name: Place)
      ensures children == map[] && endPoint == None && this.name == name
    {
      children := map[];
      endPoint := None;
      this.name := name;
    }
  }

  function Child(x: Place, key: Key): Place { Place(x.httpMethod, x.path + [key]) }

  function Parent(x: Place): Place
    requires x.path != []
  {
    Place(x.httpMethod, x.path[..|x.path| - 1])
  }

  lemma {:induction false} ParentOfChild(x: Place, key: Key)
    ensures Child(x, key).path != [] && Parent(Child(x, key)) == x
    ensures Child(x, key).path[|x.path|] == key
  {
  }

  /** The map of the node at "x" leads to its children and nowhere else. */
  ghost predicate NodeLinked(at: map<Place, Node>, m: map<Key, Node>, x: Place) {
    && (forall k :: k in m <==> Child(x, k) in at)
    && (forall k | k in m :: m[k] == at[Child(x, k)])
  }

  ghost predicate Linked(at: map<Place, Node>, maps: map<Place, map<Key, Node>>) {
    && maps.Keys == at.Keys
    && (forall x | x in at :: at[x].name == x)
    && (forall x {:trigger Parent(x)} | x in at && x.path != [] :: Parent(x) in at)
    && (forall x | x in at :: NodeLinked(at, maps[x], x))
  }

  lemma {:induction false} OtherNode(at: map<Place, Node>, m: map<Key, Node>, y: Place, x: Place, key: Key, next: Node)
    requires NodeLinked(at, m, y) && y != x
    ensures NodeLinked(at[Child(x, key) := next], m, y)
  {
    forall k ensures Child(y, k) != Child(x, key) {
      ParentOfChild(y, k);
      ParentOfChild(x, key);
    }
  }

  lemma {:induction false} GrownNode(at: map<Place, Node>, m: map<Key, Node>, x: Place, key: Key, next: Node)
    requires NodeLinked(at, m, x)
    ensures NodeLinked(at[Child(x, key) := next], m[key := next], x)
  {
    forall k | k != key ensures Child(x, k) != Child(x, key) {
      ParentOfChild(x, k);
      ParentOfChild(x, key);
    }
  }

  lemma {:induction false} NewNode(at: map<Place, Node>, maps: map<Place, map<Key, Node>>, x: Place, next: Node)
    requires Linked(at, maps) && x !in at
    ensures NodeLinked(at[x := next], map[], x)
  {
    forall k ensures Child(x, k) !in at && Child(x, k) != x {
      ParentOfChild(x, k);
    }
  }

  lemma {:induction false} LinkedAdd(at: map<Place, Node>, maps: map<Place, map<Key, Node>>, x: Place, key: Key, next: Node)
    requires Linked(at, maps) && x in at && key !in maps[x] && next.name == Child(x, key)
    ensures Child(x, key) !in at
    ensures Linked(at[Child(x, key) := next], maps[x := maps[x][key := next]][Child(x, key) := map[]])
  {
    var c := Child(x, key);
    var at', maps' := at[c := next], maps[x := maps[x][key := next]][c := map[]];
    assert NodeLinked(at, maps[x], x);
    ParentOfChild(x, key);
    NewNode(at, maps, c, next);
    GrownNode(at, maps[x], x, key, next);
    forall y | y in at'
      ensures NodeLinked(at', maps'[y], y)
    {
      if y != c && y != x { OtherNode(at, maps[y], y, x, key, next); }
    }
  }

  lemma {:induction false} SameMap(maps: map<Place, map<Key, Node>>, maps0: map<Place, map<Key, Node>>, c: Place, x: Place, m: map<Key, Node>)
    requires maps.Keys == maps0.Keys + {c} && x in maps0 && c != x
    requires maps[c] == map[] && maps[x] == m
    requires forall y | y in maps0 && y != x && y != c :: maps[y] == maps0[y]
    ensures maps == maps0[x := m][c := map[]]
  {
  }

  /** The tree of one method, from the endpoints of all nodes. */
  ghost function TreeFrom(ends: map<Place, Option<Callback>>, m: nat): Tree {
    Tree(set x | x in ends && x.httpMethod == m :: x.path, map x | x in ends && x.httpMethod == m && ends[x].Some? :: x.path := ends[x].value)
  }

  function WithNode(t: Tree, here: bool, p: Path): Tree {
    if here then t.(nodes := t.nodes + {p}) else t
  }

  lemma {:induction false} TreeFromAdd(ends: map<Place, Option<Callback>>, x: Place, m: nat)
    requires x !in ends
    ensures TreeFrom(ends[x := None], m) == WithNode(TreeFrom(ends, m), m == x.httpMethod, x.path)
  {
    var ends' := ends[x := None];
    var t, t' := TreeFrom(ends, m), TreeFrom(ends', m);
    forall p ensures p in t'.nodes <==> p in t.nodes || (x.httpMethod == m && p == x.path) {
      assert Place(m, p) in ends' <==> Place(m, p) in ends || Place(m, p) == x;
    }
    forall p ensures p in t'.endpoints <==> p in t.endpoints {
      assert p in t.endpoints <==> Place(m, p) in ends && ends[Place(m, p)].Some?;
      assert p in t'.endpoints <==> Place(m, p) in ends' && ends'[Place(m, p)].Some?;
    }
    assert t'.endpoints == t.endpoints;
  }

  /** The tree of one method gets nodes; the endpoints and the other trees stay. */
  ghost predicate Grown(ends: map<Place, Option<Callback>>, ends': map<Place, Option<Callback>>, method': nat, paths: set<Path>) {
    forall m :: TreeFrom(ends', m) ==
      if m == method' then TreeFrom(ends, m).(nodes := TreeFrom(ends, m).nodes + paths) else TreeFrom(ends, m)
  }

  lemma {:induction false} GrownByOne(ends: map<Place, Option<Callback>>, x: Place)
    requires x !in ends
    ensures Grown(ends, ends[x := None], x.httpMethod, {x.path})
  {
    forall m ensures TreeFrom(ends[x := None], m) == WithNode(TreeFrom(ends, m), m == x.httpMethod, x.path) {
      TreeFromAdd(ends, x, m);
    }
  }

  lemma {:induction false} NothingGrown(ends: map<Place, Option<Callback>>, x: Place)
    requires x in ends
    ensures Grown(ends, ends, x.httpMethod, {x.path})
  {
    InTree(ends, x);
    var t := TreeFrom(ends, x.httpMethod);
    assert t.nodes + {x.path} == t.nodes;
  }

  lemma {:induction false} GrownTwice(a: map<Place, Option<Callback>>, b: map<Place, Option<Callback>>, c: map<Place, Option<Callback>>,
                   m: nat, p: set<Path>, q: set<Path>)
    requires Grown(a, b, m, p) && Grown(b, c, m, q)
    ensures Grown(a, c, m, p + q)
  {
    assert TreeFrom(a, m).nodes + p + q == TreeFrom(a, m).nodes + (p + q);
  }

  /** The prefixes of q that are longer than p. */
  function Extra(p: Path, q: Path): set<Path> {
    set k | |p| < k <= |q| :: q[..k]
  }

  lemma {:induction false} ExtraSnoc(p: Path, q: Path, key: Key)
    requires |p| <= |q|
    ensures Extra(p, q + [key]) == Extra(p, q) + {q + [key]}
  {
    var qk := q + [key];
    assert qk[..|qk|] == qk;
    forall r ensures r in Extra(p, qk) <==> r in Extra(p, q) + {qk} {
      if r in Extra(p, q) {
        var i :| |p| < i <= |q| && r == q[..i];
        assert r == qk[..i];
      }
      if r in Extra(p, qk) {
        var i :| |p| < i <= |qk| && r == qk[..i];
        assert i == |qk| || r == q[..i];
      }
    }
  }

  lemma {:induction false} ExtraConcat(p: Path, q: Path)
    requires p <= q
    ensures Extra([], p) + Extra(p, q) == Extra([], q)
  {
    forall r ensures r in Extra([], p) + Extra(p, q) <==> r in Extra([], q) {
      if r in Extra([], p) {
        var i :| 0 < i <= |p| && r == p[..i];
        assert r == q[..i];
      }
      if r in Extra([], q) {
        var i :| 0 < i <= |q| && r == q[..i];
        assert i > |p| || r == p[..i];
      }
    }
  }

  lemma {:induction false} ExtraIsPrefixes(p: Path)
    ensures Extra([], p) + {[]} == Prefixes(p)
  {
    forall r ensures r in Extra([], p) + {[]} <==> r in Prefixes(p) {
      if r == [] { assert r == p[..0]; }
      if r in Prefixes(p) {
        var i :| 0 <= i <= |p| && r == p[..i];
        assert i == 0 || r in Extra([], p);
      }
    }
  }

  lemma {:induction false} GrownByNone(ends: map<Place, Option<Callback>>, m: nat, p: Path)
    ensures Grown(ends, ends, m, Extra(p, p))
  {
    assert TreeFrom(ends, m).nodes + Extra(p, p) == TreeFrom(ends, m).nodes;
  }

  /** Some nodes were added and no endpoint. */
  ghost predicate GrownSomehow(ends: map<Place, Option<Callback>>, ends': map<Place, Option<Callback>>, m: nat) {
    exists path :: Grown(ends, ends', m, Extra([], path))
  }

  /** The keys read so far, followed by what the rest compiles to. */
  function After(p: Path, rest: Option<Path>): Option<Path> {
    match rest case None => None case Some(q) => Some(p + q)
  }

  lemma {:induction false} AfterNothing(rest: Option<Path>)
    ensures After([], rest) == rest
  {
    if rest.Some? { assert [] + rest.value == rest.value; }
  }

  lemma {:induction false} NothingLeft(uri: string, nbCapture: nat, p: Path)
    ensures After(p, Compile(uri, |uri|, nbCapture)) == Some(p)
  {
    assert uri[|uri|..|uri|] == [];
    assert p + [] == p;
  }

  /** What registering a route does to the trees of all methods. */
  ghost predicate Registered(ends: map<Place, Option<Callback>>, ends': map<Place, Option<Callback>>, method': nat, r: Route) {
    forall m :: TreeFrom(ends', m) == if m == method' then Insert(TreeFrom(ends, m), r) else TreeFrom(ends, m)
  }

  ghost predicate Ended(ends: map<Place, Option<Callback>>, ends': map<Place, Option<Callback>>, x: Place, callback: Callback) {
    forall m :: TreeFrom(ends', m) ==
      if m != x.httpMethod || x.path in TreeFrom(ends, m).endpoints then TreeFrom(ends, m)
      else TreeFrom(ends, m).(endpoints := TreeFrom(ends, m).endpoints[x.path := callback])
  }

  lemma {:induction false} RegisterTree(ends: map<Place, Option<Callback>>, ends1: map<Place, Option<Callback>>,
                     ends2: map<Place, Option<Callback>>, x: Place, callback: Callback)
    requires Grown(ends, ends1, x.httpMethod, Extra([], x.path)) && Ended(ends1, ends2, x, callback)
    requires Place(x.httpMethod, []) in ends
    ensures Registered(ends, ends2, x.httpMethod, Route(x.path, callback))
  {
    InTree(ends, Place(x.httpMethod, []));
    ExtraIsPrefixes(x.path);
    var t := TreeFrom(ends, x.httpMethod);
    assert t.nodes + Extra([], x.path) == t.nodes + Prefixes(x.path);
  }

  /** How a round of the loop of addRoute ends. */
  datatype Status = CONSUMED | FAILED | MORE

  lemma {:induction false} EndedByOne(ends: map<Place, Option<Callback>>, x: Place, callback: Callback)
    requires x in ends && ends[x] == None
    ensures Ended(ends, ends[x := Some(callback)], x, callback)
  {
    InTree(ends, x);
    forall m {
      TreeFromEnd(ends, x, callback, m);
    }
  }

  lemma {:induction false} OnlyRoot(ends: map<Place, Option<Callback>>, m: nat)
    requires Place(m, []) in ends && forall x | x in ends :: x.path == [] && ends[x] == None
    ensures TreeFrom(ends, m) == Empty()
  {
    assert TreeFrom(ends, m).endpoints == map[];
  }

  lemma {:induction false} AfterPart(p: Path, literal: Path, key: Key, rest: Option<Path>)
    ensures After(p, if rest == None then None else Some(literal + [key] + rest.value)) == After(p + literal + [key], rest)
  {
    if rest.Some? {
      assert p + (literal + [key] + rest.value) == (p + literal + [key]) + rest.value;
    }
  }

  /** What one round compiles. */
  lemma {:induction false} PartCompiled(uri: string, index: nat, nbCapture: nat, p: Path)
    requires index <= |uri|
    ensures var pos := Find(uri, '{', index);
            var literal := Literal(uri[index..pos]);
            After(p, Compile(uri, index, nbCapture)) ==
              if pos == |uri| then Some(p + literal)
              else match CompilePreset(uri, pos, nbCapture)
                case None => None
                case Some((capture, next)) => After(p + literal + [Cap(capture)], Compile(uri, next, nbCapture + 1))
  {
    var pos := Find(uri, '{', index);
    if pos < |uri| && CompilePreset(uri, pos, nbCapture).Some? {
      var (capture, next) := CompilePreset(uri, pos, nbCapture).value;
      AfterPart(p, Literal(uri[index..pos]), Cap(capture), Compile(uri, next, nbCapture + 1));
    }
  }

  lemma {:induction false} GrownSnoc(a: map<Place, Option<Callback>>, b: map<Place, Option<Callback>>, c: map<Place, Option<Callback>>,
                  m: nat, p: Path, q: Path, key: Key)
    requires Grown(a, b, m, Extra(p, q)) && Grown(b, c, m, {q + [key]}) && |p| <= |q|
    ensures Grown(a, c, m, Extra(p, q + [key]))
  {
    GrownTwice(a, b, c, m, Extra(p, q), {q + [key]});
    ExtraSnoc(p, q, key);
  }

  lemma {:induction false} GrownOn(a: map<Place, Option<Callback>>, b: map<Place, Option<Callback>>, c: map<Place, Option<Callback>>,
                m: nat, p: Path, q: Path)
    requires Grown(a, b, m, Extra([], p)) && Grown(b, c, m, Extra(p, q)) && p <= q
    ensures Grown(a, c, m, Extra([], q))
  {
    GrownTwice(a, b, c, m, Extra([], p), Extra(p, q));
    ExtraConcat(p, q);
  }

  lemma {:induction false} LiteralStep(p: Path, text: string, i: nat)
    requires i < |text| && text[i] != '\0'
    ensures (p + [Char(text[i])]) + Literal(text[i + 1..]) == p + Literal(text[i..])
  {
    assert text[i..][1..] == text[i + 1..];
    PathSnoc(p, Char(text[i]), Literal(text[i + 1..]));
  }

  lemma {:induction false} LiteralStops(p: Path, text: string, i: nat)
    requires i == |text| || (i < |text| && text[i] == '\0')
    ensures p + Literal(text[i..]) == p
  {
    assert p + [] == p;
  }

  lemma {:induction false} TreeFromEnd(ends: map<Place, Option<Callback>>, x: Place, callback: Callback, m: nat)
    requires x in ends
    ensures var t := TreeFrom(ends, m);
            TreeFrom(ends[x := Some(callback)], m) == if x.httpMethod == m then t.(endpoints := t.endpoints[x.path := callback]) else t
  {
    var ends' := ends[x := Some(callback)];
    var t, t' := TreeFrom(ends, m), TreeFrom(ends', m);
    forall p ensures p in t'.nodes <==> p in t.nodes {
      assert Place(m, p) in ends' <==> Place(m, p) in ends;
    }
    forall p
      ensures p in t'.endpoints <==> p in t.endpoints || (x.httpMethod == m && p == x.path)
      ensures p in t'.endpoints ==> t'.endpoints[p] == if Place(m, p) == x then callback else t.endpoints[p]
    {
      assert p in t.endpoints <==> Place(m, p) in ends && ends[Place(m, p)].Some?;
      assert p in t'.endpoints <==> Place(m, p) in ends' && ends'[Place(m, p)].Some?;
    }
    if x.httpMethod == m {
      assert t'.endpoints == t.endpoints[x.path := callback];
    } else {
      assert t'.endpoints == t.endpoints;
    }
  }

  lemma {:induction false} InTree(ends: map<Place, Option<Callback>>, x: Place)
    ensures x.path in TreeFrom(ends, x.httpMethod).nodes <==> x in ends
    ensures x.path in TreeFrom(ends, x.httpMethod).endpoints <==> x in ends && ends[x].Some?
    ensures x in ends && ends[x].Some? ==> TreeFrom(ends, x.httpMethod).endpoints[x.path] == ends[x].value
  {
    assert x == Place(x.httpMethod, x.path);
  }

  lemma {:induction false} NamesDiffer(at: map<Place, Node>, maps: map<Place, map<Key, Node>>, x: Place)
    requires Linked(at, maps) && x in at
    ensures forall y | y in at && y != x :: at[y] != at[x]
  {
  }

  /** A new child in the maps of the tree and among the endpoints. */
  lemma {:induction false} Attached(at: map<Place, Node>, maps: map<Place, map<Key, Node>>, ends: map<Place, Option<Callback>>,
                 at': map<Place, Node>, maps': map<Place, map<Key, Node>>, ends': map<Place, Option<Callback>>,
                 x: Place, key: Key, next: Node)
    requires Linked(at, maps) && ends.Keys == at.Keys && x in at && key !in maps[x] && next.name == Child(x, key)
    requires at' == at[Child(x, key) := next] && ends' == ends[Child(x, key) := None]
    requires maps' == maps[x := maps[x][key := next]][Child(x, key) := map[]]
    ensures Linked(at', maps') && Grown(ends, ends', x.httpMethod, {x.path + [key]})
    ensures Child(x, key) !in at && Child(x, key).path != []
  {
    LinkedAdd(at, maps, x, key, next);
    GrownByOne(ends, Child(x, key));
  }

  datatype Reply = RouteNotFound | RunCallback(callback: Callback, spans: seq<Span>) | AssertionFailed

  function ReplyOf(outcome: Outcome): Reply {
    match outcome
    case NotFound => RouteNotFound
    case Found(callback, _, spans) => RunCallback(callback, spans)
    case Crash => AssertionFailed
  }

  /** One tree for each HTTP method. */
  const METHODS: nat := 9

  class ServerREST {
    const nodeList: seq<Node>
    // isStarted() of the server
    var started: bool
    // Where every node is
    ghost var at: map<Place, Node>
    ghost var repr: set<Node>

    ghost predicate InRepr()
      reads this
    {
      forall x | x in at :: at[x] in repr
    }

    ghost function Maps(): map<Place, map<Key, Node>>
      requires InRepr()
      reads this, repr
    {
      map x | x in at :: at[x].children
    }

    ghost function Ends(): map<Place, Option<Callback>>
      requires InRepr()
      reads this, repr
    {
      map x | x in at :: at[x].endPoint
    }

    ghost predicate Valid()
      reads this, repr
    {
      && InRepr()
      && |nodeList| == METHODS
      && (forall m: nat | m < METHODS :: Place(m, []) in at && at[Place(m, [])] == nodeList[m])
      && Linked(at, Maps())
    }

    ghost function TreeOf(m: nat): Tree
      requires InRepr()
      reads this, repr
    {
      TreeFrom(Ends(), m)
    }

    /** Node::add for a key that is not in the map. */
    method Attach(pNode: Node, key: Key, ghost x: Place) returns (next: Node)
      requires InRepr() && x in at && at[x] == pNode && Child(x, key) !in at
      requires forall y | y in at && y != x :: at[y] != pNode
      modifies this`at, this`repr, pNode`children
      ensures fresh(next) && next.name == Child(x, key) && repr == old(repr) + {next} && InRepr()
      ensures at == old(at)[Child(x, key) := next]
      ensures Maps() == old(Maps())[x := old(Maps())[x][key := next]][Child(x, key) := map[]]
      ensures Ends() == old(Ends())[Child(x, key) := None]
    {
      ghost var c, at0, maps0, ends0 := Child(x, key), at, Maps(), Ends();
      assert c != x;
      next := new Node(c);
      pNode.children := pNode.children[key := next];
      at, repr := at[c := next], repr + {next};
      SameMap(Maps(), maps0, c, x, pNode.children);
      assert Ends() == ends0[c := None];
    }

    lemma {:induction false} ChildLinked(x: Place, key: Key)
      requires Valid() && x in at
      ensures key in at[x].children <==> Child(x, key) in at
      ensures key in at[x].children ==> at[x].children[key] == at[Child(x, key)]
    {
      assert NodeLinked(at, Maps()[x], x);
    }

    /** Node::add for a character or a capture. */
    method AddKey(pNode: Node, key: Key, ghost x: Place) returns (next: Node)
      requires Valid() && x in at && at[x] == pNode
      modifies this`at, this`repr, repr`children
      ensures Valid() && fresh(repr - old(repr))
      ensures Child(x, key) in at && at[Child(x, key)] == next
      ensures Grown(old(Ends()), Ends(), x.httpMethod, {x.path + [key]})
    {
      ChildLinked(x, key);
      if key in pNode.children {
        next := pNode.children[key];
        NothingGrown(Ends(), Child(x, key));
      } else {
        next := AddNew(pNode, key, x);
      }
    }

    method AddNew(pNode: Node, key: Key, ghost x: Place) returns (next: Node)
      requires Valid() && x in at && at[x] == pNode && key !in pNode.children && Child(x, key) !in at
      modifies this`at, this`repr, pNode`children
      ensures Valid() && fresh(repr - old(repr))
      ensures Child(x, key) in at && at[Child(x, key)] == next
      ensures Grown(old(Ends()), Ends(), x.httpMethod, {x.path + [key]})
    {
      next := AttachLinked(pNode, key, x);
    }

    method AttachLinked(pNode: Node, key: Key, ghost x: Place) returns (next: Node)
      requires InRepr() && Linked(at, Maps()) && x in at && at[x] == pNode && key !in pNode.children && Child(x, key) !in at
      modifies this`at, this`repr, pNode`children
      ensures InRepr() && Linked(at, Maps()) && fresh(next) && repr == old(repr) + {next}
      ensures at == old(at)[Child(x, key) := next] && Child(x, key).path != []
      ensures Grown(old(Ends()), Ends(), x.httpMethod, {x.path + [key]})
    {
      ghost var at0, maps0, ends0 := at, Maps(), Ends();
      NamesDiffer(at, Maps(), x);
      next := Attach(pNode, key, x);
      Attached(at0, maps0, ends0, at, Maps(), Ends(), x, key, next);
    }

    /** Node::add for a C string. */
    method AddLiteral(pNode: Node, text: string, ghost x: Place) returns (next: Node, ghost y: Place)
      requires Valid() && x in at && at[x] == pNode
      modifies this`at, this`repr, repr`children
      ensures Valid() && fresh(repr - old(repr))
      ensures y == Place(x.httpMethod, x.path + Literal(text)) && y in at && at[y] == next
      ensures Grown(old(Ends()), Ends(), x.httpMethod, Extra(x.path, y.path))
    {
      next, y := pNode, x;
      var i := 0;
      GrownByNone(Ends(), x.httpMethod, x.path);
      assert text[0..] == text;
      while i < |text| && text[i] != '\0'
        invariant 0 <= i <= |text|
        invariant Valid() && fresh(repr - old(repr)) && y in at && at[y] == next
        invariant y.httpMethod == x.httpMethod && |x.path| <= |y.path|
        invariant y.path + Literal(text[i..]) == x.path + Literal(text)
        invariant Grown(old(Ends()), Ends(), x.httpMethod, Extra(x.path, y.path))
      {
        ghost var ends, key := Ends(), Char(text[i]);
        next := AddKey(next, Char(text[i]), y);
        GrownSnoc(old(Ends()), ends, Ends(), x.httpMethod, x.path, y.path, key);
        LiteralStep(y.path, text, i);
        y := Child(y, key);
        i := i + 1;
      }
      LiteralStops(y.path, text, i);
    }

    /** False stands for a failed assertion, which ends the program: the server is running, the method is
        out of bounds, or the pattern does not compile. The endpoints are untouched then. */
    method AddRoute(httpMethod: nat, uri: string, callback: Callback) returns (ok: bool)
      requires Valid()
      modifies this`at, this`repr, repr
      ensures Valid() && fresh(repr - old(repr))
      ensures ok <==> !started && httpMethod < METHODS && Compile(uri, 0, 0).Some?
      ensures ok ==> Registered(old(Ends()), Ends(), httpMethod, Route(Compile(uri, 0, 0).value, callback))
      ensures !ok ==> GrownSomehow(old(Ends()), Ends(), httpMethod)
    {
      GrownByNone(Ends(), httpMethod, []);
      if started || httpMethod >= METHODS { return false; }
      ok := AddPattern(httpMethod, uri, callback);
    }

    method AddPattern(httpMethod: nat, uri: string, callback: Callback) returns (ok: bool)
      requires Valid() && httpMethod < METHODS
      modifies this`at, this`repr, repr
      ensures Valid() && fresh(repr - old(repr))
      ensures ok <==> Compile(uri, 0, 0).Some?
      ensures ok ==> Registered(old(Ends()), Ends(), httpMethod, Route(Compile(uri, 0, 0).value, callback))
      ensures !ok ==> GrownSomehow(old(Ends()), Ends(), httpMethod)
    {
      ghost var ends := Ends();
      var pNode;
      ghost var x;
      ok, pNode, x := AddKeys(httpMethod, uri);
      if ok {
        ghost var ends1 := Ends();
        RegisterEndPoint(pNode, callback, x);
        RegisterTree(ends, ends1, Ends(), x, callback);
      }
    }

    /** The loop of addRoute: it consumes the whole URI. */
    method AddKeys(httpMethod: nat, uri: string) returns (ok: bool, pNode: Node, ghost x: Place)
      requires Valid() && httpMethod < METHODS
      modifies this`at, this`repr, repr`children
      ensures Valid() && fresh(repr - old(repr)) && x in at && at[x] == pNode && x.httpMethod == httpMethod
      ensures Place(httpMethod, []) in old(at)
      ensures Compile(uri, 0, 0) == if ok then Some(x.path) else None
      ensures Grown(old(Ends()), Ends(), httpMethod, Extra([], x.path))
    {
      var index, nbCapture := 0, 0;
      pNode, x := nodeList[httpMethod], Place(httpMethod, []);
      GrownByNone(Ends(), httpMethod, []);
      AfterNothing(Compile(uri, 0, 0));
      while index < |uri|
        invariant 0 <= index <= |uri|
        invariant Valid() && fresh(repr - old(repr)) && x in at && at[x] == pNode && x.httpMethod == httpMethod
        invariant Compile(uri, 0, 0) == After(x.path, Compile(uri, index, nbCapture))
        invariant Grown(old(Ends()), Ends(), httpMethod, Extra([], x.path))
        decreases |uri| - index
      {
        ghost var ends, p := Ends(), x.path;
        var status;
        status, index, pNode, x := AddPart(uri, index, nbCapture, pNode, x);
        GrownOn(old(Ends()), ends, Ends(), httpMethod, p, x.path);
        if status != MORE {
          return status == CONSUMED, pNode, x;
        }
        nbCapture := nbCapture + 1;
      }
      NothingLeft(uri, nbCapture, x.path);
      ok := true;
    }

    /** One round: the text up to the next capture, and the capture. */
    method AddPart(uri: string, index: nat, nbCapture: nat, pNode: Node, ghost x: Place)
      returns (status: Status, index': nat, next: Node, ghost y: Place)
      requires Valid() && x in at && at[x] == pNode && index < |uri|
      modifies this`at, this`repr, repr`children
      ensures Valid() && fresh(repr - old(repr)) && y in at && at[y] == next
      ensures y.httpMethod == x.httpMethod && x.path <= y.path && index < index' <= |uri|
      ensures Grown(old(Ends()), Ends(), x.httpMethod, Extra(x.path, y.path))
      ensures After(x.path, Compile(uri, index, nbCapture)) ==
                match status
                case CONSUMED => Some(y.path)
                case FAILED => None
                case MORE => After(y.path, Compile(uri, index', nbCapture + 1))
    {
      var pos := Find(uri, '{', index);
      PartCompiled(uri, index, nbCapture, x.path);
      next, y := AddLiteral(pNode, uri[index..pos], x);
      if pos == |uri| {
        return CONSUMED, |uri|, next, y;
      }
      var preset := CompilePreset(uri, pos, nbCapture);
      if preset == None {
        return FAILED, |uri|, next, y;
      }
      ghost var ends, key := Ends(), Cap(preset.value.0);
      next := AddKey(next, Cap(preset.value.0), y);
      GrownSnoc(old(Ends()), ends, Ends(), x.httpMethod, x.path, y.path, key);
      return MORE, preset.value.1, next, Child(y, key);
    }

    /** The first endpoint of a node stays. */
    method RegisterEndPoint(pNode: Node, callback: Callback, ghost x: Place)
      requires Valid() && x in at && at[x] == pNode
      modifies pNode`endPoint
      ensures Valid()
      ensures Ended(old(Ends()), Ends(), x, callback)
    {
      InTree(Ends(), x);
      if pNode.endPoint == None {
        EndedByOne(Ends(), x, callback);
        SetEndPoint(pNode, callback, x);
      }
    }

    method SetEndPoint(pNode: Node, callback: Callback, ghost x: Place)
      requires InRepr() && x in at && at[x] == pNode
      requires forall y | y in at && y != x :: at[y] != pNode
      modifies pNode`endPoint
      ensures Ends() == old(Ends())[x := Some(callback)] && Maps() == old(Maps())
    {
      pNode.endPoint := Some(callback);
    }

    constructor ()
      ensures Valid() && fresh(repr) && !started
      ensures forall m: nat | m < METHODS :: TreeOf(m) == Empty()
    {
      var list: seq<Node> := [];
      ghost var places: map<Place, Node> := map[];
      while |list| < METHODS
        invariant |list| <= METHODS
        invariant forall m: nat | m < |list| :: Place(m, []) in places && places[Place(m, [])] == list[m]
        invariant forall x | x in places ::
                    && x.path == [] && x.httpMethod < |list| && fresh(places[x])
                    && places[x].name == x && places[x].children == map[] && places[x].endPoint == None
      {
        var node := new Node(Place(|list|, []));
        places := places[Place(|list|, []) := node];
        list := list + [node];
      }
      nodeList := list;
      started := false;
      at := places;
      repr := set x | x in places :: places[x];
      new;
      forall m: nat | m < METHODS
        ensures TreeFrom(Ends(), m) == Empty()
      {
        OnlyRoot(Ends(), m);
      }
    }

    lemma {:induction false} HasChild(x: Place, key: Key)
      requires Valid() && x in at
      ensures key in at[x].children <==> x.path + [key] in TreeOf(x.httpMethod).nodes
      ensures key in at[x].children ==> Child(x, key) in at && at[x].children[key] == at[Child(x, key)]
    {
      assert NodeLinked(at, Maps()[x], x);
      InTree(Ends(), Child(x, key));
    }

    method GetDigitsEnd(s: string, index: nat) returns (endIndex: nat, isValid: bool)
      requires index <= |s|
      ensures endIndex == DigitsEnd(s, index) && isValid == (endIndex > index)
    {
      endIndex, isValid := index, false;
      while endIndex < |s| && '0' <= s[endIndex] <= '9'
        invariant index <= endIndex <= |s| && isValid == (endIndex > index)
        invariant DigitsEnd(s, endIndex) == DigitsEnd(s, index)
      {
        isValid := true;
        endIndex := endIndex + 1;
      }
    }

    /** The pair returned stands for what the tree of paths says. */
    ghost predicate Agrees(x: Place, n: Next, end: nat, next: Node?, capture: Option<Capture>)
      reads this
    {
      match n
      case NoMatch => end == 0 && next == null && capture == None
      case Match(e, node, c) =>
        && Place(x.httpMethod, node) in at && next == at[Place(x.httpMethod, node)]
        && end == e && capture == c
    }

    /** The first that matches: the character itself, INT, UINT, STRING. */
    method GetNextMatch(pNode: Node, s: string, index: nat, ghost x: Place)
      returns (end: nat, next: Node?, capture: Option<Capture>)
      requires Valid() && x in at && at[x] == pNode && index < |s|
      requires x.path in TreeOf(x.httpMethod).nodes
      ensures Agrees(x, NextMatch(TreeOf(x.httpMethod).nodes, x.path, s, index), end, next, capture)
      decreases Below(TreeOf(x.httpMethod).nodes, x.path), 0
    {
      HasChild(x, Char(s[index]));
      if Char(s[index]) in pNode.children {
        return index + 1, pNode.children[Char(s[index])], None;
      }
      end, next, capture := GetNumberMatch(pNode, s, index, x);
      if next != null {
        return;
      }
      HasChild(x, Cap(STRING));
      if Cap(STRING) in pNode.children {
        ChildIsLower(TreeOf(x.httpMethod).nodes, x.path, Cap(STRING));
        next, capture := pNode.children[Cap(STRING)], Some(STRING);
        end := ScanText(pNode.children[Cap(STRING)], s, index, Child(x, Cap(STRING)));
      }
    }

    method GetNumberMatch(pNode: Node, s: string, index: nat, ghost x: Place)
      returns (end: nat, next: Node?, capture: Option<Capture>)
      requires Valid() && x in at && at[x] == pNode && index < |s|
      ensures var nodes, start := TreeOf(x.httpMethod).nodes, SignEnd(s, index);
              Agrees(x,
                     if x.path + [Cap(INT)] in nodes && DigitsEnd(s, start) > start then
                       Match(DigitsEnd(s, start), x.path + [Cap(INT)], Some(INT))
                     else if x.path + [Cap(UINT)] in nodes && DigitsEnd(s, index) > index then
                       Match(DigitsEnd(s, index), x.path + [Cap(UINT)], Some(UINT))
                     else NoMatch,
                     end, next, capture)
    {
      HasChild(x, Cap(INT));
      if Cap(INT) in pNode.children {
        var endIndex, isValid := GetDigitsEnd(s, if s[index] == '-' || s[index] == '+' then index + 1 else index);
        if isValid {
          return endIndex, pNode.children[Cap(INT)], Some(INT);
        }
      }
      HasChild(x, Cap(UINT));
      if Cap(UINT) in pNode.children {
        var endIndex, isValid := GetDigitsEnd(s, index);
        if isValid {
          return endIndex, pNode.children[Cap(UINT)], Some(UINT);
        }
      }
      return 0, null, None;
    }

    /** Go on until the next node finds a match, or to the end. */
    method ScanText(child: Node, s: string, index: nat, ghost y: Place) returns (endIndex: nat)
      requires Valid() && y in at && at[y] == child && index < |s|
      requires y.path in TreeOf(y.httpMethod).nodes
      ensures endIndex == ScanString(TreeOf(y.httpMethod).nodes, y.path, s, index)
      decreases Below(TreeOf(y.httpMethod).nodes, y.path), 1
    {
      ghost var nodes := TreeOf(y.httpMethod).nodes;
      endIndex := index;
      while true
        invariant index <= endIndex < |s|
        invariant ScanString(nodes, y.path, s, endIndex) == ScanString(nodes, y.path, s, index)
        decreases |s| - endIndex
      {
        var first, _, _ := GetNextMatch(child, s, endIndex, y);
        if first != 0 {
          return;
        }
        endIndex := endIndex + 1;
        if endIndex >= |s| {
          return;
        }
      }
    }

    /** "pNode" is the node at "x" of the tree "t". */
    ghost predicate Stands(pNode: Node, x: Place, t: Tree)
      reads this, repr
    {
      Valid() && x in at && at[x] == pNode && t == TreeOf(x.httpMethod) && x.path in t.nodes
    }

    method HandleResponse(httpMethod: nat, uri: string) returns (reply: Reply)
      requires Valid() && httpMethod < METHODS
      ensures [] in TreeOf(httpMethod).nodes
      ensures reply == ReplyOf(Dispatch(TreeOf(httpMethod), uri))
      ensures match Dispatch(TreeOf(httpMethod), uri)
              case NotFound => reply == RouteNotFound
              case Found(callback, _, spans) => reply == RunCallback(callback, spans)
              case Crash => reply == AssertionFailed
    {
      ghost var x := Place(httpMethod, []);
      InTree(Ends(), x);
      reply := Consume(nodeList[httpMethod], uri, x, TreeOf(httpMethod));
    }

    /** Go down the tree until the URI is consumed. */
    method Consume(root: Node, uri: string, ghost x: Place, ghost t: Tree) returns (reply: Reply)
      requires Stands(root, x, t)
      ensures reply == ReplyOf(Walk(t, uri, x.path, 0, []))
    {
      ghost var y, goal := x, Walk(t, uri, x.path, 0, []);
      var pNode: Node, index: nat, spans: seq<Span> := root, 0, [];
      while index < |uri|
        invariant index <= |uri| && Stands(pNode, y, t) && goal == Walk(t, uri, y.path, index, spans)
        decreases Below(t.nodes, y.path)
      {
        var done;
        done, reply, pNode, index, spans, y := FollowMatch(pNode, uri, index, spans, y, t);
        if done {
          return;
        }
      }
      reply := CallEndPoint(pNode, uri, spans, y, t);
    }

    /** The URI is consumed: getEndPoint decides. */
    method CallEndPoint(pNode: Node, uri: string, spans: seq<Span>, ghost x: Place, ghost t: Tree) returns (reply: Reply)
      requires Stands(pNode, x, t)
      ensures reply == ReplyOf(Walk(t, uri, x.path, |uri|, spans))
    {
      InTree(Ends(), x);
      reply := if pNode.endPoint.Some? then RunCallback(pNode.endPoint.value, spans) else RouteNotFound;
    }

    /** One round of the loop of handleResponse. */
    method FollowMatch(pNode: Node, uri: string, index: nat, spans: seq<Span>, ghost x: Place, ghost t: Tree)
      returns (done: bool, reply: Reply, pNode': Node, index': nat, spans': seq<Span>, ghost y: Place)
      requires Stands(pNode, x, t) && index < |uri|
      ensures if done then reply == ReplyOf(Walk(t, uri, x.path, index, spans))
              else
                && Stands(pNode', y, t) && index' <= |uri|
                && Below(t.nodes, y.path) < Below(t.nodes, x.path)
                && Walk(t, uri, x.path, index, spans) == Walk(t, uri, y.path, index', spans')
    {
      ghost var n := NextMatch(t.nodes, x.path, uri, index);
      pNode', index', spans', y := pNode, index, spans, x;
      var end, next, capture := GetNextMatch(pNode, uri, index, x);
      if next == null {
        return true, RouteNotFound, pNode, index, spans, x;
      }
      NextIsChild(t.nodes, x.path, uri, index);
      if capture != None {
        if end == 0 || |spans| >= MAX_MATCHES {
          return true, AssertionFailed, pNode, index, spans, x;
        }
        spans' := spans + [Span(index, end, capture.value)];
      }
      return false, RouteNotFound, next, end, spans', Place(x.httpMethod, n.node);
    }
  }
}
