/** The tree of Type/Gson.hpp and its deep merge. */
module Gsons {
  import opened Basics

  datatype Tree =
    | Empty
    | Bool(boolean: bool)
    | Number(number: real)
    | String(text: string)
    | Array(elements: seq<Tree>)
    | Map(children: map<string, Tree>)

  predicate SameType(a: Tree, b: Tree) {
    match a
    case Empty => b.Empty?
    case Bool(_) => b.Bool?
    case Number(_) => b.Number?
    case String(_) => b.String?
    case Array(_) => b.Array?
    case Map(_) => b.Map?
  }

  /** merge(): None where its assertion on the types fails, at any depth. */
  function Merge(a: Tree, b: Tree): Option<Tree>
    decreases b
  {
    if !SameType(a, b) then None
    else match b
      case Array(elements) => Some(Array(a.elements + elements))
      case Map(n) =>
        var m := a.children;
        if exists k | k in n && k in m :: Merge(m[k], n[k]).None? then None
        else Some(Map(map k | k in m.Keys + n.Keys ::
          if k !in n then m[k] else if k !in m then n[k] else Merge(m[k], n[k]).value))
      case _ => Some(b)
  }

  /** What a merged map holds under one key. */
  ghost predicate Meets(m: map<string, Tree>, n: map<string, Tree>, r: map<string, Tree>, k: string) {
    && (k in r <==> k in m || k in n)
    && (k in m && k !in n ==> r[k] == m[k])
    && (k !in m && k in n ==> r[k] == n[k])
    && (k in m && k in n ==> Merge(m[k], n[k]) == Some(r[k]))
  }

  lemma {:induction false} MapsMerge(m: map<string, Tree>, n: map<string, Tree>, r: map<string, Tree>)
    ensures Merge(Map(m), Map(n)) == Some(Map(r)) <==> forall k :: Meets(m, n, r, k)
  {
    var merged := Merge(Map(m), Map(n));
    if merged.Some? {
      var s := merged.value.children;
      assert forall k :: Meets(m, n, s, k);
      if forall k :: Meets(m, n, r, k) {
        forall k ensures (k in r <==> k in s) && (k in r ==> r[k] == s[k]) {
          assert Meets(m, n, r, k) && Meets(m, n, s, k);
        }
        assert r == s;
      }
    } else if forall k :: Meets(m, n, r, k) {
      forall k | k in n && k in m ensures Merge(m[k], n[k]).Some? {
        assert Meets(m, n, r, k);
      }
    }
  }

  // ---- What a merge leaves where ---------------------------------------------------------------------

  /** The tree under a path of keys. */
  function At(t: Tree, path: seq<string>): Option<Tree>
    decreases path
  {
    if path == [] then Some(t)
    else if t.Map? && path[0] in t.children then At(t.children[path[0]], path[1..])
    else None
  }

  /** What stands in a place that is "a" in one tree and "b" in the other: a scalar is that of the other tree,
      elements are appended, and keys are united. */
  predicate Merged(a: Tree, b: Tree, r: Tree) {
    match b
    case Empty => a.Empty? && r.Empty?
    case Bool(boolean) => a.Bool? && r == Bool(boolean)
    case Number(number) => a.Number? && r == Number(number)
    case String(text) => a.String? && r == String(text)
    case Array(elements) =>
      && a.Array? && r.Array? && |r.elements| == |a.elements| + |elements|
      && (forall i | 0 <= i < |a.elements| :: r.elements[i] == a.elements[i])
      && (forall i | 0 <= i < |elements| :: r.elements[|a.elements| + i] == elements[i])
    case Map(children) => a.Map? && r.Map? && r.children.Keys == a.children.Keys + children.Keys
  }

  /** Along every path: what only one tree has stays, and what both have is merged. */
  lemma {:induction false} MergeAt(a: Tree, b: Tree, r: Tree, path: seq<string>)
    requires Merge(a, b) == Some(r)
    ensures var (x, y, z) := (At(a, path), At(b, path), At(r, path));
            && (y == None ==> z == x) && (x == None ==> z == y)
            && (x.Some? && y.Some? ==> z.Some? && Merged(x.value, y.value, z.value))
    decreases path
  {
    if b.Map? {
      MapsMerge(a.children, b.children, r.children);
      assert forall k :: Meets(a.children, b.children, r.children, k);
      if path == [] {
        assert r.children.Keys == a.children.Keys + b.children.Keys;
      } else {
        var k := path[0];
        assert Meets(a.children, b.children, r.children, k);
        if k in a.children && k in b.children {
          MergeAt(a.children[k], b.children[k], r.children[k], path[1..]);
        }
      }
    }
  }

  /** A merge is defined exactly when the two trees agree on the type along every path that both have. */
  lemma {:induction false} MergeIsDefined(a: Tree, b: Tree)
    ensures Merge(a, b).Some? <==>
            forall path | At(a, path).Some? && At(b, path).Some? :: SameType(At(a, path).value, At(b, path).value)
    decreases b
  {
    if Merge(a, b).Some? {
      forall path | At(a, path).Some? && At(b, path).Some? ensures SameType(At(a, path).value, At(b, path).value) {
        MergeAt(a, b, Merge(a, b).value, path);
      }
    } else {
      var path := MergeFailsAt(a, b);
    }
  }

  lemma {:induction false} MergeFailsAt(a: Tree, b: Tree) returns (path: seq<string>)
    requires Merge(a, b).None?
    ensures At(a, path).Some? && At(b, path).Some? && !SameType(At(a, path).value, At(b, path).value)
    decreases b
  {
    if !SameType(a, b) {
      path := [];
    } else {
      var k :| k in b.children && k in a.children && Merge(a.children[k], b.children[k]).None?;
      path := MergeFailsAt(a.children[k], b.children[k]);
      path := [k] + path;
    }
  }

  // ---- Associativity -----------------------------------------------------------------------------

  /** Merging never changes the type. */
  lemma {:induction false} MergeKeepsType(a: Tree, b: Tree)
    ensures Merge(a, b).Some? ==> SameType(a, b) && SameType(Merge(a, b).value, b)
  {
  }

  /** Maps merge whenever all the children under common keys do. */
  lemma {:induction false} MapsMergeIf(m: map<string, Tree>, n: map<string, Tree>) returns (r: map<string, Tree>)
    requires forall k | k in m && k in n :: Merge(m[k], n[k]).Some?
    ensures Merge(Map(m), Map(n)) == Some(Map(r)) && forall k :: Meets(m, n, r, k)
  {
    r := Merge(Map(m), Map(n)).value.children;
    MapsMerge(m, n, r);
  }

  /** From (a, b), c to a, (b, c). */
  lemma {:induction false} Rightwards(a: Tree, b: Tree, c: Tree, ab: Tree, abc: Tree) returns (bc: Tree)
    requires Merge(a, b) == Some(ab) && Merge(ab, c) == Some(abc)
    ensures Merge(b, c) == Some(bc) && Merge(a, bc) == Some(abc)
    decreases c
  {
    MergeKeepsType(a, b);
    MergeKeepsType(ab, c);
    match c
    case Map(p) =>
      bc := RightwardsMaps(a.children, b.children, p, ab.children, abc.children, c);
    case Array(elements) =>
      bc := Array(b.elements + elements);
      assert (a.elements + b.elements) + elements == a.elements + (b.elements + elements);
    case _ => bc := c;
  }

  lemma {:induction false} RightwardsMaps(
    m: map<string, Tree>, n: map<string, Tree>, p: map<string, Tree>,
    mn: map<string, Tree>, mnp: map<string, Tree>, whole: Tree) returns (bc: Tree)
    requires whole == Map(p) && Merge(Map(m), Map(n)) == Some(Map(mn)) && Merge(Map(mn), whole) == Some(Map(mnp))
    ensures Merge(Map(n), whole) == Some(bc) && Merge(Map(m), bc) == Some(Map(mnp))
    decreases whole, 0
  {
    MapsMerge(m, n, mn);
    MapsMerge(mn, p, mnp);
    forall k | k in n && k in p ensures Merge(n[k], p[k]).Some? {
      assert Meets(m, n, mn, k) && Meets(mn, p, mnp, k);
      if k in m { var _ := Rightwards(m[k], n[k], p[k], mn[k], mnp[k]); }
    }
    var np := MapsMergeIf(n, p);
    forall k ensures Meets(m, np, mnp, k) {
      assert Meets(m, n, mn, k) && Meets(mn, p, mnp, k) && Meets(n, p, np, k);
      if k in m && k in n && k in p { var _ := Rightwards(m[k], n[k], p[k], mn[k], mnp[k]); }
    }
    MapsMerge(m, np, mnp);
    bc := Map(np);
  }

  /** From a, (b, c) to (a, b), c. */
  lemma {:induction false} Leftwards(a: Tree, b: Tree, c: Tree, bc: Tree, abc: Tree) returns (ab: Tree)
    requires Merge(b, c) == Some(bc) && Merge(a, bc) == Some(abc)
    ensures Merge(a, b) == Some(ab) && Merge(ab, c) == Some(abc)
    decreases c
  {
    MergeKeepsType(b, c);
    MergeKeepsType(a, bc);
    match c
    case Map(p) =>
      ab := LeftwardsMaps(a.children, b.children, p, bc.children, abc.children, c);
    case Array(elements) =>
      ab := Array(a.elements + b.elements);
      assert (a.elements + b.elements) + elements == a.elements + (b.elements + elements);
    case _ => ab := b;
  }

  lemma {:induction false} LeftwardsMaps(
    m: map<string, Tree>, n: map<string, Tree>, p: map<string, Tree>,
    np: map<string, Tree>, mnp: map<string, Tree>, whole: Tree) returns (ab: Tree)
    requires whole == Map(p) && Merge(Map(n), whole) == Some(Map(np)) && Merge(Map(m), Map(np)) == Some(Map(mnp))
    ensures Merge(Map(m), Map(n)) == Some(ab) && Merge(ab, whole) == Some(Map(mnp))
    decreases whole, 0
  {
    MapsMerge(n, p, np);
    MapsMerge(m, np, mnp);
    forall k | k in m && k in n ensures Merge(m[k], n[k]).Some? {
      assert Meets(n, p, np, k) && Meets(m, np, mnp, k);
      if k in p { var _ := Leftwards(m[k], n[k], p[k], np[k], mnp[k]); }
    }
    var mn := MapsMergeIf(m, n);
    forall k ensures Meets(mn, p, mnp, k) {
      assert Meets(n, p, np, k) && Meets(m, np, mnp, k) && Meets(m, n, mn, k);
      if k in m && k in n && k in p { var _ := Leftwards(m[k], n[k], p[k], np[k], mnp[k]); }
    }
    MapsMerge(mn, p, mnp);
    ab := Map(mn);
  }

  function MergeInto(a: Option<Tree>, b: Option<Tree>): Option<Tree> {
    if a.None? || b.None? then None else Merge(a.value, b.value)
  }

  /** Merging b and then c into a, and merging into a what c merged into b gives: both are defined for
      the same trees, and give the same. */
  lemma {:induction false} MergeIsAssociative(a: Tree, b: Tree, c: Tree)
    ensures MergeInto(Merge(a, b), Some(c)) == MergeInto(Some(a), Merge(b, c))
  {
    if MergeInto(Merge(a, b), Some(c)).Some? {
      var _ := Rightwards(a, b, c, Merge(a, b).value, MergeInto(Merge(a, b), Some(c)).value);
    } else if MergeInto(Some(a), Merge(b, c)).Some? {
      var _ := Leftwards(a, b, c, Merge(b, c).value, MergeInto(Some(a), Merge(b, c)).value);
    }
  }

  // ---- The loops ----------------------------------------------------------------------------------

  /** The elements are appended one by one, the children of the other map inserted or merged one by
      one. */
  method MergeNode(a: Tree, node: Tree) returns (r: Option<Tree>)
    ensures r == Merge(a, node)
    decreases node
  {
    if !SameType(a, node) { return None; }
    match node
    case Array(elements) =>
      var all := a.elements;
      for i := 0 to |elements|
        invariant all == a.elements + elements[..i]
      {
        all := all + [elements[i]];
      }
      assert elements[..|elements|] == elements;
      r := Some(Array(all));
    case Map(n) => r := MergeChildren(a.children, n, node);
    case _ => r := Some(node);
  }

  method MergeChildren(m: map<string, Tree>, n: map<string, Tree>, node: Tree) returns (r: Option<Tree>)
    requires node == Map(n)
    ensures r == Merge(Map(m), node)
    decreases node, 0
  {
    var children, left := m, n.Keys;
    while left != {}
      invariant left <= n.Keys
      invariant forall k | k !in left :: Meets(m, n, children, k)
      invariant forall k | k in left :: (k in children <==> k in m) && (k in m ==> children[k] == m[k])
      decreases |left|
    {
      var k :| k in left;
      if k !in children {
        children := children[k := n[k]];
      } else {
        var child := MergeNode(children[k], n[k]);
        if child.None? { return None; }
        children := children[k := child.value];
      }
      left := left - {k};
    }
    MapsMerge(m, n, children);
    r := Some(Map(children));
  }
}
