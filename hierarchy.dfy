/** Hierarchy propagation (Model::UpdateNodeHierarchy and the root loop of
    Model::Draw) over the node arena: a node's global transform is its
    parent's global transform times its local transform.

    The walk follows `children` lists; a ghost rank that drops from every node
    to each child witnesses that it ends. The intended result is stated by
    following `parent` links upward instead; the two agree when the links are
    consistent (`Linked`), as they are for a glTF forest. */
module Hierarchy {
  import opened Transforms
  import opened SceneTypes

  /** Every child index is in range and of lower rank than its parent. */
  ghost predicate RankedBy(nodes: seq<Node>, rank: seq<nat>) {
    && |rank| == |nodes|
    && forall i, j :: 0 <= i < |nodes| && 0 <= j < |nodes[i].children| ==>
         0 <= nodes[i].children[j] < |nodes| && rank[nodes[i].children[j]] < rank[i]
  }

  /** Parent links and children lists agree: every listed child names its lister as parent,
      and every node with a parent is listed among that parent's children. */
  ghost predicate Linked(nodes: seq<Node>) {
    && (forall i, j :: 0 <= i < |nodes| && 0 <= j < |nodes[i].children| ==>
          0 <= nodes[i].children[j] < |nodes| && nodes[nodes[i].children[j]].parent == i)
    && (forall c {:trigger nodes[c].parent} :: 0 <= c < |nodes| ==>
          nodes[c].parent == -1 ||
          (0 <= nodes[c].parent < |nodes| && c in nodes[nodes[c].parent].children))
  }

  /** The two arenas differ at most in global transforms. */
  ghost predicate SameShape(a: seq<Node>, b: seq<Node>) {
    && |a| == |b|
    && forall i :: 0 <= i < |a| ==> a[i] == b[i].(globalTransform := a[i].globalTransform)
  }

  lemma ShapeTrans(a: seq<Node>, b: seq<Node>, c: seq<Node>)
    requires SameShape(a, b) && SameShape(b, c)
    ensures SameShape(a, c)
  {
    forall i | 0 <= i < |a|
      ensures a[i] == c[i].(globalTransform := a[i].globalTransform)
    {
      assert b[i] == c[i].(globalTransform := b[i].globalTransform);
    }
  }

  lemma ShapeKeepsRank(a: seq<Node>, b: seq<Node>, rank: seq<nat>)
    requires SameShape(a, b) && RankedBy(b, rank)
    ensures RankedBy(a, rank)
  {
    forall i, j | 0 <= i < |a| && 0 <= j < |a[i].children|
      ensures 0 <= a[i].children[j] < |a| && rank[a[i].children[j]] < rank[i]
    {
      assert a[i].children == b[i].children;
    }
  }

  /** An upper bound of every rank. */
  function MaxRank(rank: seq<nat>): (m: nat)
    ensures forall i :: 0 <= i < |rank| ==> rank[i] <= m
  {
    if |rank| == 0 then 0
    else
      var rest := MaxRank(rank[..|rank| - 1]);
      assert forall i :: 0 <= i < |rank| - 1 ==> rank[i] == rank[..|rank| - 1][i];
      if rank[|rank| - 1] < rest then rest else rank[|rank| - 1]
  }

  /** With consistent links a parent's rank is above its child's. */
  lemma ParentAbove(nodes: seq<Node>, rank: seq<nat>, d: int)
    requires RankedBy(nodes, rank) && Linked(nodes) && 0 <= d < |nodes| && nodes[d].parent != -1
    ensures 0 <= nodes[d].parent < |nodes| && rank[d] < rank[nodes[d].parent]
    ensures MaxRank(rank) - rank[nodes[d].parent] < MaxRank(rank) - rank[d]
  {
    var p := nodes[d].parent;
    var j :| 0 <= j < |nodes[p].children| && nodes[p].children[j] == d;
  }

  /** The global transform a node should end with: its local transform premultiplied by the
      global transform of its parent, or by the identity for a node without one. */
  ghost function GlobalOf(nodes: seq<Node>, rank: seq<nat>, d: int): Mat4
    requires RankedBy(nodes, rank) && Linked(nodes) && 0 <= d < |nodes|
    decreases MaxRank(rank) - rank[d]
  {
    Mul(ParentGlobal(nodes, rank, d), nodes[d].localTransform)
  }

  ghost function ParentGlobal(nodes: seq<Node>, rank: seq<nat>, d: int): Mat4
    requires RankedBy(nodes, rank) && Linked(nodes) && 0 <= d < |nodes|
    decreases MaxRank(rank) - rank[d], 0
  {
    if nodes[d].parent == -1 then Identity
    else
      ParentAbove(nodes, rank, d);
      GlobalOf(nodes, rank, nodes[d].parent)
  }

  /** `a` is `d` or one of its ancestors along parent links. */
  ghost predicate Descends(nodes: seq<Node>, rank: seq<nat>, a: int, d: int)
    requires RankedBy(nodes, rank) && Linked(nodes) && 0 <= d < |nodes|
    decreases MaxRank(rank) - rank[d]
  {
    if d == a then true
    else if nodes[d].parent == -1 then false
    else
      ParentAbove(nodes, rank, d);
      Descends(nodes, rank, a, nodes[d].parent)
  }

  /** Model::UpdateNodeHierarchy(i, parentTransform): the arena after setting node `i`'s global
      transform and recursing into its children with it. */
  ghost function Propagate(nodes: seq<Node>, rank: seq<nat>, i: int, parentTransform: Mat4): (r: seq<Node>)
    requires RankedBy(nodes, rank) && 0 <= i < |nodes|
    ensures SameShape(r, nodes)
    decreases rank[i], 1
  {
    var set1 := nodes[i := nodes[i].(globalTransform := Mul(parentTransform, nodes[i].localTransform))];
    ShapeKeepsRank(set1, nodes, rank);
    var r := PropagateChildren(set1, rank, i, 0);
    ShapeTrans(r, set1, nodes);
    r
  }

  /** The loop over node `i`'s children from the `k`-th on, each visited with `i`'s global
      transform as read at that iteration. */
  ghost function PropagateChildren(nodes: seq<Node>, rank: seq<nat>, i: int, k: nat): (r: seq<Node>)
    requires RankedBy(nodes, rank) && 0 <= i < |nodes| && k <= |nodes[i].children|
    ensures SameShape(r, nodes)
    decreases rank[i], 0, |nodes[i].children| - k
  {
    if k == |nodes[i].children| then nodes
    else
      var next := Propagate(nodes, rank, nodes[i].children[k], nodes[i].globalTransform);
      ShapeKeepsRank(next, nodes, rank);
      var r := PropagateChildren(next, rank, i, k + 1);
      ShapeTrans(r, next, nodes);
      r
  }

  /** The root loop of Model::Draw over the first `k` nodes: each node whose parent is -1 starts
      a propagation from the identity. */
  ghost function RootPass(nodes: seq<Node>, rank: seq<nat>, k: nat): (r: seq<Node>)
    requires RankedBy(nodes, rank) && k <= |nodes|
    ensures SameShape(r, nodes)
  {
    if k == 0 then nodes
    else
      var cur := RootPass(nodes, rank, k - 1);
      ShapeKeepsRank(cur, nodes, rank);
      if cur[k - 1].parent == -1 then
        var r := Propagate(cur, rank, k - 1, Identity);
        ShapeTrans(r, cur, nodes);
        r
      else cur
  }

  /** One turn of Draw's root loop, unfolded: node `k` starts a propagation from the identity
      exactly when it has no parent. */
  lemma RootPassNext(nodes: seq<Node>, rank: seq<nat>, k: nat)
    requires RankedBy(nodes, rank) && k < |nodes|
    ensures RankedBy(RootPass(nodes, rank, k), rank)
    ensures RootPass(nodes, rank, k)[k].parent == nodes[k].parent
    ensures RootPass(nodes, rank, k + 1)
         == if nodes[k].parent == -1 then Propagate(RootPass(nodes, rank, k), rank, k, Identity)
            else RootPass(nodes, rank, k)
  {
    ShapeKeepsRank(RootPass(nodes, rank, k), nodes, rank);
  }

  /** A node descends from a child of `i` only through `i`. */
  lemma {:induction false} DescendsUp(nodes: seq<Node>, rank: seq<nat>, c: int, i: int, d: int)
    requires RankedBy(nodes, rank) && Linked(nodes) && 0 <= d < |nodes| && 0 <= c < |nodes| && 0 <= i < |nodes|
    requires nodes[c].parent == i && Descends(nodes, rank, c, d)
    ensures Descends(nodes, rank, i, d)
    decreases MaxRank(rank) - rank[d]
  {
    if d == c {
      ParentAbove(nodes, rank, d);
      assert Descends(nodes, rank, i, i);
    } else {
      ParentAbove(nodes, rank, d);
      DescendsUp(nodes, rank, c, i, nodes[d].parent);
    }
  }

  /** A proper descendant of `i` descends from one of `i`'s children. */
  lemma {:induction false} DescendsDown(nodes: seq<Node>, rank: seq<nat>, i: int, d: int)
    requires RankedBy(nodes, rank) && Linked(nodes) && 0 <= i < |nodes| && 0 <= d < |nodes|
    requires Descends(nodes, rank, i, d) && d != i
    ensures exists j :: 0 <= j < |nodes[i].children| && Descends(nodes, rank, nodes[i].children[j], d)
    decreases MaxRank(rank) - rank[d]
  {
    ParentAbove(nodes, rank, d);
    var p := nodes[d].parent;
    if p == i {
      var j :| 0 <= j < |nodes[i].children| && nodes[i].children[j] == d;
      assert Descends(nodes, rank, nodes[i].children[j], d);
    } else {
      DescendsDown(nodes, rank, i, p);
      var j :| 0 <= j < |nodes[i].children| && Descends(nodes, rank, nodes[i].children[j], p);
      assert Descends(nodes, rank, nodes[i].children[j], d);
    }
  }

  /** Every node descends from a node without a parent. */
  lemma {:induction false} HasRoot(nodes: seq<Node>, rank: seq<nat>, d: int)
    requires RankedBy(nodes, rank) && Linked(nodes) && 0 <= d < |nodes|
    ensures exists r :: 0 <= r < |nodes| && nodes[r].parent == -1 && Descends(nodes, rank, r, d)
    decreases MaxRank(rank) - rank[d]
  {
    if nodes[d].parent == -1 {
      assert Descends(nodes, rank, d, d);
    } else {
      ParentAbove(nodes, rank, d);
      HasRoot(nodes, rank, nodes[d].parent);
      var r :| 0 <= r < |nodes| && nodes[r].parent == -1 && Descends(nodes, rank, r, nodes[d].parent);
      assert Descends(nodes, rank, r, d);
    }
  }

  /** `d` descends from one of node `i`'s children from the `k`-th on. */
  ghost predicate InChildSubtree(nodes: seq<Node>, rank: seq<nat>, i: int, k: nat, d: int)
    requires RankedBy(nodes, rank) && Linked(nodes) && 0 <= i < |nodes| && 0 <= d < |nodes|
  {
    exists j :: k <= j < |nodes[i].children| && Descends(nodes, rank, nodes[i].children[j], d)
  }

  /** `d` descends from a node without a parent among the first `k`. */
  ghost predicate RootedBefore(nodes: seq<Node>, rank: seq<nat>, k: nat, d: int)
    requires RankedBy(nodes, rank) && Linked(nodes) && k <= |nodes| && 0 <= d < |nodes|
  {
    && k > 0
    && (RootedBefore(nodes, rank, k - 1, d) || (nodes[k - 1].parent == -1 && Descends(nodes, rank, k - 1, d)))
  }

  /** A node without a parent among the first `k` that `d` descends from makes `d` rooted there. */
  lemma {:induction false} RootedFrom(nodes: seq<Node>, rank: seq<nat>, k: nat, r: int, d: int)
    requires RankedBy(nodes, rank) && Linked(nodes) && k <= |nodes| && 0 <= d < |nodes|
    requires 0 <= r < k && nodes[r].parent == -1 && Descends(nodes, rank, r, d)
    ensures RootedBefore(nodes, rank, k, d)
  {
    if r < k - 1 {
      RootedFrom(nodes, rank, k - 1, r, d);
    }
  }

  /** Propagating from node `i` with its parent's intended global transform gives every node
      of `i`'s subtree its intended global transform and leaves every other node's as it was.
      `nodes0` is the arena the intended transforms are read from; `nodes` differs from it at
      most in global transforms. */
  lemma {:induction false} PropagateSets(nodes0: seq<Node>, nodes: seq<Node>, rank: seq<nat>, i: int, t: Mat4, d: int)
    requires RankedBy(nodes0, rank) && Linked(nodes0) && SameShape(nodes, nodes0)
    requires 0 <= i < |nodes0| && 0 <= d < |nodes0|
    requires RankedBy(nodes, rank) && t == ParentGlobal(nodes0, rank, i)
    ensures Propagate(nodes, rank, i, t)[d].globalTransform
              == if Descends(nodes0, rank, i, d) then GlobalOf(nodes0, rank, d) else nodes[d].globalTransform
    decreases rank[i], 1
  {
    var set1 := nodes[i := nodes[i].(globalTransform := Mul(t, nodes[i].localTransform))];
    ShapeKeepsRank(set1, nodes, rank);
    ShapeTrans(set1, nodes, nodes0);
    assert set1[i].globalTransform == GlobalOf(nodes0, rank, i);
    PropagateChildrenSets(nodes0, set1, rank, i, 0, d);
    if Descends(nodes0, rank, i, d) && d != i {
      DescendsDown(nodes0, rank, i, d);
    } else if !Descends(nodes0, rank, i, d) && InChildSubtree(nodes0, rank, i, 0, d) {
      var j :| 0 <= j < |nodes0[i].children| && Descends(nodes0, rank, nodes0[i].children[j], d);
      DescendsUp(nodes0, rank, nodes0[i].children[j], i, d);
    }
  }

  lemma {:induction false} PropagateChildrenSets(nodes0: seq<Node>, nodes: seq<Node>, rank: seq<nat>, i: int, k: nat, d: int)
    requires RankedBy(nodes0, rank) && Linked(nodes0) && SameShape(nodes, nodes0)
    requires 0 <= i < |nodes0| && 0 <= d < |nodes0|
    requires RankedBy(nodes, rank) && k <= |nodes0[i].children|
    requires nodes[i].globalTransform == GlobalOf(nodes0, rank, i)
    ensures PropagateChildren(nodes, rank, i, k)[d].globalTransform
              == if InChildSubtree(nodes0, rank, i, k, d) then GlobalOf(nodes0, rank, d) else nodes[d].globalTransform
    decreases rank[i], 0, |nodes0[i].children| - k
  {
    assert nodes[i].children == nodes0[i].children;
    if k < |nodes0[i].children| {
      var c := nodes0[i].children[k];
      assert nodes0[c].parent == i;
      var t := nodes[i].globalTransform;
      var next := Propagate(nodes, rank, c, t);
      PropagateSets(nodes0, nodes, rank, c, t, d);
      PropagateSets(nodes0, nodes, rank, c, t, i);
      ShapeTrans(next, nodes, nodes0);
      ShapeKeepsRank(next, nodes, rank);
      PropagateChildrenSets(nodes0, next, rank, i, k + 1, d);
      assert PropagateChildren(nodes, rank, i, k) == PropagateChildren(next, rank, i, k + 1);
      if InChildSubtree(nodes0, rank, i, k, d) && !Descends(nodes0, rank, c, d) {
        var j :| k <= j < |nodes0[i].children| && Descends(nodes0, rank, nodes0[i].children[j], d);
        assert InChildSubtree(nodes0, rank, i, k + 1, d);
      }
    } else {
      assert !InChildSubtree(nodes0, rank, i, k, d);
    }
  }

  lemma {:induction false} RootPassSets(nodes: seq<Node>, rank: seq<nat>, k: nat, d: int)
    requires RankedBy(nodes, rank) && Linked(nodes) && k <= |nodes| && 0 <= d < |nodes|
    ensures RootPass(nodes, rank, k)[d].globalTransform
              == if RootedBefore(nodes, rank, k, d) then GlobalOf(nodes, rank, d) else nodes[d].globalTransform
  {
    if k > 0 {
      RootPassSets(nodes, rank, k - 1, d);
      RootPassStep(nodes, rank, k, d);
    }
  }

  /** One turn of Draw's root loop: a node without a parent sets the intended global transform
      of every node of its subtree, and any other node changes nothing. */
  lemma RootPassStep(nodes: seq<Node>, rank: seq<nat>, k: nat, d: int)
    requires RankedBy(nodes, rank) && Linked(nodes) && 0 < k <= |nodes| && 0 <= d < |nodes|
    ensures RootPass(nodes, rank, k)[d].globalTransform
              == if nodes[k - 1].parent == -1 && Descends(nodes, rank, k - 1, d) then GlobalOf(nodes, rank, d)
                 else RootPass(nodes, rank, k - 1)[d].globalTransform
  {
    var cur := RootPass(nodes, rank, k - 1);
    ShapeKeepsRank(cur, nodes, rank);
    assert cur[k - 1].parent == nodes[k - 1].parent;
    if nodes[k - 1].parent == -1 {
      PropagateSets(nodes, cur, rank, k - 1, Identity, d);
    }
  }

  /** Every node's global transform is its parent's global transform (the identity for a node
      without a parent) times its local transform. */
  ghost predicate GlobalsComposed(nodes: seq<Node>) {
    forall d :: 0 <= d < |nodes| ==>
      nodes[d].globalTransform
        == Mul(if nodes[d].parent == -1 || !(0 <= nodes[d].parent < |nodes|) then Identity
               else nodes[nodes[d].parent].globalTransform,
               nodes[d].localTransform)
  }

  /** After Model::Draw's root loop every node's global transform is its intended one: the
      identity times its local transform for a node without a parent, its parent's (new)
      global transform times its local transform otherwise. Local transforms, parents and
      children are left as they were. */
  lemma DrawPassGlobals(nodes: seq<Node>, rank: seq<nat>)
    requires RankedBy(nodes, rank) && Linked(nodes)
    ensures var r := RootPass(nodes, rank, |nodes|);
            && SameShape(r, nodes)
            && (forall d :: 0 <= d < |r| ==> r[d].globalTransform == GlobalOf(nodes, rank, d))
            && GlobalsComposed(r)
  {
    var r := RootPass(nodes, rank, |nodes|);
    forall d | 0 <= d < |r|
      ensures r[d].globalTransform == GlobalOf(nodes, rank, d)
    {
      RootPassGlobal(nodes, rank, d);
    }
    forall d | 0 <= d < |r|
      ensures r[d].globalTransform
           == Mul(if r[d].parent == -1 || !(0 <= r[d].parent < |r|) then Identity
                  else r[r[d].parent].globalTransform, r[d].localTransform)
    {
      assert r[d] == nodes[d].(globalTransform := r[d].globalTransform);
      RootPassGlobal(nodes, rank, d);
      if nodes[d].parent != -1 {
        ParentAbove(nodes, rank, d);
        RootPassGlobal(nodes, rank, nodes[d].parent);
      }
    }
  }

  lemma RootPassGlobal(nodes: seq<Node>, rank: seq<nat>, d: int)
    requires RankedBy(nodes, rank) && Linked(nodes) && 0 <= d < |nodes|
    ensures RootPass(nodes, rank, |nodes|)[d].globalTransform == GlobalOf(nodes, rank, d)
  {
    RootPassSets(nodes, rank, |nodes|, d);
    HasRoot(nodes, rank, d);
    var r :| 0 <= r < |nodes| && nodes[r].parent == -1 && Descends(nodes, rank, r, d);
    RootedFrom(nodes, rank, |nodes|, r, d);
  }
}
