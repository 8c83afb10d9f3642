/** The node forest build of Model::LoadModel and Model::ProcessNode, as
    functions over the arena (the node array and the mesh list) that the
    class methods are proved against.

    The walk starts at each root of scene 0 in order. Visiting a node records
    its name and parent, appends it to its parent's children, resolves its
    local transform, and appends its flattened mesh; then its children are
    visited in document order. A node listed under two parents is visited
    twice. */
module NodeForest {
  import opened Transforms
  import opened Gltf
  import opened SceneTypes
  import opened MeshData
  import opened Hierarchy

  /** A node as LoadModel resets it before the walk: no parent, no mesh, identity local transform. */
  const FreshNode := Node("", Identity, Identity, -1, [], -1)

  /** The node array and the mesh list the walk builds. */
  datatype Arena = Arena(nodes: seq<Node>, meshes: seq<Mesh>)

  function Vec3Of(v: seq<real>): Vec3
    requires |v| == 3
  {
    Vec3(v[0], v[1], v[2])
  }

  /** A node's local transform: its sixteen column-major matrix entries when it has them, else
      translation * rotation * scale, each the identity when the node does not give it. The
      stored rotation (x, y, z, w) becomes the quaternion (w, x, y, z). */
  function ResolveLocal(gn: GltfNode): Mat4 {
    if |gn.matrix| == 16 then Columns(gn.matrix)
    else
      var t := if |gn.translation| == 3 then Translate(Vec3Of(gn.translation)) else Identity;
      var r := if |gn.rotation| == 4 then Rotate(Quat(gn.rotation[3], gn.rotation[0], gn.rotation[1], gn.rotation[2]))
               else Identity;
      var s := if |gn.scale| == 3 then Scale(Vec3Of(gn.scale)) else Identity;
      Mul(Mul(t, r), s)
  }

  /** ProcessNode's copy of a node's `matrix` into a glm matrix: element `i * 4 + j` goes to
      column `i`, row `j`, which is column-major order, so the entries are kept as they are. */
  method ReadMatrix(m: seq<real>) returns (entries: seq<real>)
    requires |m| == 16
    ensures entries == m
  {
    entries := [];
    var i := 0;
    while i < 4
      invariant 0 <= i <= 4 && entries == m[..4 * i]
    {
      var j := 0;
      while j < 4
        invariant 0 <= j <= 4 && entries == m[..4 * i + j]
      {
        entries := entries + [m[i * 4 + j]];
        j := j + 1;
      }
      i := i + 1;
    }
  }

  /** ProcessNode's local transform: the node's `matrix` when it has 16 entries, otherwise
      translation * rotation * scale, each part the identity when the node lacks it. */
  method ReadLocal(gn: GltfNode) returns (local: Mat4)
    ensures local == ResolveLocal(gn)
  {
    if |gn.matrix| == 16 {
      var entries := ReadMatrix(gn.matrix);
      local := Columns(entries);
    } else {
      var translation := Identity;
      var rotation := Identity;
      var scale := Identity;
      if |gn.translation| == 3 {
        translation := Translate(Vec3(gn.translation[0], gn.translation[1], gn.translation[2]));
      }
      if |gn.rotation| == 4 {
        rotation := Rotate(Quat(gn.rotation[3], gn.rotation[0], gn.rotation[1], gn.rotation[2]));
      }
      if |gn.scale| == 3 {
        scale := Scale(Vec3(gn.scale[0], gn.scale[1], gn.scale[2]));
      }
      local := Mul(Mul(translation, rotation), scale);
    }
  }

  /** What a ProcessNode call is given: a well-formed acyclic document, an arena with a slot per
      document node, and a caller that is either the scene loop (-1) or a node listing this one. */
  ghost predicate WalkPre(doc: Document, a: Arena, n: int, p: int) {
    && WellFormed(doc) && Acyclic(doc)
    && |a.nodes| == |doc.nodes|
    && 0 <= n < |doc.nodes|
    && (p == -1 || (0 <= p < |doc.nodes| && n in doc.nodes[p].children))
  }

  /** The arena after ProcessNode's own step, before it visits the children. */
  ghost function Visit(doc: Document, a: Arena, n: int, p: int): Arena
    requires WalkPre(doc, a, n, p)
  {
    var gn := doc.nodes[n];
    var nodes1 := a.nodes[n := a.nodes[n].(name := gn.name, parent := p)];
    var nodes2 := if p >= 0 then nodes1[p := nodes1[p].(children := nodes1[p].children + [n])] else nodes1;
    var nodes3 := nodes2[n := nodes2[n].(localTransform := ResolveLocal(gn))];
    if gn.mesh >= 0 then
      assert MeshReadable(doc, doc.meshes[gn.mesh]);
      Arena(nodes3[n := nodes3[n].(meshIndex := |a.meshes|)], a.meshes + [FlattenMesh(doc, doc.meshes[gn.mesh])])
    else Arena(nodes3, a.meshes)
  }

  /** Model::ProcessNode(n, p): its own step, then the walk over its document children. */
  ghost function Walk(doc: Document, a: Arena, n: int, p: int): (r: Arena)
    requires WalkPre(doc, a, n, p)
    ensures |r.nodes| == |a.nodes|
    decreases Rank(doc)[n], 1
  {
    WalkChildren(doc, Visit(doc, a, n, p), n, 0)
  }

  /** ProcessNode's loop over node `n`'s document children from the `k`-th on. */
  ghost function WalkChildren(doc: Document, a: Arena, n: int, k: nat): (r: Arena)
    requires WellFormed(doc) && Acyclic(doc) && |a.nodes| == |doc.nodes|
    requires 0 <= n < |doc.nodes| && k <= |doc.nodes[n].children|
    ensures |r.nodes| == |a.nodes|
    decreases Rank(doc)[n], 0, |doc.nodes[n].children| - k
  {
    var children := doc.nodes[n].children;
    if k == |children| then a
    else WalkChildren(doc, Walk(doc, a, children[k], n), n, k + 1)
  }

  /** The walk from `n` only appends meshes and changes no node ranked above `n` except the
      caller `p`, which gains `n` as its last child. */
  lemma {:induction false} WalkFrame(doc: Document, a: Arena, n: int, p: int)
    requires WalkPre(doc, a, n, p)
    ensures var r := Walk(doc, a, n, p);
            && a.meshes <= r.meshes
            && (forall i :: 0 <= i < |a.nodes| && i != p && Rank(doc)[i] > Rank(doc)[n] ==> r.nodes[i] == a.nodes[i])
            && (p >= 0 ==> r.nodes[p] == a.nodes[p].(children := a.nodes[p].children + [n]))
    decreases Rank(doc)[n], 1
  {
    var rank := Rank(doc);
    assert p >= 0 ==> rank[n] < rank[p];
    var v := Visit(doc, a, n, p);
    assert a.meshes <= v.meshes;
    assert forall i :: 0 <= i < |a.nodes| && i != p && i != n ==> v.nodes[i] == a.nodes[i];
    assert p >= 0 ==> v.nodes[p] == a.nodes[p].(children := a.nodes[p].children + [n]);
    WalkChildrenFrame(doc, v, n, 0);
  }

  /** The loop over `n`'s children from the `k`-th on gives `n` exactly those children, in
      order, only appends meshes, and changes no other node ranked at or above `n`. */
  lemma {:induction false} WalkChildrenFrame(doc: Document, a: Arena, n: int, k: nat)
    requires WellFormed(doc) && Acyclic(doc) && |a.nodes| == |doc.nodes|
    requires 0 <= n < |doc.nodes| && k <= |doc.nodes[n].children|
    ensures var r := WalkChildren(doc, a, n, k);
            && a.meshes <= r.meshes
            && (forall i :: 0 <= i < |a.nodes| && i != n && Rank(doc)[i] >= Rank(doc)[n] ==> r.nodes[i] == a.nodes[i])
            && r.nodes[n] == a.nodes[n].(children := a.nodes[n].children + doc.nodes[n].children[k..])
    decreases Rank(doc)[n], 0, |doc.nodes[n].children| - k
  {
    var children := doc.nodes[n].children;
    if k < |children| {
      var c := children[k];
      WalkChildrenStep(doc, a, n, k);
      WalkFrame(doc, a, c, n);
      var w := Walk(doc, a, c, n);
      WalkChildrenFrame(doc, w, n, k + 1);
      assert children[k..] == [c] + children[k + 1..];
    }
  }

  /** One turn of ProcessNode's loop over `n`'s children: the `k`-th child may be walked from
      `n`, it ranks below `n`, and walking it leaves the rest of the loop to do. */
  lemma WalkChildrenStep(doc: Document, a: Arena, n: int, k: nat)
    requires WellFormed(doc) && Acyclic(doc) && |a.nodes| == |doc.nodes|
    requires 0 <= n < |doc.nodes| && k < |doc.nodes[n].children|
    ensures WalkPre(doc, a, doc.nodes[n].children[k], n)
    ensures Rank(doc)[doc.nodes[n].children[k]] < Rank(doc)[n]
    ensures WalkChildren(doc, a, n, k)
         == WalkChildren(doc, Walk(doc, a, doc.nodes[n].children[k], n), n, k + 1)
  {
  }

  /** The arena right after LoadModel resizes the node array: one fresh node per document node. */
  function Initial(doc: Document): (a: Arena)
    ensures |a.nodes| == |doc.nodes| && a.meshes == []
    ensures forall i :: 0 <= i < |a.nodes| ==>
              a.nodes[i].parent == -1 && a.nodes[i].meshIndex == -1 &&
              a.nodes[i].localTransform == Identity && a.nodes[i].children == []
  {
    Arena(seq(|doc.nodes|, _ => FreshNode), [])
  }

  /** LoadModel's loop over the first `k` roots of scene 0. */
  ghost function WalkRoots(doc: Document, a: Arena, k: nat): (r: Arena)
    requires WellFormed(doc) && Acyclic(doc) && |a.nodes| == |doc.nodes|
    requires |doc.scenes| > 0 && k <= |doc.scenes[0].nodes|
    ensures |r.nodes| == |a.nodes|
  {
    if k == 0 then a
    else Walk(doc, WalkRoots(doc, a, k - 1), doc.scenes[0].nodes[k - 1], -1)
  }

  /** One turn of LoadModel's loop over the roots of scene 0: the `k`-th root may be walked
      with no parent, and walking it gives the arena after `k + 1` roots. */
  lemma WalkRootsStep(doc: Document, a: Arena, k: nat)
    requires WellFormed(doc) && Acyclic(doc) && |a.nodes| == |doc.nodes|
    requires |doc.scenes| > 0 && k < |doc.scenes[0].nodes|
    ensures WalkPre(doc, WalkRoots(doc, a, k), doc.scenes[0].nodes[k], -1)
    ensures WalkRoots(doc, a, k + 1) == Walk(doc, WalkRoots(doc, a, k), doc.scenes[0].nodes[k], -1)
  {
  }

  /** The arena LoadModel builds from a loaded document. */
  ghost function Build(doc: Document): Arena
    requires WellFormed(doc) && Acyclic(doc)
  {
    if |doc.scenes| > 0 then WalkRoots(doc, Initial(doc), |doc.scenes[0].nodes|) else Initial(doc)
  }

  /** What a visited node ends with: its document name, the caller as parent, its resolved
      local transform, the index of the mesh appended for it (its old mesh index when it has
      none), and its document children appended, in order, to the children it already had;
      the caller gains it as its last child, and the mesh list grows by its flattened mesh. */
  lemma WalkEffect(doc: Document, a: Arena, n: int, p: int)
    requires WalkPre(doc, a, n, p)
    ensures var r := Walk(doc, a, n, p);
            var gn := doc.nodes[n];
            && r.nodes[n] == a.nodes[n].(name := gn.name, parent := p, localTransform := ResolveLocal(gn),
                                         meshIndex := if gn.mesh >= 0 then |a.meshes| else a.nodes[n].meshIndex,
                                         children := a.nodes[n].children + gn.children)
            && (p >= 0 ==> r.nodes[p] == a.nodes[p].(children := a.nodes[p].children + [n]))
            && (gn.mesh >= 0 ==> |a.meshes| < |r.meshes| && r.meshes[|a.meshes|] == FlattenMesh(doc, doc.meshes[gn.mesh]))
  {
    var rank := Rank(doc);
    assert p >= 0 ==> rank[n] < rank[p];
    var v := Visit(doc, a, n, p);
    assert Walk(doc, a, n, p) == WalkChildren(doc, v, n, 0);
    WalkChildrenFrame(doc, v, n, 0);
    assert doc.nodes[n].children[0..] == doc.nodes[n].children;
  }

  /** The children the arena lists for a node are among its document children, and every
      mesh index is below the number of meshes. */
  ghost predicate ArenaInv(doc: Document, a: Arena) {
    && |a.nodes| == |doc.nodes|
    && (forall i, j :: 0 <= i < |a.nodes| && 0 <= j < |a.nodes[i].children| ==>
          a.nodes[i].children[j] in doc.nodes[i].children)
    && (forall i :: 0 <= i < |a.nodes| ==> a.nodes[i].meshIndex < |a.meshes|)
  }

  /** `n` is nobody's child in the document. */
  ghost predicate Orphan(doc: Document, n: int) {
    forall q :: 0 <= q < |doc.nodes| ==> n !in doc.nodes[q].children
  }

  /** Node `i` after ProcessNode's own step for `n` from `p`: of the links only `n`'s parent and
      `p`'s children change, and every mesh index stays below the number of meshes. */
  lemma VisitAt(doc: Document, a: Arena, n: int, p: int, i: int)
    requires WalkPre(doc, a, n, p) && ArenaInv(doc, a) && 0 <= i < |a.nodes|
    ensures var v := Visit(doc, a, n, p);
            && |v.nodes| == |a.nodes|
            && v.nodes[i].children == (if i == p then a.nodes[i].children + [n] else a.nodes[i].children)
            && v.nodes[i].parent == (if i == n then p else a.nodes[i].parent)
            && v.nodes[i].meshIndex < |v.meshes|
  {
    var rank := Rank(doc);
    assert p >= 0 ==> rank[n] < rank[p];
  }

  lemma VisitKeepsInv(doc: Document, a: Arena, n: int, p: int)
    requires WalkPre(doc, a, n, p) && ArenaInv(doc, a)
    ensures ArenaInv(doc, Visit(doc, a, n, p))
  {
    var v := Visit(doc, a, n, p);
    VisitAt(doc, a, n, p, n);
    forall i, j | 0 <= i < |v.nodes| && 0 <= j < |v.nodes[i].children|
      ensures v.nodes[i].children[j] in doc.nodes[i].children
    {
      VisitAt(doc, a, n, p, i);
      if i != p || j != |a.nodes[p].children| {
        assert v.nodes[i].children[j] == a.nodes[i].children[j];
      }
    }
    forall i | 0 <= i < |v.nodes|
      ensures v.nodes[i].meshIndex < |v.meshes|
    {
      VisitAt(doc, a, n, p, i);
    }
  }

  lemma VisitKeepsLinked(doc: Document, a: Arena, n: int, p: int)
    requires WalkPre(doc, a, n, p) && ArenaInv(doc, a)
    requires DocForest(doc) && Linked(a.nodes) && (p == -1 ==> Orphan(doc, n))
    ensures Linked(Visit(doc, a, n, p).nodes)
  {
    var v := Visit(doc, a, n, p);
    VisitAt(doc, a, n, p, n);
    forall i, j | 0 <= i < |v.nodes| && 0 <= j < |v.nodes[i].children|
      ensures 0 <= v.nodes[i].children[j] < |v.nodes| && v.nodes[v.nodes[i].children[j]].parent == i
    {
      VisitAt(doc, a, n, p, i);
      if i != p || j != |a.nodes[p].children| {
        var c := a.nodes[i].children[j];
        assert v.nodes[i].children[j] == c;
        VisitAt(doc, a, n, p, c);
        if c == n {
          assert n in doc.nodes[i].children;
        }
      }
    }
    forall c | 0 <= c < |v.nodes|
      ensures v.nodes[c].parent == -1 ||
              (0 <= v.nodes[c].parent < |v.nodes| && c in v.nodes[v.nodes[c].parent].children)
    {
      VisitAt(doc, a, n, p, c);
      if c == n {
        if p >= 0 {
          VisitAt(doc, a, n, p, p);
        }
      } else if a.nodes[c].parent != -1 {
        var q := a.nodes[c].parent;
        assert c in a.nodes[q].children;
        VisitAt(doc, a, n, p, q);
      }
    }
  }

  /** The walk keeps the arena invariant, and on a glTF forest it keeps parent links and
      children lists in agreement. */
  lemma {:induction false} WalkKeeps(doc: Document, a: Arena, n: int, p: int)
    requires WalkPre(doc, a, n, p) && ArenaInv(doc, a)
    ensures ArenaInv(doc, Walk(doc, a, n, p))
    decreases Rank(doc)[n], 1
  {
    var rank := Rank(doc);
    assert p >= 0 ==> rank[n] < rank[p];
    VisitKeepsInv(doc, a, n, p);
    WalkChildrenKeeps(doc, Visit(doc, a, n, p), n, 0);
  }

  lemma {:induction false} WalkChildrenKeeps(doc: Document, a: Arena, n: int, k: nat)
    requires WellFormed(doc) && Acyclic(doc) && ArenaInv(doc, a)
    requires 0 <= n < |doc.nodes| && k <= |doc.nodes[n].children|
    ensures ArenaInv(doc, WalkChildren(doc, a, n, k))
    decreases Rank(doc)[n], 0, |doc.nodes[n].children| - k
  {
    var children := doc.nodes[n].children;
    if k < |children| {
      var c := children[k];
      WalkKeeps(doc, a, c, n);
      WalkChildrenKeeps(doc, Walk(doc, a, c, n), n, k + 1);
    }
  }

  /** On a glTF forest the walk from `n` keeps parent links and children lists in agreement,
      provided `n` is nobody's child when it is walked as a root. */
  lemma {:induction false} WalkLinked(doc: Document, a: Arena, n: int, p: int)
    requires WalkPre(doc, a, n, p) && ArenaInv(doc, a)
    requires DocForest(doc) && Linked(a.nodes) && (p == -1 ==> Orphan(doc, n))
    ensures Linked(Walk(doc, a, n, p).nodes)
    decreases Rank(doc)[n], 1
  {
    var rank := Rank(doc);
    assert p >= 0 ==> rank[n] < rank[p];
    VisitKeepsInv(doc, a, n, p);
    VisitKeepsLinked(doc, a, n, p);
    WalkChildrenLinked(doc, Visit(doc, a, n, p), n, 0);
  }

  lemma {:induction false} WalkChildrenLinked(doc: Document, a: Arena, n: int, k: nat)
    requires WellFormed(doc) && Acyclic(doc) && ArenaInv(doc, a)
    requires 0 <= n < |doc.nodes| && k <= |doc.nodes[n].children|
    requires DocForest(doc) && Linked(a.nodes)
    ensures Linked(WalkChildren(doc, a, n, k).nodes)
    decreases Rank(doc)[n], 0, |doc.nodes[n].children| - k
  {
    var children := doc.nodes[n].children;
    if k < |children| {
      var c := children[k];
      WalkKeeps(doc, a, c, n);
      WalkLinked(doc, a, c, n);
      WalkChildrenLinked(doc, Walk(doc, a, c, n), n, k + 1);
    }
  }

  lemma {:induction false} WalkRootsKeeps(doc: Document, a: Arena, k: nat)
    requires WellFormed(doc) && Acyclic(doc) && ArenaInv(doc, a)
    requires |doc.scenes| > 0 && k <= |doc.scenes[0].nodes|
    ensures ArenaInv(doc, WalkRoots(doc, a, k))
  {
    if k > 0 {
      WalkRootsKeeps(doc, a, k - 1);
      var prev := WalkRoots(doc, a, k - 1);
      WalkKeeps(doc, prev, doc.scenes[0].nodes[k - 1], -1);
    }
  }

  lemma {:induction false} WalkRootsLinked(doc: Document, a: Arena, k: nat)
    requires WellFormed(doc) && Acyclic(doc) && ArenaInv(doc, a)
    requires |doc.scenes| > 0 && k <= |doc.scenes[0].nodes|
    requires DocForest(doc) && Linked(a.nodes)
    ensures Linked(WalkRoots(doc, a, k).nodes)
  {
    if k > 0 {
      WalkRootsLinked(doc, a, k - 1);
      WalkRootsKeeps(doc, a, k - 1);
      RootOrphan(doc, k - 1);
      WalkLinked(doc, WalkRoots(doc, a, k - 1), doc.scenes[0].nodes[k - 1], -1);
    }
  }

  /** In a glTF forest no root of scene 0 is anybody's child. */
  lemma RootOrphan(doc: Document, k: nat)
    requires DocForest(doc) && |doc.scenes| > 0 && k < |doc.scenes[0].nodes|
    ensures Orphan(doc, doc.scenes[0].nodes[k])
  {
    forall q | 0 <= q < |doc.nodes|
      ensures doc.scenes[0].nodes[k] !in doc.nodes[q].children
    {
    }
  }

  /** The built arena lists only document children (so the document's rank bounds every walk
      over it) and only valid mesh indices, and for a glTF forest its parent links and
      children lists agree. */
  lemma BuildShape(doc: Document)
    requires WellFormed(doc) && Acyclic(doc)
    ensures ArenaInv(doc, Build(doc))
    ensures RankedBy(Build(doc).nodes, Rank(doc))
    ensures DocForest(doc) ==> Linked(Build(doc).nodes)
  {
    var init := Initial(doc);
    assert ArenaInv(doc, init);
    assert Linked(init.nodes);
    if |doc.scenes| > 0 {
      WalkRootsKeeps(doc, init, |doc.scenes[0].nodes|);
      if DocForest(doc) {
        WalkRootsLinked(doc, init, |doc.scenes[0].nodes|);
      }
    }
    ArenaRanked(doc, Build(doc));
  }

  lemma ArenaRanked(doc: Document, a: Arena)
    requires WellFormed(doc) && Acyclic(doc) && ArenaInv(doc, a)
    ensures RankedBy(a.nodes, Rank(doc))
  {
    var rank := Rank(doc);
    forall i, j | 0 <= i < |a.nodes| && 0 <= j < |a.nodes[i].children|
      ensures 0 <= a.nodes[i].children[j] < |a.nodes| && rank[a.nodes[i].children[j]] < rank[i]
    {
      var c := a.nodes[i].children[j];
      var x :| 0 <= x < |doc.nodes[i].children| && doc.nodes[i].children[x] == c;
    }
  }
}
