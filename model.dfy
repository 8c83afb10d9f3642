/** The Model class of Model.h: the node arena, the mesh list, the animation
    list and the playback state (current animation and clock), with the
    loading, playback and drawing operations of Model.cpp. GPU objects are
    represented by the data uploaded into them, and a draw by the record of
    what it would issue. */
module ModelState {
  import opened Transforms
  import opened Gltf
  import opened SceneTypes
  import opened Keyframes
  import opened MeshData
  import opened Tracks
  import opened Playback
  import opened Hierarchy
  import opened NodeForest

  /** What Model::Draw issues for one node with a mesh: the model matrix uniform, the texture it
      binds first (None: it binds none, so whatever texture was bound stays bound), and the draw. */
  datatype DrawCall = DrawCall(modelMatrix: Mat4, texture: Option<TextureSource>, mode: DrawMode)

  function DrawCallFor(node: Node, mesh: Mesh): DrawCall {
    DrawCall(node.globalTransform, if |mesh.textures| > 0 then Some(mesh.textures[0]) else None, DrawModeOf(mesh))
  }

  predicate MeshIndicesValid(nodes: seq<Node>, meshes: seq<Mesh>) {
    forall i :: 0 <= i < |nodes| ==> nodes[i].meshIndex < |meshes|
  }

  /** The draws for the first `k` nodes, in node order, one per node with a mesh. */
  function DrawCallsUpTo(nodes: seq<Node>, meshes: seq<Mesh>, k: nat): seq<DrawCall>
    requires k <= |nodes| && MeshIndicesValid(nodes, meshes)
  {
    if k == 0 then []
    else
      var node := nodes[k - 1];
      DrawCallsUpTo(nodes, meshes, k - 1) + if node.meshIndex >= 0 then [DrawCallFor(node, meshes[node.meshIndex])] else []
  }

  /** Number of nodes with a mesh among the first `k`. */
  function MeshNodeCount(nodes: seq<Node>, k: nat): nat
    requires k <= |nodes|
  {
    if k == 0 then 0 else MeshNodeCount(nodes, k - 1) + if nodes[k - 1].meshIndex >= 0 then 1 else 0
  }

  lemma {:induction false} DrawCallsLength(nodes: seq<Node>, meshes: seq<Mesh>, k: nat)
    requires k <= |nodes| && MeshIndicesValid(nodes, meshes)
    ensures |DrawCallsUpTo(nodes, meshes, k)| == MeshNodeCount(nodes, k)
  {
    if k > 0 {
      DrawCallsLength(nodes, meshes, k - 1);
    }
  }

  /** One draw per node with a mesh, in node order: node `i`'s draw comes right after those of
      the nodes with a mesh before it, and uses its global transform, its mesh's first texture
      and its mesh's draw mode. */
  lemma {:induction false} DrawCallsLayout(nodes: seq<Node>, meshes: seq<Mesh>, k: nat, i: nat)
    requires k <= |nodes| && MeshIndicesValid(nodes, meshes)
    requires i < k && nodes[i].meshIndex >= 0
    ensures MeshNodeCount(nodes, i) < |DrawCallsUpTo(nodes, meshes, k)|
    ensures DrawCallsUpTo(nodes, meshes, k)[MeshNodeCount(nodes, i)] == DrawCallFor(nodes[i], meshes[nodes[i].meshIndex])
  {
    DrawCallsLength(nodes, meshes, k - 1);
    if i < k - 1 {
      DrawCallsLayout(nodes, meshes, k - 1, i);
    }
  }

  /** The animations built from the first `k` animations of the document. */
  function AnimationsUpTo(doc: Document, k: nat): (animations: seq<Animation>)
    requires WellFormed(doc) && k <= |doc.animations|
    ensures |animations| == k
  {
    if k == 0 then [] else AnimationsUpTo(doc, k - 1) + [AnimationOf(doc.animations[k - 1])]
  }

  /** Every animation has a non-negative duration and every track it samples can be sampled. */
  predicate AnimationsPlayable(animations: seq<Animation>) {
    forall a :: 0 <= a < |animations| ==> animations[a].duration >= 0.0 && TracksSamplable(animations[a].channels)
  }

  /** The animations of a well-formed document can be played. */
  lemma {:induction false} BuiltAnimationsPlayable(doc: Document, k: nat)
    requires WellFormed(doc) && k <= |doc.animations|
    ensures AnimationsPlayable(AnimationsUpTo(doc, k))
  {
    if k > 0 {
      BuiltAnimationsPlayable(doc, k - 1);
      var a := doc.animations[k - 1];
      assert AnimationReadable(a);
      DurationIsMax(a);
      forall j | 0 <= j < |AnimationOf(a).channels| && IsTransformPath(AnimationOf(a).channels[j].path)
        ensures Samplable(AnimationOf(a).channels[j].times, AnimationOf(a).channels[j].values)
      {
        ChannelsUpToAt(a, |a.channels|, j);
        TransformTrackSamplable(a, j);
      }
      var all := AnimationsUpTo(doc, k);
      assert forall x :: 0 <= x < k - 1 ==> all[x] == AnimationsUpTo(doc, k - 1)[x];
    }
  }

  /** The arenas differ at most in local transforms. */
  ghost predicate SameButLocals(a: seq<Node>, b: seq<Node>) {
    && |a| == |b|
    && forall i :: 0 <= i < |a| ==> a[i] == b[i].(localTransform := a[i].localTransform)
  }

  lemma LocalsKeepStructure(a: seq<Node>, b: seq<Node>, rank: seq<nat>, meshes: seq<Mesh>)
    requires SameButLocals(a, b)
    ensures RankedBy(b, rank) ==> RankedBy(a, rank)
    ensures Linked(b) ==> Linked(a)
    ensures MeshIndicesValid(b, meshes) ==> MeshIndicesValid(a, meshes)
  {
    assert forall i :: 0 <= i < |a| ==> a[i].children == b[i].children && a[i].parent == b[i].parent;
  }

  /** Draw's propagation from the roots keeps the ranking and the mesh indices, and when
      parent links and children lists agree it composes every global transform. */
  lemma RootPassValid(nodes: seq<Node>, rank: seq<nat>, meshes: seq<Mesh>)
    requires RankedBy(nodes, rank) && MeshIndicesValid(nodes, meshes)
    ensures RankedBy(RootPass(nodes, rank, |nodes|), rank)
    ensures MeshIndicesValid(RootPass(nodes, rank, |nodes|), meshes)
    ensures Linked(nodes) ==> GlobalsComposed(RootPass(nodes, rank, |nodes|))
    ensures Linked(nodes) ==> Linked(RootPass(nodes, rank, |nodes|))
  {
    var r := RootPass(nodes, rank, |nodes|);
    ShapeKeepsRank(r, nodes, rank);
    assert forall d :: 0 <= d < |r| ==> r[d].meshIndex == nodes[d].meshIndex;
    if Linked(nodes) {
      DrawPassGlobals(nodes, rank);
    }
  }

  class Model {
    var nodes: seq<Node>
    var meshes: seq<Mesh>
    var animations: seq<Animation>
    var currentAnimation: int
    var animationTime: Time
    /** A rank that drops from every node to each of its children; it bounds the hierarchy walk. */
    ghost var rank: seq<nat>

    ghost predicate Valid()
      reads this
    {
      && RankedBy(nodes, rank)
      && MeshIndicesValid(nodes, meshes)
      && AnimationsPlayable(animations)
      && (if |animations| == 0 then currentAnimation == -1 else 0 <= currentAnimation < |animations|)
      && ClockInRange()
    }

    /** The clock of the selected animation is NaN or not past its duration, so a zero tick
        leaves it where it is. */
    ghost predicate ClockInRange()
      reads this
    {
      0 <= currentAnimation < |animations| ==>
        animationTime.NaN? || animationTime.seconds <= animations[currentAnimation].duration
    }

    /** Model::Model(path): `loaded` is what the glTF loader returned for the file at `path`,
        None when loading failed. A failed load leaves the model empty; otherwise the model holds
        the built node arena and meshes and the converted animations, with the first animation
        selected when there is one. */
    constructor (loaded: Option<Document>)
      requires loaded.Some? ==> WellFormed(loaded.value) && Acyclic(loaded.value)
      ensures Valid()
      ensures animationTime == Finite(0.0)
      ensures currentAnimation == if |animations| > 0 then 0 else -1
      ensures loaded.None? ==> nodes == [] && meshes == [] && animations == []
      ensures loaded.Some? ==>
                && Arena(nodes, meshes) == Build(loaded.value)
                && animations == AnimationsUpTo(loaded.value, |loaded.value.animations|)
                && (DocForest(loaded.value) ==> Linked(nodes))
    {
      nodes := [];
      meshes := [];
      animations := [];
      currentAnimation := -1;
      animationTime := Finite(0.0);
      rank := [];
      new;
      if loaded.Some? {
        LoadModel(loaded.value);
      }
    }

    /** Model::LoadModel after a successful load: reset a node per document node, walk scene 0
        from each of its roots, then convert the animations. */
    method LoadModel(doc: Document)
      requires WellFormed(doc) && Acyclic(doc)
      requires nodes == [] && meshes == [] && animations == [] && currentAnimation == -1
      requires animationTime == Finite(0.0)
      modifies this
      ensures Valid()
      ensures Arena(nodes, meshes) == Build(doc)
      ensures animations == AnimationsUpTo(doc, |doc.animations|)
      ensures currentAnimation == if |animations| > 0 then 0 else -1
      ensures animationTime == old(animationTime)
      ensures DocForest(doc) ==> Linked(nodes)
    {
      nodes := Initial(doc).nodes;
      rank := Rank(doc);
      ProcessScene(doc);
      assert RankedBy(nodes, rank) && MeshIndicesValid(nodes, meshes) && (DocForest(doc) ==> Linked(nodes)) by {
        BuildShape(doc);
      }
      ProcessAnimations(doc);
      BuiltAnimationsPlayable(doc, |doc.animations|);
    }

    /** LoadModel's walk of scene 0: process each of its root nodes, in order, with no parent;
        a document without scenes leaves the reset arena as it is. */
    method ProcessScene(doc: Document)
      requires WellFormed(doc) && Acyclic(doc) && Arena(nodes, meshes) == Initial(doc)
      modifies this`nodes, this`meshes
      ensures Arena(nodes, meshes) == Build(doc)
    {
      if |doc.scenes| > 0 {
        var roots := doc.scenes[0].nodes;
        var k := 0;
        while k < |roots|
          invariant k <= |roots| && Arena(nodes, meshes) == WalkRoots(doc, Initial(doc), k)
        {
          WalkRootsStep(doc, Initial(doc), k);
          ProcessNode(doc, roots[k], -1);
          k := k + 1;
        }
      }
    }

    /** Model::ProcessNode: the walk from node `nodeIndex`, reached from `parentIndex`. */
    method ProcessNode(doc: Document, nodeIndex: int, parentIndex: int)
      requires WalkPre(doc, Arena(nodes, meshes), nodeIndex, parentIndex)
      modifies this`nodes, this`meshes
      ensures Arena(nodes, meshes) == Walk(doc, old(Arena(nodes, meshes)), nodeIndex, parentIndex)
      decreases Rank(doc)[nodeIndex], 1
    {
      ghost var a := Arena(nodes, meshes);
      var node := doc.nodes[nodeIndex];
      nodes := nodes[nodeIndex := nodes[nodeIndex].(name := node.name, parent := parentIndex)];
      if parentIndex >= 0 {
        nodes := nodes[parentIndex := nodes[parentIndex].(children := nodes[parentIndex].children + [nodeIndex])];
      }
      var local := ReadLocal(node);
      nodes := nodes[nodeIndex := nodes[nodeIndex].(localTransform := local)];
      if node.mesh >= 0 {
        nodes := nodes[nodeIndex := nodes[nodeIndex].(meshIndex := |meshes|)];
        ProcessMesh(doc, node.mesh);
      }
      assert Arena(nodes, meshes) == Visit(doc, a, nodeIndex, parentIndex);
      var children := node.children;
      var k := 0;
      while k < |children|
        invariant k <= |children| && |nodes| == |doc.nodes|
        invariant WalkChildren(doc, Arena(nodes, meshes), nodeIndex, k) == Walk(doc, a, nodeIndex, parentIndex)
      {
        WalkChildrenStep(doc, Arena(nodes, meshes), nodeIndex, k);
        ProcessNode(doc, children[k], nodeIndex);
        k := k + 1;
      }
    }

    /** Model::ProcessMesh: flatten a document mesh and append it. */
    method ProcessMesh(doc: Document, meshIndex: int)
      requires WellFormed(doc) && 0 <= meshIndex < |doc.meshes|
      modifies this`meshes
      ensures meshes == old(meshes) + [FlattenMesh(doc, doc.meshes[meshIndex])]
    {
      var mesh := ConvertMesh(doc, doc.meshes[meshIndex]);
      meshes := meshes + [mesh];
    }

    /** Model::ProcessAnimations: convert every animation in document order and select the
        first one when there is any. */
    method ProcessAnimations(doc: Document)
      requires WellFormed(doc)
      modifies this`animations, this`currentAnimation
      ensures animations == old(animations) + AnimationsUpTo(doc, |doc.animations|)
      ensures currentAnimation == if |animations| > 0 then 0 else old(currentAnimation)
    {
      var k := 0;
      while k < |doc.animations|
        invariant k <= |doc.animations|
        invariant animations == old(animations) + AnimationsUpTo(doc, k)
        invariant currentAnimation == old(currentAnimation)
      {
        var animation := ConvertAnimation(doc.animations[k]);
        animations := animations + [animation];
        k := k + 1;
      }
      if |animations| > 0 {
        currentAnimation := 0;
      }
    }

    /** Model::UpdateAnimation: with no animation selected nothing changes. Otherwise the clock
        advances by `deltaTime` (wrapping with fmodf only past the duration) and each channel
        that drives an existing node replaces its local transform with the value sampled at
        the new time; nothing but local transforms and the clock changes. */
    method UpdateAnimation(deltaTime: real)
      requires Valid()
      modifies this`nodes, this`animationTime
      ensures Valid()
      ensures SameButLocals(nodes, old(nodes))
      ensures Linked(old(nodes)) ==> Linked(nodes)
      ensures deltaTime == 0.0 ==> animationTime == old(animationTime)
      ensures !(0 <= currentAnimation < |animations|) ==> nodes == old(nodes) && animationTime == old(animationTime)
      ensures 0 <= currentAnimation < |animations| ==>
                && animationTime == Advance(old(animationTime), deltaTime, animations[currentAnimation].duration)
                && nodes == ApplyChannels(old(nodes), animations[currentAnimation].channels, animationTime,
                                          |animations[currentAnimation].channels|)
    {
      if currentAnimation < 0 || currentAnimation >= |animations| {
        return;
      }
      var animation := animations[currentAnimation];
      if animationTime.Finite? {
        var sum := animationTime.seconds + deltaTime;
        if sum > animation.duration {
          animationTime := Fmod(sum, animation.duration);
        } else {
          animationTime := Finite(sum);
        }
      }
      assert animationTime == Advance(old(animationTime), deltaTime, animation.duration);
      AdvanceClock(old(animationTime), deltaTime, animation.duration);
      ghost var now := animationTime;
      var k := 0;
      while k < |animation.channels|
        invariant k <= |animation.channels| && animationTime == now
        invariant nodes == ApplyChannels(old(nodes), animation.channels, animationTime, k)
      {
        var channel := animation.channels[k];
        var nodeIndex := channel.targetNode;
        if 0 <= nodeIndex < |nodes| && IsTransformPath(channel.path) {
          var value := InterpolateValues(channel.times, channel.values, animationTime);
          if channel.path == "translation" {
            nodes := nodes[nodeIndex := nodes[nodeIndex].(localTransform := Translate(Vec3(value.x, value.y, value.z)))];
          } else if channel.path == "rotation" {
            nodes := nodes[nodeIndex := nodes[nodeIndex].(localTransform := Rotate(Quat(value.w, value.x, value.y, value.z)))];
          } else {
            nodes := nodes[nodeIndex := nodes[nodeIndex].(localTransform := Scale(Vec3(value.x, value.y, value.z)))];
          }
        }
        k := k + 1;
      }
      assert SameButLocals(nodes, old(nodes)) by {
        ApplyKeepsShape(old(nodes), animation.channels, animationTime, |animation.channels|);
      }
      LocalsKeepStructure(nodes, old(nodes), rank, meshes);
    }

    /** Model::SetAnimation: select animation `animIndex` and restart its clock when it exists;
        otherwise change nothing. */
    method SetAnimation(animIndex: int)
      requires Valid()
      modifies this`currentAnimation, this`animationTime
      ensures Valid()
      ensures 0 <= animIndex < |animations| ==> currentAnimation == animIndex && animationTime == Finite(0.0)
      ensures !(0 <= animIndex < |animations|) ==>
                currentAnimation == old(currentAnimation) && animationTime == old(animationTime)
    {
      if animIndex >= 0 && animIndex < |animations| {
        currentAnimation := animIndex;
        animationTime := Finite(0.0);
      }
    }

    /** Model::UpdateNodeHierarchy: set node `nodeIndex`'s global transform to
        `parentTransform * local` and recurse into its children with it. */
    method UpdateNodeHierarchy(nodeIndex: int, parentTransform: Mat4)
      requires RankedBy(nodes, rank) && 0 <= nodeIndex < |nodes|
      modifies this`nodes
      ensures nodes == Propagate(old(nodes), rank, nodeIndex, parentTransform)
      decreases rank[nodeIndex], 1
    {
      nodes := nodes[nodeIndex := nodes[nodeIndex].(globalTransform := Mul(parentTransform, nodes[nodeIndex].localTransform))];
      ShapeKeepsRank(nodes, old(nodes), rank);
      var children := nodes[nodeIndex].children;
      var k := 0;
      while k < |children|
        invariant k <= |children| && RankedBy(nodes, rank) && |nodes| == |old(nodes)|
        invariant nodes[nodeIndex].children == children
        invariant PropagateChildren(nodes, rank, nodeIndex, k) == Propagate(old(nodes), rank, nodeIndex, parentTransform)
      {
        ghost var before := nodes;
        UpdateNodeHierarchy(children[k], nodes[nodeIndex].globalTransform);
        ShapeKeepsRank(nodes, before, rank);
        k := k + 1;
      }
    }

    /** The first loop of Model::Draw: propagate global transforms from every node without a
        parent, in index order. When parent links and children lists agree, every node's global
        transform ends as its parent's global transform (the identity for a root) times its
        local transform. */
    method UpdateRoots()
      requires Valid()
      modifies this`nodes
      ensures Valid()
      ensures nodes == RootPass(old(nodes), rank, |nodes|)
      ensures Linked(old(nodes)) ==> GlobalsComposed(nodes) && Linked(nodes)
    {
      var i := 0;
      while i < |nodes|
        invariant i <= |nodes| && |nodes| == |old(nodes)|
        invariant nodes == RootPass(old(nodes), rank, i)
      {
        RootPassNext(old(nodes), rank, i);
        if nodes[i].parent == -1 {
          UpdateNodeHierarchy(i, Identity);
        }
        i := i + 1;
      }
      RootPassValid(old(nodes), rank, meshes);
    }

    /** Model::Draw: propagate global transforms from the roots, then issue one draw per node
        with a mesh, in node order, with that node's global transform, the mesh's first texture
        when it has one, and an indexed draw of its index count or else a draw of its vertex
        count. */
    method Draw() returns (calls: seq<DrawCall>)
      requires Valid()
      modifies this`nodes
      ensures Valid()
      ensures nodes == RootPass(old(nodes), rank, |nodes|)
      ensures calls == DrawCallsUpTo(nodes, meshes, |nodes|)
      ensures Linked(old(nodes)) ==> GlobalsComposed(nodes) && Linked(nodes)
    {
      UpdateRoots();
      ghost var propagated := nodes;
      calls := [];
      var i := 0;
      while i < |nodes|
        invariant nodes == propagated
        invariant i <= |nodes| && calls == DrawCallsUpTo(nodes, meshes, i)
      {
        if nodes[i].meshIndex >= 0 {
          calls := calls + [DrawCallFor(nodes[i], meshes[nodes[i].meshIndex])];
        }
        i := i + 1;
      }
    }
  }
}
