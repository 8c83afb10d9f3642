/** The glTF 2.0 document as the scene builder reads it, after the loader has
    decoded it: every accessor the builder reads is given as the sequence of
    values it holds, and indices into the document's arrays are plain ints
    (negative meaning "absent", as in tinygltf). */
module Gltf {
  import opened Transforms

  datatype Option<T> = None | Some(value: T)

  newtype uint32 = x: int | 0 <= x < 0x1_0000_0000

  /** Accessor component types for indices (section 3.6.2 of the glTF 2.0 specification). */
  const UNSIGNED_BYTE: int := 5121
  const UNSIGNED_SHORT: int := 5123
  const UNSIGNED_INT: int := 5125

  /** An index accessor: its component type and its `count` elements, each read at that width. */
  datatype IndexAccessor = IndexAccessor(componentType: int, elements: seq<uint32>)

  /** A mesh primitive. Each attribute is the decoded accessor named by that
      key of `attributes`, or None when the key is missing. */
  datatype Primitive = Primitive(
    position: Option<seq<Vec3>>,      // "POSITION"
    normal: Option<seq<Vec3>>,        // "NORMAL"
    texcoord: Option<seq<Vec2>>,      // "TEXCOORD_0"
    color: Option<seq<Vec3>>,         // "COLOR_0", read three floats per vertex
    indices: Option<IndexAccessor>,   // primitive.indices >= 0
    material: int)

  datatype GltfMesh = GltfMesh(primitives: seq<Primitive>)

  /** Only the base-colour texture reference of pbrMetallicRoughness is read. */
  datatype Material = Material(baseColorTexture: int)

  datatype TextureRef = TextureRef(source: int)

  /** An image: its URI (empty for an embedded image) and the number of decoded bytes it carries. */
  datatype Image = Image(uri: string, byteCount: nat)

  datatype GltfNode = GltfNode(
    name: string,
    matrix: seq<real>,
    translation: seq<real>,
    rotation: seq<real>,   // x, y, z, w as stored in the file
    scale: seq<real>,
    mesh: int,
    children: seq<int>)

  /** A float accessor: `count` elements whose components are laid out flat in `data`. */
  datatype FloatAccessor = FloatAccessor(count: nat, data: seq<real>)

  /** An animation sampler: its input accessor (keyframe times) and output accessor. */
  datatype Sampler = Sampler(input: seq<real>, output: FloatAccessor)

  datatype Channel = Channel(sampler: int, targetNode: int, targetPath: string)

  datatype GltfAnimation = GltfAnimation(name: string, channels: seq<Channel>, samplers: seq<Sampler>)

  datatype Scene = Scene(nodes: seq<int>)

  datatype Document = Document(
    nodes: seq<GltfNode>,
    meshes: seq<GltfMesh>,
    materials: seq<Material>,
    textures: seq<TextureRef>,
    images: seq<Image>,
    animations: seq<GltfAnimation>,
    scenes: seq<Scene>)

  /** Number of floats one output element of a channel occupies for the paths the builder reads. */
  function OutputStride(path: string): nat {
    if path == "rotation" then 4 else if path == "translation" || path == "scale" then 3 else 0
  }

  /** Every index the node walk follows is in range. */
  ghost predicate NodesInRange(doc: Document) {
    && (forall n, k :: 0 <= n < |doc.nodes| && 0 <= k < |doc.nodes[n].children| ==>
          0 <= doc.nodes[n].children[k] < |doc.nodes|)
    && (forall n :: 0 <= n < |doc.nodes| ==> doc.nodes[n].mesh < |doc.meshes|)
    && (|doc.scenes| > 0 ==>
          forall k :: 0 <= k < |doc.scenes[0].nodes| ==> 0 <= doc.scenes[0].nodes[k] < |doc.nodes|)
  }

  /** What the mesh flattening reads of a primitive that has a POSITION accessor is there:
      the optional attributes have an entry per vertex, and the material, texture and image
      it follows are in range. */
  ghost predicate PrimitiveReadable(doc: Document, p: Primitive) {
    p.position.Some? ==>
      && (p.texcoord.Some? ==> |p.texcoord.value| >= |p.position.value|)
      && (p.color.Some? ==> |p.color.value| >= |p.position.value|)
      && (p.material >= 0 ==>
            && p.material < |doc.materials|
            && var t := doc.materials[p.material].baseColorTexture;
               t >= 0 ==> t < |doc.textures| && doc.textures[t].source < |doc.images|)
  }

  ghost predicate MeshReadable(doc: Document, m: GltfMesh) {
    forall k :: 0 <= k < |m.primitives| ==> PrimitiveReadable(doc, m.primitives[k])
  }

  /** Every channel names a sampler of its animation, the sampler's output accessor holds
      `count` elements of the width the channel's path reads, and a sampled track is readable. */
  ghost predicate AnimationReadable(a: GltfAnimation) {
    forall k :: 0 <= k < |a.channels| ==>
      && 0 <= a.channels[k].sampler < |a.samplers|
      && (var out := a.samplers[a.channels[k].sampler].output;
          |out.data| >= OutputStride(a.channels[k].targetPath) * out.count)
      && TrackReadable(a.samplers[a.channels[k].sampler], a.channels[k].targetPath)
  }

  /** What sampling a translation, rotation or scale track reads is there: at least one
      keyframe, an output element per keyframe, and a non-zero first time step (glTF 2.0
      requires strictly increasing times, section 3.11). Tracks of other paths are not sampled. */
  predicate TrackReadable(s: Sampler, path: string) {
    OutputStride(path) > 0 ==>
      && |s.input| >= 1
      && s.output.count >= |s.input|
      && (|s.input| >= 2 ==> s.input[0] != s.input[1])
  }

  ghost predicate WellFormed(doc: Document) {
    && NodesInRange(doc)
    && (forall m :: 0 <= m < |doc.meshes| ==> MeshReadable(doc, doc.meshes[m]))
    && (forall a :: 0 <= a < |doc.animations| ==> AnimationReadable(doc.animations[a]))
  }

  /** `rank` decreases from every node to each of its children: a witness that
      following children from any node ends. */
  ghost predicate Ranked(doc: Document, rank: seq<nat>) {
    && |rank| == |doc.nodes|
    && forall n, k :: 0 <= n < |doc.nodes| && 0 <= k < |doc.nodes[n].children| ==>
         0 <= doc.nodes[n].children[k] < |doc.nodes| && rank[doc.nodes[n].children[k]] < rank[n]
  }

  /** The children links of the document have no cycle. */
  ghost predicate Acyclic(doc: Document) {
    exists rank :: Ranked(doc, rank)
  }

  ghost function Rank(doc: Document): (rank: seq<nat>)
    requires Acyclic(doc)
    ensures Ranked(doc, rank)
  {
    var rank :| Ranked(doc, rank); rank
  }

  /** The node hierarchy is a forest as section 3.5 of the glTF 2.0 specification demands:
      no node is the child of two different nodes, and no root of scene 0 is anybody's child. */
  ghost predicate DocForest(doc: Document) {
    && (forall p, q, c ::
          0 <= p < |doc.nodes| && 0 <= q < |doc.nodes| &&
          c in doc.nodes[p].children && c in doc.nodes[q].children
          ==> p == q)
    && (|doc.scenes| > 0 ==>
          forall k, p :: 0 <= k < |doc.scenes[0].nodes| && 0 <= p < |doc.nodes| ==>
            doc.scenes[0].nodes[k] !in doc.nodes[p].children)
  }
}
