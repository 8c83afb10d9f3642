/** Mesh flattening (Model::ProcessMesh without its OpenGL calls) and the draw
    mode Model::Draw picks for a mesh.

    Each primitive that has a POSITION accessor contributes eight floats per
    vertex (position, colour, texture coordinate), its index accessor's
    elements widened to 32 bits when their component type is an unsigned byte,
    short or int, and the texture its material names. */
module MeshData {
  import opened Transforms
  import opened Gltf
  import opened SceneTypes

  const EmptyMesh := Mesh([], [], [], 0)

  function VertexFloats(position: Vec3, color: Vec3, uv: Vec2): seq<real> {
    [position.x, position.y, position.z, color.x, color.y, color.z, uv.s, uv.t]
  }

  /** The colour written for vertex `i`: black while the mesh has no texture yet,
      else the COLOR_0 entry, else white. */
  function VertexColor(p: Primitive, black: bool, i: nat): Vec3
    requires p.color.Some? ==> i < |p.color.value|
  {
    if black then Vec3(0.0, 0.0, 0.0)
    else if p.color.Some? then p.color.value[i]
    else Vec3(1.0, 1.0, 1.0)
  }

  /** The texture coordinate written for vertex `i`: the TEXCOORD_0 entry, else (0, 0). */
  function VertexUV(p: Primitive, i: nat): Vec2
    requires p.texcoord.Some? ==> i < |p.texcoord.value|
  {
    if p.texcoord.Some? then p.texcoord.value[i] else Vec2(0.0, 0.0)
  }

  /** The interleaved floats of the first `n` vertices of a primitive. */
  function Interleave(p: Primitive, black: bool, n: nat): seq<real>
    requires p.position.Some? && n <= |p.position.value|
    requires p.texcoord.Some? ==> |p.texcoord.value| >= |p.position.value|
    requires p.color.Some? ==> |p.color.value| >= |p.position.value|
  {
    if n == 0 then []
    else Interleave(p, black, n - 1)
           + VertexFloats(p.position.value[n - 1], VertexColor(p, black, n - 1), VertexUV(p, n - 1))
  }

  predicate IsIndexComponentType(componentType: int) {
    componentType == UNSIGNED_SHORT || componentType == UNSIGNED_INT || componentType == UNSIGNED_BYTE
  }

  /** The 32-bit indices an index accessor contributes: its elements in order when
      their component type is one the loader widens, nothing otherwise. */
  function WidenedIndices(a: IndexAccessor): seq<uint32> {
    if IsIndexComponentType(a.componentType) then a.elements else []
  }

  /** The texture a primitive's material makes the loader bind, if any. */
  function PrimitiveTexture(doc: Document, p: Primitive): Option<TextureSource>
    requires p.material >= 0 ==> p.material < |doc.materials|
    requires p.material >= 0 && doc.materials[p.material].baseColorTexture >= 0 ==>
               doc.materials[p.material].baseColorTexture < |doc.textures| &&
               doc.textures[doc.materials[p.material].baseColorTexture].source < |doc.images|
  {
    if p.material < 0 then None
    else
      var t := doc.materials[p.material].baseColorTexture;
      if t < 0 then None
      else
        var img := doc.textures[t].source;
        if img < 0 then None
        else if |doc.images[img].uri| > 0 then Some(FromFile(doc.images[img].uri))
        else if doc.images[img].byteCount > 0 then Some(FromImage(img))
        else None
  }

  function OptionSeq<T>(o: Option<T>): seq<T> {
    if o.Some? then [o.value] else []
  }

  /** The mesh after one more primitive: nothing changes for a primitive without POSITION. */
  function AddPrimitive(doc: Document, m: Mesh, p: Primitive): Mesh
    requires PrimitiveReadable(doc, p)
  {
    if p.position.None? then m
    else
      Mesh(m.vertexData + Interleave(p, |m.textures| == 0, |p.position.value|),
           m.indices + (if p.indices.Some? then WidenedIndices(p.indices.value) else []),
           m.textures + OptionSeq(PrimitiveTexture(doc, p)),
           if p.indices.Some? then |p.indices.value.elements| else m.indexCount)
  }

  /** The mesh built from the first `n` primitives. */
  function FlattenUpTo(doc: Document, gm: GltfMesh, n: nat): Mesh
    requires MeshReadable(doc, gm) && n <= |gm.primitives|
  {
    if n == 0 then EmptyMesh
    else AddPrimitive(doc, FlattenUpTo(doc, gm, n - 1), gm.primitives[n - 1])
  }

  function FlattenMesh(doc: Document, gm: GltfMesh): Mesh
    requires MeshReadable(doc, gm)
  {
    FlattenUpTo(doc, gm, |gm.primitives|)
  }

  /** The vertex and index loops of Model::ProcessMesh, building the data its VBO and EBO receive. */
  method ConvertMesh(doc: Document, gm: GltfMesh) returns (mesh: Mesh)
    requires MeshReadable(doc, gm)
    ensures mesh == FlattenMesh(doc, gm)
  {
    var vertexData: seq<real> := [];
    var indices: seq<uint32> := [];
    var textures: seq<TextureSource> := [];
    var indexCount := 0;
    var k := 0;
    while k < |gm.primitives|
      invariant k <= |gm.primitives|
      invariant Mesh(vertexData, indices, textures, indexCount) == FlattenUpTo(doc, gm, k)
    {
      var p := gm.primitives[k];
      assert PrimitiveReadable(doc, p);
      if p.position.None? {
        k := k + 1;
        continue;
      }
      vertexData := AppendVertices(p, |textures| == 0, vertexData);
      if p.indices.Some? {
        indexCount := |p.indices.value.elements|;
        indices := AppendIndices(p.indices.value, indices);
      }
      if p.material >= 0 {
        var t := doc.materials[p.material].baseColorTexture;
        if t >= 0 {
          var img := doc.textures[t].source;
          if img >= 0 {
            if |doc.images[img].uri| > 0 {
              textures := textures + [FromFile(doc.images[img].uri)];
            } else if doc.images[img].byteCount > 0 {
              textures := textures + [FromImage(img)];
            }
          }
        }
      }
      k := k + 1;
    }
    mesh := Mesh(vertexData, indices, textures, indexCount);
  }

  /** The vertex loop of Model::ProcessMesh for one primitive: eight floats per POSITION
      entry appended in order, the colour black when `black` holds. */
  method AppendVertices(p: Primitive, black: bool, vertexData: seq<real>) returns (r: seq<real>)
    requires p.position.Some?
    requires p.texcoord.Some? ==> |p.texcoord.value| >= |p.position.value|
    requires p.color.Some? ==> |p.color.value| >= |p.position.value|
    ensures r == vertexData + Interleave(p, black, |p.position.value|)
  {
    var positions := p.position.value;
    r := vertexData;
    var i := 0;
    while i < |positions|
      invariant i <= |positions|
      invariant r == vertexData + Interleave(p, black, i)
    {
      var color := VertexColor(p, black, i);
      var uv := VertexUV(p, i);
      r := r + [positions[i].x, positions[i].y, positions[i].z, color.x, color.y, color.z, uv.s, uv.t];
      i := i + 1;
    }
  }

  /** The index loop of Model::ProcessMesh for one primitive: the accessor's elements are
      appended in order when their component type is an unsigned byte, short or int. */
  method AppendIndices(accessor: IndexAccessor, indices: seq<uint32>) returns (r: seq<uint32>)
    ensures r == indices + WidenedIndices(accessor)
  {
    r := indices;
    if IsIndexComponentType(accessor.componentType) {
      var j := 0;
      while j < |accessor.elements|
        invariant j <= |accessor.elements|
        invariant r == indices + accessor.elements[..j]
      {
        r := r + [accessor.elements[j]];
        j := j + 1;
      }
      assert accessor.elements[..j] == accessor.elements;
    }
  }

  /** Number of vertices the first `n` primitives contribute: those of every primitive with POSITION. */
  function KeptVertexCount(gm: GltfMesh, n: nat): nat
    requires n <= |gm.primitives|
  {
    if n == 0 then 0
    else
      var p := gm.primitives[n - 1];
      KeptVertexCount(gm, n - 1) + if p.position.Some? then |p.position.value| else 0
  }

  /** Number of indices the first `n` primitives contribute. */
  function IndexTotal(gm: GltfMesh, n: nat): nat
    requires n <= |gm.primitives|
  {
    if n == 0 then 0
    else
      var p := gm.primitives[n - 1];
      IndexTotal(gm, n - 1) + if p.position.Some? && p.indices.Some? then |WidenedIndices(p.indices.value)| else 0
  }

  /** Some primitive before `j` that has POSITION made the loader bind a texture. */
  ghost predicate TexturedBefore(doc: Document, gm: GltfMesh, j: nat)
    requires MeshReadable(doc, gm) && j <= |gm.primitives|
  {
    exists k :: 0 <= k < j && gm.primitives[k].position.Some? && PrimitiveTexture(doc, gm.primitives[k]).Some?
  }

  /** The primitive has POSITION (so it is kept) and an index accessor. */
  predicate Indexed(p: Primitive) {
    p.position.Some? && p.indices.Some?
  }

  lemma {:induction false} InterleaveAt(p: Primitive, black: bool, n: nat, i: nat)
    requires p.position.Some? && n <= |p.position.value|
    requires p.texcoord.Some? ==> |p.texcoord.value| >= |p.position.value|
    requires p.color.Some? ==> |p.color.value| >= |p.position.value|
    requires i < n
    ensures |Interleave(p, black, n)| == 8 * n
    ensures Interleave(p, black, n)[8 * i .. 8 * i + 8]
         == VertexFloats(p.position.value[i], VertexColor(p, black, i), VertexUV(p, i))
  {
    InterleaveLength(p, black, n - 1);
    if i < n - 1 {
      InterleaveAt(p, black, n - 1, i);
      var a := Interleave(p, black, n - 1);
      var b := VertexFloats(p.position.value[n - 1], VertexColor(p, black, n - 1), VertexUV(p, n - 1));
      assert (a + b)[8 * i .. 8 * i + 8] == a[8 * i .. 8 * i + 8];
    }
  }

  lemma {:induction false} InterleaveLength(p: Primitive, black: bool, n: nat)
    requires p.position.Some? && n <= |p.position.value|
    requires p.texcoord.Some? ==> |p.texcoord.value| >= |p.position.value|
    requires p.color.Some? ==> |p.color.value| >= |p.position.value|
    ensures |Interleave(p, black, n)| == 8 * n
  {
    if n > 0 {
      InterleaveLength(p, black, n - 1);
    }
  }

  /** Model::ProcessMesh writes exactly eight floats per vertex of every primitive that has
      POSITION and nothing for the others. */
  lemma {:induction false} FlattenLength(doc: Document, gm: GltfMesh, n: nat)
    requires MeshReadable(doc, gm) && n <= |gm.primitives|
    ensures |FlattenUpTo(doc, gm, n).vertexData| == 8 * KeptVertexCount(gm, n)
    ensures |FlattenUpTo(doc, gm, n).indices| == IndexTotal(gm, n)
  {
    if n > 0 {
      FlattenLength(doc, gm, n - 1);
      var p := gm.primitives[n - 1];
      assert PrimitiveReadable(doc, p);
      if p.position.Some? {
        var m := FlattenUpTo(doc, gm, n - 1);
        InterleaveLength(p, |m.textures| == 0, |p.position.value|);
      }
    }
  }

  /** Later primitives only append: the data built from the first `j` primitives is a
      prefix of the data built from the first `n`. */
  lemma {:induction false} FlattenGrows(doc: Document, gm: GltfMesh, j: nat, n: nat)
    requires MeshReadable(doc, gm) && j <= n <= |gm.primitives|
    ensures FlattenUpTo(doc, gm, j).vertexData <= FlattenUpTo(doc, gm, n).vertexData
    ensures FlattenUpTo(doc, gm, j).indices <= FlattenUpTo(doc, gm, n).indices
    ensures FlattenUpTo(doc, gm, j).textures <= FlattenUpTo(doc, gm, n).textures
  {
    if j < n {
      FlattenGrows(doc, gm, j, n - 1);
      assert PrimitiveReadable(doc, gm.primitives[n - 1]);
    }
  }

  /** The mesh has no texture yet when primitive `j` is processed exactly when no earlier
      primitive with POSITION made the loader bind one. */
  lemma {:induction false} NoTextureYet(doc: Document, gm: GltfMesh, j: nat)
    requires MeshReadable(doc, gm) && j <= |gm.primitives|
    ensures |FlattenUpTo(doc, gm, j).textures| == 0 <==> !TexturedBefore(doc, gm, j)
  {
    if j > 0 {
      NoTextureYet(doc, gm, j - 1);
      var p := gm.primitives[j - 1];
      assert PrimitiveReadable(doc, p);
      if p.position.Some? && PrimitiveTexture(doc, p).Some? {
        assert TexturedBefore(doc, gm, j);
      } else if TexturedBefore(doc, gm, j) {
        var k :| 0 <= k < j && gm.primitives[k].position.Some? && PrimitiveTexture(doc, gm.primitives[k]).Some?;
        assert k < j - 1;
        assert TexturedBefore(doc, gm, j - 1);
      }
    }
  }

  /** The vertex layout: vertex `i` of primitive `j` (which has POSITION) occupies the eight floats
      starting at eight times the number of vertices before it, holding its position, its colour
      and its texture coordinate. The colour is black exactly when no earlier primitive with
      POSITION bound a texture (the texture check runs before this primitive's own texture is
      loaded), else the COLOR_0 entry, else white; normals are never written. */
  lemma FlattenVertexLayout(doc: Document, gm: GltfMesh, j: nat, i: nat)
    requires MeshReadable(doc, gm) && j < |gm.primitives|
    requires gm.primitives[j].position.Some? && i < |gm.primitives[j].position.value|
    ensures PrimitiveReadable(doc, gm.primitives[j])
    ensures 8 * (KeptVertexCount(gm, j) + i) + 8 <= |FlattenMesh(doc, gm).vertexData|
    ensures var p := gm.primitives[j];
            var base := 8 * (KeptVertexCount(gm, j) + i);
            FlattenMesh(doc, gm).vertexData[base .. base + 8]
              == VertexFloats(p.position.value[i], VertexColor(p, !TexturedBefore(doc, gm, j), i), VertexUV(p, i))
  {
    var p := gm.primitives[j];
    var black := |FlattenUpTo(doc, gm, j).textures| == 0;
    VertexBlockPlaced(doc, gm, j);
    NoTextureYet(doc, gm, j);
    InterleaveAt(p, black, |p.position.value|, i);
    SliceOfPrefix(FlattenUpTo(doc, gm, j).vertexData, Interleave(p, black, |p.position.value|),
                  FlattenMesh(doc, gm).vertexData, 8 * i, 8 * i + 8);
  }

  /** Primitive `j`'s interleaved vertices sit in the final vertex data right after those of
      the primitives before it, which take eight floats per kept vertex. */
  lemma VertexBlockPlaced(doc: Document, gm: GltfMesh, j: nat)
    requires MeshReadable(doc, gm) && j < |gm.primitives| && gm.primitives[j].position.Some?
    ensures PrimitiveReadable(doc, gm.primitives[j])
    ensures var p := gm.primitives[j];
            var before := FlattenUpTo(doc, gm, j);
            && |before.vertexData| == 8 * KeptVertexCount(gm, j)
            && before.vertexData + Interleave(p, |before.textures| == 0, |p.position.value|)
               <= FlattenMesh(doc, gm).vertexData
  {
    FlattenLength(doc, gm, j);
    FlattenStep(doc, gm, j);
    FlattenGrows(doc, gm, j + 1, |gm.primitives|);
  }

  /** What primitive `j` appends when it has POSITION. */
  lemma FlattenStep(doc: Document, gm: GltfMesh, j: nat)
    requires MeshReadable(doc, gm) && j < |gm.primitives| && gm.primitives[j].position.Some?
    ensures PrimitiveReadable(doc, gm.primitives[j])
    ensures var p := gm.primitives[j];
            var before := FlattenUpTo(doc, gm, j);
            var after := FlattenUpTo(doc, gm, j + 1);
            && after.vertexData == before.vertexData + Interleave(p, |before.textures| == 0, |p.position.value|)
            && after.indices == before.indices + (if p.indices.Some? then WidenedIndices(p.indices.value) else [])
  {
    assert PrimitiveReadable(doc, gm.primitives[j]);
  }

  /** A slice of the part `b` of a sequence that begins with `a + b`. */
  lemma SliceOfPrefix<T>(a: seq<T>, b: seq<T>, big: seq<T>, lo: nat, hi: nat)
    requires a + b <= big && lo <= hi <= |b|
    ensures |a| + hi <= |big|
    ensures big[|a| + lo .. |a| + hi] == b[lo .. hi]
  {
    assert big[|a| + lo .. |a| + hi] == (a + b)[|a| + lo .. |a| + hi];
  }

  /** The index layout: when primitive `j` has POSITION and an index accessor of an unsigned
      byte, short or int type, its elements appear in order, with their values unchanged (no
      vertex offset is added), right after the indices of the primitives before it. */
  lemma FlattenIndexLayout(doc: Document, gm: GltfMesh, j: nat, k: nat)
    requires MeshReadable(doc, gm) && j < |gm.primitives| && Indexed(gm.primitives[j])
    requires IsIndexComponentType(gm.primitives[j].indices.value.componentType)
    requires k < |gm.primitives[j].indices.value.elements|
    ensures IndexTotal(gm, j) + k < |FlattenMesh(doc, gm).indices|
    ensures FlattenMesh(doc, gm).indices[IndexTotal(gm, j) + k] == gm.primitives[j].indices.value.elements[k]
  {
    var elements := gm.primitives[j].indices.value.elements;
    var before := FlattenUpTo(doc, gm, j).indices;
    FlattenLength(doc, gm, j);
    FlattenStep(doc, gm, j);
    FlattenGrows(doc, gm, j + 1, |gm.primitives|);
    SliceOfPrefix(before, elements, FlattenMesh(doc, gm).indices, k, k + 1);
    assert FlattenMesh(doc, gm).indices[|before| + k .. |before| + k + 1][0] == elements[k .. k + 1][0];
  }

  /** Primitive `n - 1` sets indexCount to its element count when it is indexed and leaves it
      alone otherwise. */
  lemma IndexCountStep(doc: Document, gm: GltfMesh, n: nat)
    requires MeshReadable(doc, gm) && 0 < n <= |gm.primitives|
    ensures FlattenUpTo(doc, gm, n).indexCount
         == if Indexed(gm.primitives[n - 1]) then |gm.primitives[n - 1].indices.value.elements|
            else FlattenUpTo(doc, gm, n - 1).indexCount
  {
    assert PrimitiveReadable(doc, gm.primitives[n - 1]);
  }

  /** indexCount stays 0 while no primitive with POSITION has an index accessor. */
  lemma {:induction false} FlattenIndexCountNone(doc: Document, gm: GltfMesh, n: nat)
    requires MeshReadable(doc, gm) && n <= |gm.primitives|
    requires forall k :: 0 <= k < n ==> !Indexed(gm.primitives[k])
    ensures FlattenUpTo(doc, gm, n).indexCount == 0
  {
    if n > 0 {
      FlattenIndexCountNone(doc, gm, n - 1);
      IndexCountStep(doc, gm, n);
    }
  }

  /** indexCount is that of the last primitive `j` with POSITION and an index accessor
      (whatever its component type): each such primitive overwrites it. */
  lemma {:induction false} FlattenIndexCountLast(doc: Document, gm: GltfMesh, n: nat, j: nat)
    requires MeshReadable(doc, gm) && j < n <= |gm.primitives|
    requires Indexed(gm.primitives[j])
    requires forall k :: j < k < n ==> !Indexed(gm.primitives[k])
    ensures FlattenUpTo(doc, gm, n).indexCount == |gm.primitives[j].indices.value.elements|
  {
    IndexCountStep(doc, gm, n);
    if j < n - 1 {
      FlattenIndexCountLast(doc, gm, n - 1, j);
    }
  }

  /** The NORMAL accessor has no effect on what is built: two meshes whose primitives differ
      only in their normals flatten to the same data. */
  lemma {:induction false} NormalsIgnored(doc: Document, gm: GltfMesh, gm': GltfMesh, n: nat)
    requires MeshReadable(doc, gm) && MeshReadable(doc, gm')
    requires |gm'.primitives| == |gm.primitives| && n <= |gm.primitives|
    requires forall k :: 0 <= k < |gm.primitives| ==>
               gm'.primitives[k] == gm.primitives[k].(normal := gm'.primitives[k].normal)
    ensures FlattenUpTo(doc, gm', n) == FlattenUpTo(doc, gm, n)
  {
    if n > 0 {
      NormalsIgnored(doc, gm, gm', n - 1);
      var p, p' := gm.primitives[n - 1], gm'.primitives[n - 1];
      assert PrimitiveReadable(doc, p) && PrimitiveReadable(doc, p');
      if p.position.Some? {
        var black := |FlattenUpTo(doc, gm, n - 1).textures| == 0;
        InterleaveSameButNormals(p, p', black, |p.position.value|);
      }
    }
  }

  lemma {:induction false} InterleaveSameButNormals(p: Primitive, p': Primitive, black: bool, n: nat)
    requires p' == p.(normal := p'.normal)
    requires p.position.Some? && n <= |p.position.value|
    requires p.texcoord.Some? ==> |p.texcoord.value| >= |p.position.value|
    requires p.color.Some? ==> |p.color.value| >= |p.position.value|
    ensures Interleave(p', black, n) == Interleave(p, black, n)
  {
    if n > 0 {
      InterleaveSameButNormals(p, p', black, n - 1);
    }
  }

  datatype DrawMode = Elements(count: int) | Arrays(vertexCount: int)

  /** Model::Draw's choice for a mesh: an indexed draw of indexCount indices when it is positive,
      else a plain draw of the VBO's size over the 8-float stride. */
  function DrawModeOf(m: Mesh): DrawMode {
    if m.indexCount > 0 then Elements(m.indexCount) else Arrays(|m.vertexData| / 8)
  }

  /** For a flattened mesh the draw is indexed exactly when the last indexed primitive has a
      positive count, and a non-indexed draw covers every vertex of every primitive with POSITION. */
  lemma FlattenedDrawMode(doc: Document, gm: GltfMesh)
    requires MeshReadable(doc, gm)
    ensures var m := FlattenMesh(doc, gm);
            DrawModeOf(m) == if m.indexCount > 0 then Elements(m.indexCount)
                             else Arrays(KeptVertexCount(gm, |gm.primitives|))
  {
    FlattenLength(doc, gm, |gm.primitives|);
  }
}
