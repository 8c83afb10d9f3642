# BilliardsOpenGL scene model in Dafny

This project models the scene-graph and animation core of the `Model` class of
BilliardsOpenGL (Model.cpp, with the records of Model.h). The class loads a glTF 2.0
document and keeps four things:

- a node arena, where parent and children are indices into the node array;
- the flattened meshes;
- the converted animations;
- a playback state made of the current animation and a clock.

Every frame it advances the animation, propagates global transforms from the roots,
and draws each node that has a mesh.

Modules, one file each:

- `transforms.dfy` (`Transforms`): the glm vocabulary.
  - Vectors are records of reals.
  - A 4x4 matrix is the symbolic term that built it: identity, sixteen column-major
    entries, translate, rotate (quaternion), scale, or product. Two transforms built
    the same way are equal.
  - `glm::mix` is written out component by component.
- `gltf.dfy` (`Gltf`): the decoded glTF document the loader hands over.
  - Accessors are sequences of decoded values.
  - It defines what the builder needs of a document: `WellFormed` (indices in range,
    accessors long enough), `Acyclic` (children links have a ranking), and `DocForest`
    (the node hierarchy is a forest, as section 3.5 of the glTF 2.0 specification
    demands).
- `scene_types.dfy` (`SceneTypes`): `Mesh`, `AnimationChannel`, `Animation` and `Node`
  of Model.h. GPU buffers are represented by the data uploaded into them, and textures
  by where they were loaded from.
- `node_forest.dfy` (`NodeForest`): the depth-first walk of `ProcessNode` as functions
  over an arena, with its frame, effect, invariant and link-agreement lemmas.
- `mesh_data.dfy` (`MeshData`): `ProcessMesh` (vertex interleave, index widening,
  texture choice) and the draw mode `Draw` picks.
- `tracks.dfy` (`Tracks`): `ProcessAnimations` (times, 4-wide values, duration).
- `keyframes.dfy` (`Keyframes`): `InterpolateValues`, and the playback clock with
  fmodf wrap-around.
- `playback.dfy` (`Playback`): channel application in `UpdateAnimation`.
- `hierarchy.dfy` (`Hierarchy`): `UpdateNodeHierarchy` and the root loop of `Draw`.
  - It defines the intended global transform of every node by following parent links
    upward.
  - It proves that the root pass computes exactly that when parent links and children
    lists agree.
- `model.dfy` (`ModelState`): the `Model` class.
  - Its `nodes`, `meshes`, `animations`, `currentAnimation` and `animationTime` fields
    are updated in place by methods that follow the structure of the source's member
    functions: the same loops and recursive calls, over the same fields.
  - Two places depart from the source's statement order or guards.
    `UpdateAnimation` applies only translation, rotation and scale channels; that is the
    correction recorded under "## Findings". `ProcessMesh` picks each vertex colour while
    interleaving (black while the mesh has no texture yet, else COLOR_0, else white);
    the source fills white, overwrites with COLOR_0 and then forces black in three
    passes (Model.cpp:141, 189-211), with the same resulting colours.
  - Each method is proved against the specification functions above.

How the C++ maps onto Dafny:

- Floats are `real`.
- A clock reading is `Finite(seconds)` or `NaN`: fmodf by a zero duration yields NaN,
  and the NaN then persists.
- The uninitialised `globalTransform` of a node gets an explicit value: the identity.
- Like the code (Model.cpp), the model has no bind-pose restore, no one-shot playback,
  one active animation at a time, no base-colour fallback, and always writes a colour in
  the second vertex triple.

## Model

| member | source | states |
|---|---|---|
| Transforms.Mix | Model.cpp:482 | glm::mix: each component of the result is `a + t * (b - a)`, the point a fraction `t` of the way from `a` to `b` |
| Keyframes.InterpolateValues | Model.cpp:472-487 | the early-return scan returns the sampler value `Sample(times, values, now)` |
| Keyframes.SkipPassed | Model.cpp:479-484 | segments whose end time `now` is not before are skipped, so the scan reaches segment `i` unchanged |
| Keyframes.SampleBracket | Model.cpp:479-483 | for the first segment `i` with `now < times[i+1]` the result is `mix(values[i], values[i+1], (now - times[i]) / (times[i+1] - times[i]))` with a non-zero divisor, component-wise also for quaternions, extrapolating before `times[0]` |
| Keyframes.SampleClamps | Model.cpp:475-486 | a one-keyframe track yields `values[0]` at any time; a time not before any later keyframe time, or a NaN clock, yields the last value |
| Keyframes.SampleAtKeyframe | Model.cpp:479-486 | with strictly increasing times, sampling exactly at keyframe time `k` yields `values[k]` |
| Keyframes.FloorBounds | Model.cpp:439 | fmodf of a non-negative sum by a positive duration lies in `[0, duration)` |
| Keyframes.AdvanceClock | Model.cpp:437-440 | a zero tick leaves a clock not past the duration unchanged; a non-negative sum ends in `[0, duration]` for a positive duration; a sum past the duration is reduced by whole durations; a zero duration turns a positive sum into NaN; NaN stays NaN |
| Tracks.ConvertAnimation | Model.cpp:329-387 | the loop body of ProcessAnimations builds `AnimationOf(a)`: name, duration and one channel per glTF channel, in order |
| Tracks.ReadTimes | Model.cpp:348-351 | the times are copied unchanged and the duration becomes the std::max of its old value and every time |
| Tracks.ReadValues | Model.cpp:357-382 | three floats plus w = 0 per element for translation and scale, four for rotation, nothing for any other path |
| Tracks.MaxUpToIsMax | Model.cpp:350 | the running std::max is at least its start and every time folded in, and equals the start or one of the times |
| Tracks.DurationUpToIsMax | Model.cpp:332-351 | after `k` channels the duration is non-negative, bounds every keyframe time seen, and is 0 or one of those times |
| Tracks.ChannelsUpToAt | Model.cpp:334-385 | channel `j` of the converted list is the conversion of glTF channel `j` |
| Tracks.DurationIsMax | Model.cpp:332-351 | an animation's duration is the maximum of 0 and every keyframe time of all its channels (at least 0, bounds all, attained or 0) |
| Tracks.TrackValuesLength | Model.cpp:357-382 | a translation, rotation or scale track gets one value per output element; other paths get none |
| Tracks.TrackValuesAt | Model.cpp:357-382 | value `i` holds the floats at stride 4 for rotation, or at stride 3 with w = 0 for translation and scale |
| Tracks.ChannelContents | Model.cpp:334-384 | a converted channel keeps path, target node and times unchanged, and its values are the output elements read at the path's stride (none for other paths) |
| Tracks.TransformTrackSamplable | Model.cpp:442-448 | every translation, rotation or scale channel of a readable animation can be sampled |
| Playback.Undriven | Model.cpp:442-462 | a node that no channel drives keeps its node record, including its local transform |
| Playback.LastChannelWins | Model.cpp:442-462 | a driven node ends with the transform of the last channel that drives it, sampled at the clock; the rest of the node is unchanged |
| Playback.ApplyKeepsShape | Model.cpp:442-462 | applying channels changes only local transforms |
| Playback.WeightsChannelSampledAsWritten | Model.cpp:442-448 | a weights channel has times but no values, so it cannot be sampled, yet the source samples it whenever its target node exists |
| MeshData.ConvertMesh | Model.cpp:122-301 | the primitive loop builds exactly `FlattenMesh(doc, gm)` |
| MeshData.AppendVertices | Model.cpp:213-224 | the vertex loop appends the interleaved floats of every vertex of the primitive, in order |
| MeshData.AppendIndices | Model.cpp:234-255 | elements of an unsigned byte, short or int accessor are appended in order with unchanged values; another component type appends nothing |
| MeshData.InterleaveLength | Model.cpp:213-224 | `n` vertices give exactly `8 * n` floats |
| MeshData.InterleaveAt | Model.cpp:213-224 | vertex `i` occupies floats `8i..8i+8`: position, colour, uv |
| MeshData.FlattenLength | Model.cpp:129-256 | the vertex data has 8 floats per vertex of every primitive with POSITION; the index count is the sum of the widened index counts of such primitives |
| MeshData.FlattenGrows | Model.cpp:126-301 | later primitives only append vertex data, indices and textures |
| MeshData.NoTextureYet | Model.cpp:206-211 | colours are forced to black for a primitive exactly when no earlier kept primitive loaded a texture |
| MeshData.VertexBlockPlaced | Model.cpp:213-224 | primitive `j`'s vertices follow, in the final data, the `8 * KeptVertexCount` floats of the primitives before it |
| MeshData.FlattenStep | Model.cpp:129-256 | a primitive with POSITION appends its interleaved vertices and its widened indices |
| MeshData.FlattenVertexLayout | Model.cpp:129-224 | vertex `i` of kept primitive `j` sits at float `8 * (vertices before + i)`; its colour is black if no earlier kept primitive loaded a texture, else COLOR_0, else white; its uv is TEXCOORD_0 or (0, 0) |
| MeshData.FlattenIndexLayout | Model.cpp:226-256 | widened index `k` of kept primitive `j` sits right after the indices of earlier primitives, with its value unchanged (no vertex offset) |
| MeshData.IndexCountStep | Model.cpp:226-232 | an indexed kept primitive overwrites indexCount with its element count; any other primitive leaves it |
| MeshData.FlattenIndexCountNone | Model.h:25 | with no indexed kept primitive indexCount stays at its initial 0 |
| MeshData.FlattenIndexCountLast | Model.cpp:226-232 | indexCount is the element count of the last indexed kept primitive, whatever its component type |
| MeshData.NormalsIgnored | Model.cpp:156-171 | meshes that differ only in their NORMAL accessors flatten identically |
| MeshData.InterleaveSameButNormals | Model.cpp:156-224 | a primitive's interleaved floats do not depend on its normals |
| MeshData.FlattenedDrawMode | Model.cpp:418-423 | a flattened mesh draws indexed iff indexCount > 0, else draws every kept vertex |
| NodeForest.ReadMatrix | Model.cpp:77-84 | the sixteen entries are copied in order |
| NodeForest.ReadLocal | Model.cpp:77-110 | the local transform is the file's matrix if it has 16 entries, else `T * R * S` with each absent part the identity |
| NodeForest.Initial | Model.cpp:51-56 | after the reset every node has parent -1, mesh index -1, the identity local transform and no children, and there are no meshes |
| NodeForest.WalkFrame | Model.cpp:67-120 | processing `n` from `p` only appends meshes; `p` gains `n` as its last child; no other node ranked above `n` changes |
| NodeForest.WalkChildrenFrame | Model.cpp:117-119 | the child loop gives `n` exactly its remaining document children in order and changes no other node ranked at or above `n` |
| NodeForest.WalkChildrenStep | Model.cpp:117-119 | each child may be processed from `n`, ranks below `n`, and leaves the rest of the loop |
| NodeForest.WalkRootsStep | Model.cpp:58-62 | each root of scene 0 is processed with parent -1 and extends the walk |
| NodeForest.WalkEffect | Model.cpp:67-120 | a processed node ends with its name, the caller as parent, its resolved local transform, the index of its appended mesh and its document children appended; the caller gains it as last child; the appended mesh is its flattened mesh |
| NodeForest.VisitAt | Model.cpp:70-115 | the node's own step changes only `n`'s parent and `p`'s children, and keeps mesh indices valid |
| NodeForest.VisitKeepsInv | Model.cpp:70-115 | the node's own step keeps children among document children and mesh indices valid |
| NodeForest.VisitKeepsLinked | Model.cpp:70-75 | in a glTF forest the node's own step keeps parent links and children lists in agreement |
| NodeForest.WalkKeeps | Model.cpp:67-120 | processing a node keeps the arena invariant |
| NodeForest.WalkChildrenKeeps | Model.cpp:117-119 | the child loop keeps the arena invariant |
| NodeForest.WalkLinked | Model.cpp:67-120 | in a glTF forest processing a node keeps links in agreement |
| NodeForest.WalkChildrenLinked | Model.cpp:117-119 | in a glTF forest the child loop keeps links in agreement |
| NodeForest.WalkRootsKeeps | Model.cpp:58-62 | the root loop keeps the arena invariant |
| NodeForest.WalkRootsLinked | Model.cpp:58-62 | in a glTF forest the root loop keeps links in agreement |
| NodeForest.BuildShape | Model.cpp:51-62 | the built arena lists only document children, is ranked, has valid mesh indices, and for a glTF forest has agreeing links |
| Hierarchy.Propagate | Model.cpp:489-497 | UpdateNodeHierarchy changes only global transforms |
| Hierarchy.PropagateChildren | Model.cpp:494-496 | the child loop changes only global transforms |
| Hierarchy.RootPass | Model.cpp:396-400 | the root loop changes only global transforms |
| Hierarchy.RootPassNext | Model.cpp:396-400 | node `k` starts a propagation from the identity exactly when its parent is -1 |
| Hierarchy.HasRoot | Model.cpp:396-400 | with agreeing links every node descends from a node whose parent is -1 |
| Hierarchy.PropagateSets | Model.cpp:489-497 | propagating from `i` with its parent's intended global gives every node of `i`'s subtree its intended global and no other node a new one |
| Hierarchy.PropagateChildrenSets | Model.cpp:494-496 | the child loop sets the intended global of exactly the subtrees of the remaining children |
| Hierarchy.RootPassStep | Model.cpp:396-400 | one turn of the root loop sets the subtree of a parentless node and changes nothing otherwise |
| Hierarchy.RootPassSets | Model.cpp:396-400 | after `k` turns exactly the nodes under a parentless node among the first `k` hold their intended global |
| Hierarchy.RootPassGlobal | Model.cpp:396-400 | after the whole root loop every node holds its intended global |
| Hierarchy.DrawPassGlobals | Model.cpp:396-400 | after the root loop `global = parent.global * local` for every node with a parent and `Identity * local` for roots, with locals, parents and children unchanged |
| ModelState.DrawCallsLength | Model.cpp:402-427 | one draw per node with a mesh |
| ModelState.DrawCallsLayout | Model.cpp:402-427 | node `i`'s draw comes after those of earlier mesh nodes and uses its global transform, its mesh's first texture and its mesh's draw mode |
| ModelState.BuiltAnimationsPlayable | Model.cpp:328-393 | converted animations have non-negative durations and samplable transform tracks |
| ModelState.LocalsKeepStructure | Model.cpp:442-462 | changing only local transforms keeps ranking, link agreement and mesh indices |
| ModelState.RootPassValid | Model.cpp:396-400 | the root loop keeps ranking and mesh indices, and with agreeing links composes every global and keeps the links in agreement |
| ModelState.Model.constructor | Model.cpp:7-12 | a failed load leaves the model empty with animation -1 and clock 0; a loaded document gives the built arena, the converted animations, animation 0 iff there is one, and agreeing links for a glTF forest |
| ModelState.Model.LoadModel | Model.cpp:51-64 | reset, root walk and animation conversion produce `Build(doc)` and `AnimationsUpTo(doc)`, select animation 0 iff one exists, and leave the model valid; it is called on the freshly constructed model, whose clock is 0 (Model.cpp:9) |
| ModelState.Model.ProcessScene | Model.cpp:58-62 | the loop over scene 0's roots builds `Build(doc)`; without scenes the reset arena stays |
| ModelState.Model.ProcessNode | Model.cpp:67-120 | the recursive method yields exactly `Walk(doc, arena, n, p)` |
| ModelState.Model.ProcessMesh | Model.cpp:122-326 | appends exactly the flattened mesh |
| ModelState.Model.ProcessAnimations | Model.cpp:328-393 | appends the converted animations in order and sets currentAnimation to 0 iff the list is non-empty |
| ModelState.Model.UpdateAnimation | Model.cpp:430-463 | out of range: nothing changes; otherwise the clock advances with fmodf wrap only past the duration and the nodes become `ApplyChannels` at the new clock, with only local transforms changed; a zero tick leaves the clock where it is, since the model keeps the clock NaN or not past the selected animation's duration; agreeing links stay in agreement |
| ModelState.Model.SetAnimation | Model.cpp:465-470 | an index in range selects that animation and resets the clock to 0; otherwise nothing changes |
| ModelState.Model.UpdateNodeHierarchy | Model.cpp:489-497 | the recursive method yields exactly `Propagate(nodes, rank, i, parentTransform)` |
| ModelState.Model.UpdateRoots | Model.cpp:396-400 | the root loop yields `RootPass`, keeps the model valid, and with agreeing links composes every global and keeps the links in agreement |
| ModelState.Model.Draw | Model.cpp:395-428 | propagates from the roots and returns one draw call per mesh node in node order (global transform, first texture if any, indexed iff indexCount > 0, else vertex count); agreeing links stay in agreement |

## Left out

- Document parsing by tinygltf, and the `.glb` suffix choice between binary and text loading: the document arrives already decoded, and only success or failure reaches the constructor.
- The raw buffer reads: each accessor is a sequence of decoded values.
- OpenGL:
  - VAO, VBO and EBO creation and attribute linking;
  - texture upload (a texture is represented by its image URI or embedded image index);
  - the uniform and draw calls, which are returned as `DrawCall` records;
  - the destructor.
- Diagnostic printing.
- Float arithmetic: reals stand for floats, so rounding, overflow and infinities are not modelled. fmodf by zero is modelled as NaN.
- glm matrix and quaternion arithmetic: matrices are symbolic terms, so algebraic identities between different terms are not available.
- The glm default value of `globalTransform` before the first `Draw` is modelled as the identity.
- `Mesh::name` and `Model::path`: neither affects the core.
- Camera, Skybox, Texture, the shader class and Main are not part of this model.
- Keyframes.InterpolateValues: requires at least one keyframe time, a value per time and distinct first two times. The source reads out of bounds or divides by zero otherwise, and the glTF 2.0 specification (section 3.11) rules these inputs out.
- ModelState.Model.LoadModel: requires in-range indices and an acyclic document. For the nodes scene 0 reaches and the meshes they reference, the source indexes out of bounds or recurses without end otherwise.
- ModelState.Model.LoadModel: the requires also takes glTF 2.0 validity rules as given where the source would not fail without them. Every translation, rotation or scale channel must have at least one keyframe, an output element per keyframe and distinct first two times, even when its target node does not exist and Model.cpp:444-446 skips it (section 3.11 of glTF 2.0). The children links must have no cycle anywhere, even among nodes no scene reaches and Model.cpp:58-62 never walks (section 3.5 of glTF 2.0). The children and mesh indices of every node must be in range, even for nodes scene 0 never reaches (Model.cpp:58-62 walks only its roots and their descendants). Every mesh must be readable, including its material, texture and image indices, even when no walked node references it (Model.cpp:112-114 reads only the meshes of walked nodes). Documents that break only these rules are not covered.
- Hierarchy.DrawPassGlobals: the composed-globals property is proved only when parent links and children lists agree, which holds for a glTF forest. For a document that lists a node under two parents, the source's result depends on visiting order. The model computes that result (`RootPass`) but states nothing more about it.

## Findings

| source | as written | input that shows it | evidently intended | confidence | as-written member | corrected member |
|---|---|---|---|---|---|---|
| Model.cpp:442-448 | every channel whose target node exists is passed to InterpolateValues, but ProcessAnimations (Model.cpp:357-382) gives a channel of any other path, such as morph-target `weights`, no values, so the sampler reads `values[0]`, `values[i]` or `values.back()` of an empty vector | an animation with one channel `weights` targeting node 0, with keyframe times `[0.0]`, in a model with at least one node | sample and apply only translation, rotation and scale channels | not executed; high | Playback.WeightsChannelSampledAsWritten | ModelState.Model.UpdateAnimation |
