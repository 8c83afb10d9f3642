/** The records Model keeps after loading (Model.h): meshes, animation
    channels, animations and scene-graph nodes. GPU handles (VAO, VBO, EBO) are
    represented by the contents uploaded into them. */
module SceneTypes {
  import opened Transforms
  import opened Gltf

  /** Where a mesh texture was loaded from: an image file named by URI (resolved next to
      the model file), or an image embedded in the document. */
  datatype TextureSource = FromFile(uri: string) | FromImage(image: nat)

  /** A mesh: the floats uploaded into its VBO, the indices uploaded into its EBO,
      the textures bound to it and the index count its draw uses. */
  datatype Mesh = Mesh(vertexData: seq<real>, indices: seq<uint32>, textures: seq<TextureSource>, indexCount: int)

  /** An animation channel: its target path, keyframe times, 4-wide keyframe values and target node. */
  datatype AnimationChannel = AnimationChannel(path: string, times: seq<real>, values: seq<Vec4>, targetNode: int)

  datatype Animation = Animation(name: string, duration: real, channels: seq<AnimationChannel>)

  /** A scene-graph node in the arena: parent and children are indices into the node array,
      -1 meaning "no parent" and "no mesh". */
  datatype Node = Node(
    name: string,
    localTransform: Mat4,
    globalTransform: Mat4,
    parent: int,
    children: seq<int>,
    meshIndex: int)
}
