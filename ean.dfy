/** The in-memory records of the animation and skeleton files the editor
    works on: an animation is a name, a frame count and one node per
    animated bone; a node holds keyframed channels, each tagged with a
    flag saying which component (position, orientation, scale) it drives. */
module Ean {

  /** The value the files use for a missing parent, child or sibling link. */
  const NONE: nat := 65535

  datatype Keyframe = Keyframe(frame: int, w: real, x: real, y: real, z: real)

  /** One keyframed channel of a node (a `KeyframedAnimation`). */
  datatype Channel = Channel(flag: int, keyframes: seq<Keyframe>)

  /** The keyframes of one bone within an animation. */
  datatype Node = Node(boneIndex: int, boneName: string, channels: seq<Channel>)

  datatype Animation = Animation(name: string, frameCount: int, nodes: seq<Node>)

  /** A skeleton bone: its name, its position in the bone list and the
      links to its parent, first child and next sibling (NONE when absent).
      Transform matrices are not part of this model. */
  datatype Bone = Bone(name: string, index: nat, parentIndex: nat, childIndex: nat, siblingIndex: nat)
}
