/** Channel application in Model::UpdateAnimation: each channel that drives
    an existing node replaces that node's local transform with a pure
    translation, rotation or scale built from the sampled value. */
module Playback {
  import opened Transforms
  import opened Gltf
  import opened SceneTypes
  import opened Keyframes
  import opened Tracks

  /** The matrix a sampled value becomes: a translation or a scale by its x, y, z, or the
      rotation of the quaternion (w, x, y, z). */
  function ChannelTransform(path: string, v: Vec4): Mat4
    requires IsTransformPath(path)
  {
    if path == "translation" then Translate(XYZ(v))
    else if path == "rotation" then Rotate(Quat(v.w, v.x, v.y, v.z))
    else Scale(XYZ(v))
  }

  /** Every translation, rotation and scale track can be sampled. */
  predicate TracksSamplable(channels: seq<AnimationChannel>) {
    forall j :: 0 <= j < |channels| && IsTransformPath(channels[j].path) ==>
      Samplable(channels[j].times, channels[j].values)
  }

  /** Channel `c` drives node `i` of an arena of `count` nodes: it targets that existing node
      and animates translation, rotation or scale. */
  predicate Drives(c: AnimationChannel, count: int, i: int) {
    0 <= c.targetNode < count && c.targetNode == i && IsTransformPath(c.path)
  }

  /** The node arena after the first `k` channels at clock `now`. */
  function ApplyChannels(nodes: seq<Node>, channels: seq<AnimationChannel>, now: Time, k: nat): (r: seq<Node>)
    requires k <= |channels| && TracksSamplable(channels)
    ensures |r| == |nodes|
  {
    if k == 0 then nodes
    else
      var cur := ApplyChannels(nodes, channels, now, k - 1);
      var c := channels[k - 1];
      if 0 <= c.targetNode < |cur| && IsTransformPath(c.path) then
        cur[c.targetNode := cur[c.targetNode].(localTransform := ChannelTransform(c.path, Sample(c.times, c.values, now)))]
      else cur
  }

  /** A node no channel drives keeps its local transform. */
  lemma {:induction false} Undriven(nodes: seq<Node>, channels: seq<AnimationChannel>, now: Time, k: nat, i: int)
    requires k <= |channels| && TracksSamplable(channels) && 0 <= i < |nodes|
    requires forall j :: 0 <= j < k ==> !Drives(channels[j], |nodes|, i)
    ensures ApplyChannels(nodes, channels, now, k)[i] == nodes[i]
  {
    if k > 0 {
      Undriven(nodes, channels, now, k - 1, i);
    }
  }

  /** Last channel wins: a node's local transform ends as the one built from the last channel
      that drives it, sampled at `now`, and nothing else of the node changes. */
  lemma {:induction false} LastChannelWins(nodes: seq<Node>, channels: seq<AnimationChannel>, now: Time, k: nat, i: int, j: nat)
    requires k <= |channels| && TracksSamplable(channels) && 0 <= i < |nodes|
    requires j < k && Drives(channels[j], |nodes|, i)
    requires forall j' :: j < j' < k ==> !Drives(channels[j'], |nodes|, i)
    ensures ApplyChannels(nodes, channels, now, k)[i]
         == nodes[i].(localTransform := ChannelTransform(channels[j].path, Sample(channels[j].times, channels[j].values, now)))
  {
    var cur := ApplyChannels(nodes, channels, now, k - 1);
    if j == k - 1 {
      ApplyKeepsShape(nodes, channels, now, k - 1);
    } else {
      LastChannelWins(nodes, channels, now, k - 1, i, j);
      assert !Drives(channels[k - 1], |nodes|, i);
    }
  }

  /** Applying channels only changes local transforms. */
  lemma {:induction false} ApplyKeepsShape(nodes: seq<Node>, channels: seq<AnimationChannel>, now: Time, k: nat)
    requires k <= |channels| && TracksSamplable(channels)
    ensures forall i :: 0 <= i < |nodes| ==>
              ApplyChannels(nodes, channels, now, k)[i]
                == nodes[i].(localTransform := ApplyChannels(nodes, channels, now, k)[i].localTransform)
  {
    if k > 0 {
      ApplyKeepsShape(nodes, channels, now, k - 1);
    }
  }

  /** The channels Model::UpdateAnimation as written samples: every channel whose target node
      exists, whatever its path. */
  predicate SampledAsWritten(c: AnimationChannel, count: int) {
    0 <= c.targetNode < count
  }

  /** A weights channel keeps its keyframe times but gets no values, so its track can never be
      sampled (the search reads values[0], values[i] or the last value of an empty sequence);
      as written it is sampled all the same once its target node exists, while the corrected
      update skips it because it drives no transform. */
  lemma WeightsChannelSampledAsWritten()
    ensures var a := GltfAnimation("morph", [Channel(0, 0, "weights")],
                                   [Sampler([0.0], FloatAccessor(1, [0.5]))]);
            var ch := ChannelOf(a, 0);
            && AnimationReadable(a)
            && ch.times == [0.0] && ch.values == []
            && SampledAsWritten(ch, 1)
            && !Samplable(ch.times, ch.values)
            && !Drives(ch, 1, 0)
  {
  }
}
