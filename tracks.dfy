/** Animation tracks (Model::ProcessAnimations): each glTF channel becomes a
    keyframe-time sequence and a sequence of 4-wide values, and each animation
    gets the largest keyframe time of its channels as its duration. */
module Tracks {
  import opened Transforms
  import opened Gltf
  import opened SceneTypes
  import opened Keyframes

  /** The paths whose tracks Model::UpdateAnimation turns into a transform: translation,
      rotation and scale, exactly the paths whose output values are read. */
  predicate IsTransformPath(path: string) {
    OutputStride(path) > 0
  }

  /** The first `n` values of a track: for translation and scale three floats padded with
      w = 0, for rotation four floats (x, y, z, w as stored), for any other path none. */
  function TrackValues(path: string, out: FloatAccessor, n: nat): seq<Vec4>
    requires n <= out.count && |out.data| >= OutputStride(path) * out.count
  {
    if n == 0 || OutputStride(path) == 0 then []
    else
      var i := n - 1;
      TrackValues(path, out, i) +
        if path == "rotation" then [Vec4(out.data[4 * i], out.data[4 * i + 1], out.data[4 * i + 2], out.data[4 * i + 3])]
        else [Vec4(out.data[3 * i], out.data[3 * i + 1], out.data[3 * i + 2], 0.0)]
  }

  /** A channel of animation `a` as the loader keeps it. */
  function ChannelOf(a: GltfAnimation, k: nat): AnimationChannel
    requires AnimationReadable(a) && k < |a.channels|
  {
    var c := a.channels[k];
    var s := a.samplers[c.sampler];
    AnimationChannel(c.targetPath, s.input, TrackValues(c.targetPath, s.output, s.output.count), c.targetNode)
  }

  function Max(x: real, y: real): real {
    if x < y then y else x
  }

  /** std::max folded over the first `n` times, starting from `d`. */
  function MaxUpTo(d: real, times: seq<real>, n: nat): real
    requires n <= |times|
  {
    if n == 0 then d else Max(MaxUpTo(d, times, n - 1), times[n - 1])
  }

  /** The running duration after the keyframe times of the first `k` channels, starting from 0. */
  function DurationUpTo(a: GltfAnimation, k: nat): real
    requires AnimationReadable(a) && k <= |a.channels|
  {
    if k == 0 then 0.0
    else
      var times := a.samplers[a.channels[k - 1].sampler].input;
      MaxUpTo(DurationUpTo(a, k - 1), times, |times|)
  }

  function ChannelsUpTo(a: GltfAnimation, k: nat): (channels: seq<AnimationChannel>)
    requires AnimationReadable(a) && k <= |a.channels|
    ensures |channels| == k
  {
    if k == 0 then [] else ChannelsUpTo(a, k - 1) + [ChannelOf(a, k - 1)]
  }

  /** The animation the loader builds from a glTF animation. */
  function AnimationOf(a: GltfAnimation): Animation
    requires AnimationReadable(a)
  {
    Animation(a.name, DurationUpTo(a, |a.channels|), ChannelsUpTo(a, |a.channels|))
  }

  /** The loop body of Model::ProcessAnimations for one animation: per channel, copy the
      keyframe times while folding them into the duration, then read the values. */
  method ConvertAnimation(a: GltfAnimation) returns (animation: Animation)
    requires AnimationReadable(a)
    ensures animation == AnimationOf(a)
  {
    var duration := 0.0;
    var channels: seq<AnimationChannel> := [];
    var k := 0;
    while k < |a.channels|
      invariant k <= |a.channels|
      invariant duration == DurationUpTo(a, k) && channels == ChannelsUpTo(a, k)
    {
      var c := a.channels[k];
      var s := a.samplers[c.sampler];
      var times;
      times, duration := ReadTimes(s.input, duration);
      var values := ReadValues(c.targetPath, s.output);
      channels := channels + [AnimationChannel(c.targetPath, times, values, c.targetNode)];
      k := k + 1;
    }
    animation := Animation(a.name, duration, channels);
  }

  /** The keyframe-time loop of Model::ProcessAnimations: the times are copied in order and
      the running duration becomes the std::max of `start` and all of them. */
  method ReadTimes(input: seq<real>, start: real) returns (times: seq<real>, duration: real)
    ensures times == input && duration == MaxUpTo(start, input, |input|)
  {
    times := [];
    duration := start;
    var i := 0;
    while i < |input|
      invariant i <= |input|
      invariant times == input[..i] && duration == MaxUpTo(start, input, i)
    {
      times := times + [input[i]];
      duration := Max(duration, input[i]);
      i := i + 1;
    }
  }

  /** The keyframe-value loops of Model::ProcessAnimations: three floats per keyframe (w = 0)
      for translation and scale, four for rotation, none for any other path. */
  method ReadValues(path: string, out: FloatAccessor) returns (values: seq<Vec4>)
    requires |out.data| >= OutputStride(path) * out.count
    ensures values == TrackValues(path, out, out.count)
  {
    values := [];
    if path == "translation" || path == "scale" {
      var i := 0;
      while i < out.count
        invariant i <= out.count && values == TrackValues(path, out, i)
      {
        values := values + [Vec4(out.data[i * 3 + 0], out.data[i * 3 + 1], out.data[i * 3 + 2], 0.0)];
        i := i + 1;
      }
    } else if path == "rotation" {
      var i := 0;
      while i < out.count
        invariant i <= out.count && values == TrackValues(path, out, i)
      {
        values := values + [Vec4(out.data[i * 4 + 0], out.data[i * 4 + 1], out.data[i * 4 + 2], out.data[i * 4 + 3])];
        i := i + 1;
      }
    }
  }

  /** The running maximum is at least its start and every time folded in, and is the start
      or one of those times. */
  lemma {:induction false} MaxUpToIsMax(d: real, times: seq<real>, n: nat)
    requires n <= |times|
    ensures d <= MaxUpTo(d, times, n)
    ensures forall i :: 0 <= i < n ==> times[i] <= MaxUpTo(d, times, n)
    ensures MaxUpTo(d, times, n) == d || exists i :: 0 <= i < n && MaxUpTo(d, times, n) == times[i]
  {
    if n > 0 {
      MaxUpToIsMax(d, times, n - 1);
    }
  }

  /** A keyframe time of one of the first `k` channels. */
  ghost predicate IsKeyframeTime(a: GltfAnimation, k: nat, t: real)
    requires AnimationReadable(a) && k <= |a.channels|
  {
    exists j, i :: 0 <= j < k && 0 <= i < |a.samplers[a.channels[j].sampler].input| &&
      a.samplers[a.channels[j].sampler].input[i] == t
  }

  lemma {:induction false} DurationUpToIsMax(a: GltfAnimation, k: nat)
    requires AnimationReadable(a) && k <= |a.channels|
    ensures DurationUpTo(a, k) >= 0.0
    ensures forall j, i :: 0 <= j < k && 0 <= i < |a.samplers[a.channels[j].sampler].input| ==>
              a.samplers[a.channels[j].sampler].input[i] <= DurationUpTo(a, k)
    ensures DurationUpTo(a, k) == 0.0 || IsKeyframeTime(a, k, DurationUpTo(a, k))
  {
    if k > 0 {
      DurationUpToIsMax(a, k - 1);
      var times := a.samplers[a.channels[k - 1].sampler].input;
      var d := DurationUpTo(a, k - 1);
      MaxUpToIsMax(d, times, |times|);
      if DurationUpTo(a, k) != d {
        var i :| 0 <= i < |times| && DurationUpTo(a, k) == times[i];
        assert IsKeyframeTime(a, k, DurationUpTo(a, k));
      } else if d != 0.0 {
        var j, i :| 0 <= j < k - 1 && 0 <= i < |a.samplers[a.channels[j].sampler].input| &&
          a.samplers[a.channels[j].sampler].input[i] == d;
        assert IsKeyframeTime(a, k, DurationUpTo(a, k));
      }
    }
  }

  lemma {:induction false} ChannelsUpToAt(a: GltfAnimation, k: nat, j: nat)
    requires AnimationReadable(a) && j < k <= |a.channels|
    ensures |ChannelsUpTo(a, k)| == k && ChannelsUpTo(a, k)[j] == ChannelOf(a, j)
  {
    if j < k - 1 {
      ChannelsUpToAt(a, k - 1, j);
    }
  }

  /** The duration is the largest of 0 and every keyframe time of every channel of the built
      animation (weights channels too), and it is 0 or one of those times. */
  lemma DurationIsMax(a: GltfAnimation)
    requires AnimationReadable(a)
    ensures var anim := AnimationOf(a);
            && anim.duration >= 0.0
            && |anim.channels| == |a.channels|
            && (forall k, i :: 0 <= k < |anim.channels| && 0 <= i < |anim.channels[k].times| ==>
                  anim.channels[k].times[i] <= anim.duration)
            && (anim.duration == 0.0 ||
                exists k, i :: 0 <= k < |anim.channels| && 0 <= i < |anim.channels[k].times| &&
                  anim.channels[k].times[i] == anim.duration)
  {
    var anim := AnimationOf(a);
    var n := |a.channels|;
    DurationUpToIsMax(a, n);
    forall k | 0 <= k < n
      ensures anim.channels[k] == ChannelOf(a, k)
    {
      ChannelsUpToAt(a, n, k);
    }
    if n == 0 {
      assert |anim.channels| == 0;
    } else {
      ChannelsUpToAt(a, n, 0);
    }
    if anim.duration != 0.0 {
      var j, i :| 0 <= j < n && 0 <= i < |a.samplers[a.channels[j].sampler].input| &&
        a.samplers[a.channels[j].sampler].input[i] == anim.duration;
      assert anim.channels[j].times[i] == anim.duration;
    }
  }

  lemma {:induction false} TrackValuesAt(path: string, out: FloatAccessor, n: nat, i: nat)
    requires n <= out.count && |out.data| >= OutputStride(path) * out.count
    requires OutputStride(path) > 0 && i < n
    ensures |TrackValues(path, out, n)| == n
    ensures path == "rotation" ==>
              TrackValues(path, out, n)[i] == Vec4(out.data[4 * i], out.data[4 * i + 1], out.data[4 * i + 2], out.data[4 * i + 3])
    ensures path != "rotation" ==>
              TrackValues(path, out, n)[i] == Vec4(out.data[3 * i], out.data[3 * i + 1], out.data[3 * i + 2], 0.0)
  {
    TrackValuesLength(path, out, n - 1);
    if i < n - 1 {
      TrackValuesAt(path, out, n - 1, i);
    }
  }

  lemma {:induction false} TrackValuesLength(path: string, out: FloatAccessor, n: nat)
    requires n <= out.count && |out.data| >= OutputStride(path) * out.count
    ensures |TrackValues(path, out, n)| == if OutputStride(path) > 0 then n else 0
  {
    if n > 0 && OutputStride(path) > 0 {
      TrackValuesLength(path, out, n - 1);
    }
  }

  /** What a converted channel holds: the channel's path and target node, the sampler's
      keyframe times unchanged, and one value per output element (the floats at stride 3
      with w = 0 for translation and scale, at stride 4 for rotation), or no value at all
      for any other path. */
  lemma ChannelContents(a: GltfAnimation, k: nat, i: nat)
    requires AnimationReadable(a) && k < |a.channels|
    ensures var c := a.channels[k];
            var s := a.samplers[c.sampler];
            var ch := ChannelOf(a, k);
            && ch.path == c.targetPath && ch.targetNode == c.targetNode && ch.times == s.input
            && |ch.values| == (if IsTransformPath(c.targetPath) then s.output.count else 0)
            && (i < |ch.values| && c.targetPath == "rotation" ==>
                  ch.values[i] == Vec4(s.output.data[4 * i], s.output.data[4 * i + 1],
                                       s.output.data[4 * i + 2], s.output.data[4 * i + 3]))
            && (i < |ch.values| && c.targetPath != "rotation" ==>
                  ch.values[i] == Vec4(s.output.data[3 * i], s.output.data[3 * i + 1],
                                       s.output.data[3 * i + 2], 0.0))
  {
    var c := a.channels[k];
    var s := a.samplers[c.sampler];
    assert TrackReadable(s, c.targetPath);
    TrackValuesLength(c.targetPath, s.output, s.output.count);
    if i < s.output.count && IsTransformPath(c.targetPath) {
      TrackValuesAt(c.targetPath, s.output, s.output.count, i);
    }
  }

  /** Every translation, rotation or scale channel of a readable animation can be sampled. */
  lemma TransformTrackSamplable(a: GltfAnimation, k: nat)
    requires AnimationReadable(a) && k < |a.channels|
    requires IsTransformPath(a.channels[k].targetPath)
    ensures Samplable(ChannelOf(a, k).times, ChannelOf(a, k).values)
  {
    var c := a.channels[k];
    var s := a.samplers[c.sampler];
    assert TrackReadable(s, c.targetPath);
    TrackValuesLength(c.targetPath, s.output, s.output.count);
  }
}
