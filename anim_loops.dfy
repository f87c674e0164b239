/** The inner loops of the animation panel's handlers, each working on one
    animation (or one node, channel or bone list) and proved to compute
    the edit the value-level definitions describe. */
module AnimLoops {
  import opened PyStr
  import opened Ean
  import opened Helpers
  import opened TreeList
  import opened TreeEdit
  import opened AnimEdit

  // ---------------------------------------------------------------------
  // The bone filter read from the skeleton list
  // ---------------------------------------------------------------------

  /** `GetCheckedState(item) != wx.CHK_UNCHECKED` for an item of the list. */
  predicate Checks(c: Control, p: Path)
  {
    ValidIn(c.items, p) && StateOf(c, p) != Unchecked
  }

  /** The bones of the items among `ps` whose check box is not unchecked,
      in order. */
  function CheckedBones(c: Control, ps: seq<Path>): seq<Bone>
  {
    if ps == [] then []
    else
      var p := ps[|ps| - 1];
      CheckedBones(c, ps[..|ps| - 1]) +
        (if Checks(c, p) then [AtF(c.items, p).bone] else [])
  }

  /** A bone is in the filter exactly when some listed item that is not
      unchecked carries it. */
  lemma {:induction false} CheckedBonesMembers(c: Control, ps: seq<Path>)
    ensures forall i :: 0 <= i < |ps| && Checks(c, ps[i]) ==>
      AtF(c.items, ps[i]).bone in CheckedBones(c, ps)
    ensures forall b :: b in CheckedBones(c, ps) ==>
      exists i :: 0 <= i < |ps| && Checks(c, ps[i]) &&
        AtF(c.items, ps[i]).bone == b
  {
    if ps != [] {
      var init := ps[..|ps| - 1];
      CheckedBonesMembers(c, init);
      forall b | b in CheckedBones(c, ps)
        ensures exists i :: 0 <= i < |ps| && Checks(c, ps[i]) && AtF(c.items, ps[i]).bone == b
      {
        if b in CheckedBones(c, init) {
          var i :| 0 <= i < |init| && Checks(c, init[i]) &&
            AtF(c.items, init[i]).bone == b;
          assert ps[i] == init[i];
        } else {
          assert b == AtF(c.items, ps[|ps| - 1]).bone;
        }
      }
      forall i | 0 <= i < |ps| && Checks(c, ps[i])
        ensures AtF(c.items, ps[i]).bone in CheckedBones(c, ps)
      {
        if i < |init| {
          assert ps[i] == init[i];
        }
      }
    }
  }

  /** The walk over the skeleton list (`GetFirstItem` / `GetNextItem`)
      collecting the bones of every item that is not unchecked. */
  method CheckedBoneList(c: Control) returns (bones: seq<Bone>)
    ensures bones == CheckedBones(c, Preorder(c))
  {
    var order := Preorder(c);
    bones := [];
    var i := 0;
    while i < |order|
      invariant 0 <= i <= |order|
      invariant bones == CheckedBones(c, order[..i])
    {
      assert order[..i + 1][..i] == order[..i];
      var item := order[i];
      if Checks(c, item) {
        bones := bones + [AtF(c.items, item).bone];
      }
      i := i + 1;
    }
    assert order[..i] == order;
  }

  /** The names of the bones in the filter. */
  function BoneNames(bones: seq<Bone>): set<string>
  {
    set i | 0 <= i < |bones| :: bones[i].name
  }

  /** The indices of the bones in the filter, in order. */
  function BoneIndices(bones: seq<Bone>): (r: seq<int>)
    ensures |r| == |bones|
  {
    seq(|bones|, i requires 0 <= i < |bones| => bones[i].index as int)
  }

  // ---------------------------------------------------------------------
  // Offset and scale
  // ---------------------------------------------------------------------

  /** `for keyframe in keyframes: found_func(keyframe, w, x, y, z)`. */
  method ShiftKeyframes(ks: seq<Keyframe>, x: real, y: real, z: real) returns (r: seq<Keyframe>)
    ensures r == ShiftAll(ks, x, y, z)
  {
    r := ks;
    var t := 0;
    while t < |r|
      invariant 0 <= t <= |r| == |ks|
      invariant forall k :: 0 <= k < |r| ==> r[k] == if k < t then Shift(ks[k], x, y, z) else ks[k]
    {
      r := r[t := Shift(r[t], x, y, z)];
      t := t + 1;
    }
  }

  /** The body of `transform` for one animation: find the first node of
      `bone`; in it, shift the first channel with `flag`, or append a new
      one; `found` is false when the animation has no such node. */
  method TransformAnimation(a: Animation, bone: int, flag: int, w: real, x: real, y: real, z: real)
    returns (r: Animation, found: bool)
    ensures r == Transformed(a, bone, flag, w, x, y, z)
    ensures found <==> First(a.nodes, OfBone(bone), 0).Some?
  {
    var i := 0;
    while i < |a.nodes| && a.nodes[i].boneIndex != bone
      invariant 0 <= i <= |a.nodes|
      invariant forall j :: 0 <= j < i ==> !OfBone(bone)(a.nodes[j])
    {
      i := i + 1;
    }
    if i == |a.nodes| {
      return a, false;
    }
    FirstIs(a.nodes, OfBone(bone), 0, i);
    var node := a.nodes[i];
    var j := 0;
    while j < |node.channels| && node.channels[j].flag != flag
      invariant 0 <= j <= |node.channels|
      invariant forall k :: 0 <= k < j ==> !OfFlag(flag)(node.channels[k])
    {
      j := j + 1;
    }
    if j < |node.channels| {
      FirstIs(node.channels, OfFlag(flag), 0, j);
      var ks := ShiftKeyframes(node.channels[j].keyframes, x, y, z);
      node := node.(channels := node.channels[j := node.channels[j].(keyframes := ks)]);
    } else {
      var channel := Channel(flag, [Keyframe(0, w, x, y, z), Keyframe(a.frameCount - 1, w, x, y, z)]);
      node := node.(channels := node.channels + [channel]);
    }
    r := a.(nodes := a.nodes[i := node]);
    found := true;
  }

  // ---------------------------------------------------------------------
  // The target camera offset
  // ---------------------------------------------------------------------

  /** The channel loop of on_set_target_camera_offset for one node:
      shifts the target camera channels and counts them. */
  method CameraOffsetChannels(cs: seq<Channel>, x: real, y: real, z: real) returns (r: seq<Channel>, changed: nat)
    ensures r == CameraChannels(cs, x, y, z)
    ensures changed == FlagCount(cs, TARGET_CAMERA_POSITION_FLAG)
  {
    r := cs;
    changed := 0;
    var j := 0;
    while j < |r|
      invariant 0 <= j <= |r| == |cs|
      invariant forall k :: 0 <= k < |r| ==> r[k] == if k < j then CameraChannels(cs, x, y, z)[k] else cs[k]
      invariant changed == FlagCount(cs[..j], TARGET_CAMERA_POSITION_FLAG)
    {
      assert cs[..j + 1][..j] == cs[..j];
      if r[j].flag == TARGET_CAMERA_POSITION_FLAG {
        changed := changed + 1;
        var ks := ShiftKeyframes(r[j].keyframes, x, y, z);
        r := r[j := r[j].(keyframes := ks)];
      }
      j := j + 1;
    }
    assert cs[..j] == cs;
  }

  /** on_set_target_camera_offset for one animation. */
  method CameraOffset(a: Animation, x: real, y: real, z: real) returns (r: Animation, changed: nat)
    ensures r == CameraShift(a, x, y, z)
    ensures changed == NodesFlagCount(a.nodes, TARGET_CAMERA_POSITION_FLAG)
  {
    var nodes := a.nodes;
    changed := 0;
    var i := 0;
    while i < |nodes|
      invariant 0 <= i <= |nodes| == |a.nodes|
      invariant forall k :: 0 <= k < |nodes| ==>
        nodes[k] == if k < i then a.nodes[k].(channels := CameraChannels(a.nodes[k].channels, x, y, z)) else a.nodes[k]
      invariant changed == NodesFlagCount(a.nodes[..i], TARGET_CAMERA_POSITION_FLAG)
    {
      assert a.nodes[..i + 1][..i] == a.nodes[..i];
      var cs, n := CameraOffsetChannels(nodes[i].channels, x, y, z);
      nodes := nodes[i := nodes[i].(channels := cs)];
      changed := changed + n;
      i := i + 1;
    }
    assert a.nodes[..i] == a.nodes;
    r := a.(nodes := nodes);
  }

  // ---------------------------------------------------------------------
  // Removing keyframes
  // ---------------------------------------------------------------------

  /** The keyframe loop of on_remove_keyframes: keep those outside the range. */
  method OutsideKeyframes(ks: seq<Keyframe>, start: int, end: int) returns (r: seq<Keyframe>)
    ensures r == Outside(ks, start, end)
  {
    r := [];
    var t := 0;
    while t < |ks|
      invariant 0 <= t <= |ks|
      invariant r == Outside(ks[..t], start, end)
    {
      assert ks[..t + 1][..t] == ks[..t];
      if ks[t].frame < start || ks[t].frame >= end {
        r := r + [ks[t]];
      }
      t := t + 1;
    }
    assert ks[..t] == ks;
  }

  /** The channel loop of on_remove_keyframes for a node in the filter;
      `removed` counts the channels dropped whole. */
  method StripNodeChannels(cs: seq<Channel>, flags: set<int>, whole: bool, start: int, end: int)
    returns (r: seq<Channel>, removed: nat)
    ensures r == StripChannels(cs, flags, whole, start, end)
    ensures removed == if whole then FlaggedCount(cs, flags) else 0
  {
    r := [];
    removed := 0;
    var j := 0;
    while j < |cs|
      invariant 0 <= j <= |cs|
      invariant r == StripChannels(cs[..j], flags, whole, start, end)
      invariant removed == if whole then FlaggedCount(cs[..j], flags) else 0
    {
      assert cs[..j + 1][..j] == cs[..j];
      var c := cs[j];
      if c.flag !in flags {
        r := r + [c];
      } else if whole {
        removed := removed + 1;
      } else {
        var ks := OutsideKeyframes(c.keyframes, start, end);
        r := r + [c.(keyframes := ks)];
      }
      j := j + 1;
    }
    assert cs[..j] == cs;
  }

  /** on_remove_keyframes for one animation. */
  method StripAnimation(a: Animation, filters: seq<int>, flags: set<int>, whole: bool, start: int, end: int)
    returns (r: Animation, removed: nat)
    ensures r == Stripped(a, filters, flags, whole, start, end)
    ensures removed == StripRemoved(a.nodes, filters, flags, whole)
  {
    var nodes := a.nodes;
    removed := 0;
    var i := 0;
    while i < |nodes|
      invariant 0 <= i <= |nodes| == |a.nodes|
      invariant forall k :: 0 <= k < |nodes| ==>
        nodes[k] == if k < i then StripNode(a.nodes[k], filters, flags, whole, start, end) else a.nodes[k]
      invariant removed == StripRemoved(a.nodes[..i], filters, flags, whole)
    {
      assert a.nodes[..i + 1][..i] == a.nodes[..i];
      if nodes[i].boneIndex in filters {
        var cs, n := StripNodeChannels(nodes[i].channels, flags, whole, start, end);
        nodes := nodes[i := nodes[i].(channels := cs)];
        removed := removed + n;
      }
      i := i + 1;
    }
    assert a.nodes[..i] == a.nodes;
    r := a.(nodes := nodes);
  }

  // ---------------------------------------------------------------------
  // Mirroring
  // ---------------------------------------------------------------------

  /** The renaming loop of on_mirror_anim over one animation's nodes. It
      stops right after renaming the first node whose new name the
      skeleton does not know (`stop`), leaving the later nodes as they
      were. */
  method SwapNames(nodes: seq<Node>, boneIndexOf: string -> int) returns (r: seq<Node>, stop: Option<nat>)
    requires Splittable(nodes)
    ensures stop == First(nodes, Unresolved(boneIndexOf), 0)
    ensures stop.None? ==> r == SwapNodes(nodes)
    ensures stop.Some? ==> r == SwapNodes(nodes[..stop.value + 1]) + nodes[stop.value + 1..]
  {
    r := nodes;
    assert nodes[..0] == [] && nodes[0..] == nodes;
    var i := 0;
    while i < |nodes|
      invariant 0 <= i <= |nodes|
      invariant r == SwapNodes(nodes[..i]) + nodes[i..]
      invariant forall k :: 0 <= k < i ==> !Unresolved(boneIndexOf)(nodes[k])
    {
      SwapExtend(nodes, i, r);
      r := r[i := SwapNode(nodes[i])];
      if boneIndexOf(SwapLR(nodes[i].boneName)) == -1 {
        FirstIs(nodes, Unresolved(boneIndexOf), 0, i);
        return r, Some(i);
      }
      i := i + 1;
    }
    FirstNone(nodes, Unresolved(boneIndexOf), 0);
    assert nodes[..i] == nodes && nodes[i..] == [];
    stop := None;
  }

  /** Swapping one more node extends the swapped prefix. */
  lemma SwapExtend(nodes: seq<Node>, i: nat, r: seq<Node>)
    requires Splittable(nodes) && i < |nodes|
    requires r == SwapNodes(nodes[..i]) + nodes[i..]
    ensures r[i := SwapNode(nodes[i])] == SwapNodes(nodes[..i + 1]) + nodes[i + 1..]
  {
    var s := SwapNodes(nodes[..i + 1]) + nodes[i + 1..];
    var t := r[i := SwapNode(nodes[i])];
    forall k | 0 <= k < |nodes|
      ensures t[k] == s[k]
    {
      if k < i {
        assert t[k] == SwapNodes(nodes[..i])[k] == SwapNode(nodes[k]);
        assert s[k] == SwapNodes(nodes[..i + 1])[k];
      } else if k == i {
        assert s[k] == SwapNodes(nodes[..i + 1])[k];
      } else {
        assert t[k] == nodes[i..][k - i];
        assert s[k] == nodes[i + 1..][k - i - 1];
      }
    }
  }

  /** `keyframe.x *= -1.0` (position) or `keyframe.y, keyframe.z *= -1.0`
      (orientation) over one channel. */
  method MirrorKeyframes(c: Channel) returns (r: Channel)
    ensures r == MirrorChannel(c)
  {
    var ks := c.keyframes;
    var t := 0;
    while t < |ks|
      invariant 0 <= t <= |ks| == |c.keyframes|
      invariant forall k :: 0 <= k < |ks| ==> ks[k] == if k < t then MirrorKey(c.keyframes[k], c.flag) else c.keyframes[k]
    {
      ks := ks[t := MirrorKey(ks[t], c.flag)];
      t := t + 1;
    }
    r := c.(keyframes := ks);
  }

  /** The arithmetic loop of on_mirror_anim over one animation's nodes. */
  method MirrorAll(nodes: seq<Node>, excludeBase: bool) returns (r: seq<Node>)
    ensures r == MirrorNodes(nodes, excludeBase)
  {
    r := nodes;
    var i := 0;
    while i < |r|
      invariant 0 <= i <= |r| == |nodes|
      invariant forall k :: 0 <= k < |r| ==> r[k] == if k < i then MirrorNode(nodes[k], excludeBase) else nodes[k]
    {
      if !(excludeBase && r[i].boneName == "b_C_Base") {
        var cs := r[i].channels;
        var j := 0;
        while j < |cs|
          invariant 0 <= j <= |cs| == |nodes[i].channels|
          invariant forall k :: 0 <= k < |cs| ==>
            cs[k] == if k < j then MirrorChannel(nodes[i].channels[k]) else nodes[i].channels[k]
        {
          var c := MirrorKeyframes(cs[j]);
          cs := cs[j := c];
          j := j + 1;
        }
        r := r[i := r[i].(channels := cs)];
      }
      i := i + 1;
    }
  }

  // ---------------------------------------------------------------------
  // Reversing
  // ---------------------------------------------------------------------

  /** One channel of on_reverse_anim: take the last frame, reverse the
      list, then rewrite every frame as `last - frame`. */
  method ReverseKeyframes(ks: seq<Keyframe>) returns (r: seq<Keyframe>)
    requires |ks| >= 1
    ensures r == Reversed(ks)
  {
    var last := ks[|ks| - 1].frame;
    r := seq(|ks|, i requires 0 <= i < |ks| => ks[|ks| - 1 - i]);
    var t := 0;
    while t < |r|
      invariant 0 <= t <= |r| == |ks|
      invariant forall k :: 0 <= k < |r| ==>
        r[k] == if k < t then Reversed(ks)[k] else ks[|ks| - 1 - k]
    {
      r := r[t := r[t].(frame := last - r[t].frame)];
      t := t + 1;
    }
  }

  /** on_reverse_anim over one animation's nodes. */
  method ReverseAll(nodes: seq<Node>) returns (r: seq<Node>)
    requires Reversible(nodes)
    ensures r == ReversedNodes(nodes)
  {
    r := nodes;
    var i := 0;
    while i < |r|
      invariant 0 <= i <= |r| == |nodes|
      invariant forall k :: 0 <= k < |r| ==> r[k] == if k < i then ReversedNodes(nodes)[k] else nodes[k]
    {
      var cs := r[i].channels;
      var j := 0;
      while j < |cs|
        invariant 0 <= j <= |cs| == |nodes[i].channels|
        invariant forall k :: 0 <= k < |cs| ==>
          cs[k] == if k < j then ReversedNodes(nodes)[i].channels[k] else nodes[i].channels[k]
      {
        var ks := ReverseKeyframes(cs[j].keyframes);
        cs := cs[j := cs[j].(keyframes := ks)];
        j := j + 1;
      }
      r := r[i := r[i].(channels := cs)];
      i := i + 1;
    }
  }
}
