/** The animation list panel: the animations of the open file, the list
    control that shows them (one row per animation: "#", "Animation",
    "Frames", selected or not) and the clipboard of copied animations.
    Every handler works on the selected rows. */
module AnimPanel {
  import opened PyStr
  import opened Ean
  import opened Helpers
  import opened TreeList
  import opened TreeEdit
  import opened AnimEdit
  import opened AnimLoops

  /** How on_mirror_anim ends: all selected animations mirrored, or
      stopped at node `node` of the `animation`-th selected one, whose
      new name the skeleton does not know. */
  datatype MirrorOutcome = Mirrored(count: nat) | NoMatchingBone(animation: nat, node: nat)

  /** The animations after a handler has edited each selected one with
      `f`, the others untouched. */
  function Applied<T>(xs: seq<T>, sel: seq<nat>, f: T --> T): (r: seq<T>)
    requires forall k :: 0 <= k < |xs| && k in sel ==> f.requires(xs[k])
    ensures |r| == |xs|
    ensures forall k :: 0 <= k < |xs| && k !in sel ==> r[k] == xs[k]
  {
    seq(|xs|, k requires 0 <= k < |xs| => if k in sel then f(xs[k]) else xs[k])
  }

  /** The handlers' edits, one per selected animation. */
  function TransformOf(bone: int, flag: int, w: real, x: real, y: real, z: real): Animation -> Animation
  {
    (a: Animation) => Transformed(a, bone, flag, w, x, y, z)
  }

  function CameraOf(x: real, y: real, z: real): Animation -> Animation
  {
    (a: Animation) => CameraShift(a, x, y, z)
  }

  function StripOf(filters: seq<int>, flags: set<int>, whole: bool, start: int, end: int): Animation -> Animation
  {
    (a: Animation) => Stripped(a, filters, flags, whole, start, end)
  }

  function SwapOf(): Animation --> Animation
  {
    (a: Animation) requires Splittable(a.nodes) => a.(nodes := SwapNodes(a.nodes))
  }

  function MirrorOf(excludeBase: bool): Animation -> Animation
  {
    (a: Animation) => a.(nodes := MirrorNodes(a.nodes, excludeBase))
  }

  function ReverseOf(): Animation --> Animation
  {
    (a: Animation) requires Reversible(a.nodes) => a.(nodes := ReversedNodes(a.nodes))
  }

  /** The selection as get_selected_items gives it: ascending positions of
      the list. */
  predicate Selection(sel: seq<nat>, n: nat)
  {
    Ascending(sel) && forall i :: 0 <= i < |sel| ==> sel[i] < n
  }

  /** The names transform lists as skipped: the selected animations with
      no node for `bone`, in order. */
  function SkippedNames(animations: seq<Animation>, sel: seq<nat>, bone: int): seq<string>
    requires forall i :: 0 <= i < |sel| ==> sel[i] < |animations|
  {
    if sel == [] then []
    else
      var a := animations[sel[|sel| - 1]];
      SkippedNames(animations, sel[..|sel| - 1], bone) +
        (if First(a.nodes, OfBone(bone), 0).None? then [a.name] else [])
  }

  /** The target camera channels of the selected animations. */
  function CameraCount(animations: seq<Animation>, sel: seq<nat>): nat
    requires forall i :: 0 <= i < |sel| ==> sel[i] < |animations|
  {
    if sel == [] then 0
    else
      CameraCount(animations, sel[..|sel| - 1]) +
        NodesFlagCount(animations[sel[|sel| - 1]].nodes, TARGET_CAMERA_POSITION_FLAG)
  }

  /** The channels on_remove_keyframes counts as removed over the selected
      animations. */
  function RemovedCount(animations: seq<Animation>, sel: seq<nat>, filters: seq<int>, flags: set<int>, whole: bool): nat
    requires forall i :: 0 <= i < |sel| ==> sel[i] < |animations|
  {
    if sel == [] then 0
    else
      RemovedCount(animations, sel[..|sel| - 1], filters, flags, whole) +
        StripRemoved(animations[sel[|sel| - 1]].nodes, filters, flags, whole)
  }

  class AnimMainPanel {
    var animations: seq<Animation>
    var rows: seq<Row>
    var copied: Option<seq<Animation>>

    /** The list shows the file's animations. */
    predicate Valid()
      reads this
    {
      Shows(rows, animations)
    }

    constructor (animations0: seq<Animation>)
      ensures animations == animations0 && copied == None && Valid()
      ensures forall k :: 0 <= k < |rows| ==> !rows[k].selected
    {
      animations := animations0;
      rows := seq(|animations0|, i requires 0 <= i < |animations0| => RowOf(i, animations0[i], false));
      copied := None;
    }

    /** copy_animation: the clipboard holds the copied animations. */
    method CopyAnimation(copies: seq<Animation>)
      modifies this`copied
      ensures copied == Some(copies)
    {
      copied := Some(copies);
    }

    /** reindex: every row's "#" column is its position. */
    method Reindex()
      modifies this`rows
      ensures |rows| == |old(rows)|
      ensures forall i :: 0 <= i < |rows| ==> rows[i] == old(rows)[i].(index := IntToString(i))
      ensures Texts(old(rows), animations) ==> Shows(rows, animations)
    {
      rows := Renumber(rows, animations);
    }

    /** add_animation: with rows selected and animations on the clipboard,
        the copies are inserted one after another at the first selected
        row (at the row after the last selected one when appending), each
        renamed against the names the file had before; the old selection
        is cleared and the inserted rows are selected. Otherwise nothing
        happens. */
    method AddAnimation(append: bool, load: Animation -> Animation)
      requires Valid()
      modifies this`animations, this`rows
      ensures Valid()
      ensures var sel := SelectedRows(old(rows));
        sel == [] || old(copied).None? ==> animations == old(animations) && rows == old(rows)
      ensures var sel := SelectedRows(old(rows));
        sel != [] && old(copied).Some? ==>
          var index := if append then sel[|sel| - 1] + 1 else sel[0];
          var added := Added(old(copied).value, Names(old(animations)), load);
          index <= |old(animations)| &&
          animations == old(animations)[..index] + added + old(animations)[index..] &&
          forall k :: 0 <= k < |rows| ==> (rows[k].selected <==> index <= k < index + |added|)
    {
      var sel := SelectedRows(rows);
      if sel == [] || copied.None? {
        return;
      }
      var anims, rs := AddCopies(animations, rows, sel, append, copied.value, load);
      rs := Renumber(rs, anims);
      animations, rows := anims, rs;
    }

    /** on_delete: the selected animations are removed, last first, so
        that each removal leaves the positions still to remove in place;
        the survivors keep their order and the list is renumbered.
        Returns how many were deleted. */
    method OnDelete() returns (deleted: nat)
      requires Valid()
      modifies this`animations, this`rows
      ensures Valid()
      ensures var sel := SelectedRows(old(rows));
        deleted == |sel| && animations == Kept(old(animations), Positions(sel)) &&
        |animations| == |old(animations)| - |sel| &&
        forall k :: 0 <= k < |rows| ==> !rows[k].selected
    {
      var sel := SelectedRows(rows);
      if sel == [] {
        KeptNothing(animations);
        assert Positions(sel) == {};
        assert forall k :: 0 <= k < |rows| ==> !rows[k].selected by {
          forall k | 0 <= k < |rows| ensures !rows[k].selected {
            assert k !in sel;
          }
        }
        return 0;
      }
      assert forall i :: 0 <= i < |sel| ==> sel[i] < |animations| by {
        forall i | 0 <= i < |sel| ensures sel[i] < |animations| { assert sel[i] in sel; }
      }
      var anims, rs := RemoveSelectedRows(animations, rows, sel);
      rs := Renumber(rs, anims);
      animations, rows := anims, rs;
      deleted := |sel|;
    }
    /** on_paste: the selection is cut or continued to one destination row
        per copied animation and becomes the new selection; when more
        than one animation is pasted and the user declines, that is all.
        Otherwise each copy is merged, through the bones checked in the
        skeleton list and the bones the skeleton panel adds, into the
        animation at its destination, or loaded into a new animation
        appended at the end under a name not yet in the file. */
    method OnPaste(confirm: bool, boneList: Control, missing: set<string>,
                   merge: (Animation, Animation, set<string>) -> Animation,
                   load: Animation -> Animation)
      requires Valid()
      requires forall a, c, f :: merge(a, c, f).name == a.name
      modifies this`animations, this`rows
      ensures Valid()
      ensures var sel := SelectedRows(old(rows));
        sel == [] || old(copied).None? ==> animations == old(animations) && rows == old(rows)
      ensures var sel := SelectedRows(old(rows));
        sel != [] && old(copied).Some? ==>
          var copies := old(copied).value;
          var d := Destinations(sel, |copies|);
          var a0 := old(animations);
          forall k :: 0 <= k < |rows| ==> (rows[k].selected <==> k in d)
      ensures var sel := SelectedRows(old(rows));
        sel != [] && old(copied).Some? && |old(copied).value| > 1 && !confirm ==>
          animations == old(animations)
      ensures var sel := SelectedRows(old(rows));
        sel != [] && old(copied).Some? && (|old(copied).value| <= 1 || confirm) ==>
          var copies := old(copied).value;
          var d := Destinations(sel, |copies|);
          var a0 := old(animations);
          var filters := BoneNames(CheckedBones(boneList, Preorder(boneList))) + missing;
          |animations| == PastedLength(|a0|, d) &&
          (forall i :: 0 <= i < |d| ==>
            d[i] < |animations| && animations[d[i]] == PastedAt(a0, copies[i], d[i], filters, Names(a0), merge, load)) &&
          (forall k :: 0 <= k < |animations| && k !in d ==> k < |a0| && animations[k] == a0[k])
    {
      var sel := SelectedRows(rows);
      if sel == [] || copied.None? {
        return;
      }
      var checked := CheckedBoneList(boneList);
      var anims, rs := PasteSelection(animations, rows, sel, copied.value, confirm,
                                      BoneNames(checked) + missing, merge, load);
      animations, rows := anims, rs;
    }

    /** transform: each selected animation gets, in the node for `bone`,
        its channel `flag` shifted by (x, y, z), or a new two-keyframe
        channel (w, x, y, z) at frames 0 and frame count - 1 when the
        node has none; animations without such a node are skipped and
        their names reported. */
    method Transform(sel: seq<nat>, bone: int, flag: int, w: real, x: real, y: real, z: real)
      returns (skipped: seq<string>)
      requires Valid() && Selection(sel, |animations|)
      modifies this`animations
      ensures Valid()
      ensures animations == Applied(old(animations), sel, TransformOf(bone, flag, w, x, y, z))
      ensures skipped == SkippedNames(old(animations), sel, bone)
    {
      var anims;
      anims, skipped := TransformEach(animations, sel, bone, flag, w, x, y, z);
      AppliedShows(rows, animations, sel, TransformOf(bone, flag, w, x, y, z));
      animations := anims;
    }

    /** on_set_offset: when the dialog is accepted, the position channel
        of the chosen bone is offset in every selected animation. */
    method OnSetOffset(accepted: bool, bone: int, x: real, y: real, z: real) returns (skipped: seq<string>)
      requires Valid()
      modifies this`animations
      ensures Valid()
      ensures var sel := SelectedRows(rows);
        if sel == [] || !accepted then animations == old(animations) && skipped == []
        else (animations == Applied(old(animations), sel, TransformOf(bone, POSITION_FLAG, 1.0, x, y, z)) &&
              skipped == SkippedNames(old(animations), sel, bone))
    {
      var sel := SelectedRows(rows);
      if sel == [] || !accepted {
        return [];
      }
      SelectedIsSelection(rows);
      skipped := Transform(sel, bone, POSITION_FLAG, 1.0, x, y, z);
    }

    /** on_set_scale: the same as on_set_offset on the scale channel; the
        values are added to the keyframes, as for the offset. */
    method OnSetScale(accepted: bool, bone: int, x: real, y: real, z: real) returns (skipped: seq<string>)
      requires Valid()
      modifies this`animations
      ensures Valid()
      ensures var sel := SelectedRows(rows);
        if sel == [] || !accepted then animations == old(animations) && skipped == []
        else (animations == Applied(old(animations), sel, TransformOf(bone, SCALE_FLAG, 1.0, x, y, z)) &&
              skipped == SkippedNames(old(animations), sel, bone))
    {
      var sel := SelectedRows(rows);
      if sel == [] || !accepted {
        return [];
      }
      SelectedIsSelection(rows);
      skipped := Transform(sel, bone, SCALE_FLAG, 1.0, x, y, z);
    }

    /** on_set_target_camera_offset: when the dialog is accepted, every
        channel flagged TARGET_CAMERA_POSITION_FLAG in the selected
        animations is offset; returns how many channels that was. */
    method OnSetTargetCameraOffset(accepted: bool, x: real, y: real, z: real) returns (changed: nat)
      requires Valid()
      modifies this`animations
      ensures Valid()
      ensures var sel := SelectedRows(rows);
        if sel == [] || !accepted then animations == old(animations) && changed == 0
        else (animations == Applied(old(animations), sel, CameraOf(x, y, z)) &&
              changed == CameraCount(old(animations), sel))
    {
      var sel := SelectedRows(rows);
      if sel == [] || !accepted {
        return 0;
      }
      SelectedIsSelection(rows);
      var anims;
      anims, changed := CameraEach(animations, sel, x, y, z);
      AppliedShows(rows, animations, sel, CameraOf(x, y, z));
      animations := anims;
    }

    /** on_remove_keyframes: when the dialog is accepted, the channels
        with a flag in `flags` of the nodes of the bones checked in the
        skeleton list lose their keyframes in [start, end), or are dropped
        whole when the range is the whole animation or the frame count is
        unknown (several animations selected) or 0; returns how many
        channels were dropped whole. */
    method OnRemoveKeyframes(accepted: bool, flags: set<int>, start: int, end: int, boneList: Control)
      returns (removed: nat)
      requires Valid()
      modifies this`animations
      ensures Valid()
      ensures var sel := SelectedRows(rows);
        if sel == [] || !accepted then animations == old(animations) && removed == 0
        else
          (var frameCount := if |sel| == 1 then Some(old(animations)[sel[0]].frameCount) else None;
           var whole := DropsWhole(frameCount, start, end);
           var filters := BoneIndices(CheckedBones(boneList, Preorder(boneList)));
           animations == Applied(old(animations), sel, StripOf(filters, flags, whole, start, end)) &&
           removed == RemovedCount(old(animations), sel, filters, flags, whole))
    {
      var sel := SelectedRows(rows);
      if sel == [] || !accepted {
        return 0;
      }
      SelectedIsSelection(rows);
      var frameCount := None;
      if |sel| == 1 {
        FramesReadBack(rows, animations, sel[0]);
        frameCount := ParseInt(rows[sel[0]].frames);
      }
      var checked := CheckedBoneList(boneList);
      var filters := BoneIndices(checked);
      var whole := DropsWhole(frameCount, start, end);
      var anims;
      anims, removed := StripEach(animations, sel, filters, flags, whole, start, end);
      AppliedShows(rows, animations, sel, StripOf(filters, flags, whole, start, end));
      animations := anims;
    }

    /** on_mirror_anim: left and right are first swapped in the node names
        of all selected animations; at the first node whose new name has no
        bone in the skeleton the handler stops, leaving the names swapped so
        far. Otherwise position x and orientation y and z are negated in
        every node (but b_C_Base when it is excluded). */
    method OnMirror(excludeBase: bool, boneIndexOf: string -> int) returns (outcome: MirrorOutcome)
      requires Valid()
      requires forall k :: 0 <= k < |animations| && k in SelectedRows(rows) ==> Splittable(animations[k].nodes)
      modifies this`animations
      ensures Valid()
      ensures var sel, a0 := SelectedRows(rows), old(animations);
        outcome.Mirrored? ==>
          outcome.count == |sel| &&
          animations == Applied(Applied(a0, sel, SwapOf()), sel, MirrorOf(excludeBase))
      ensures var sel, a0 := SelectedRows(rows), old(animations);
        outcome.NoMatchingBone? ==>
          var j, s := outcome.animation, outcome.node;
          j < |sel| &&
          (forall i :: 0 <= i < j ==> First(a0[sel[i]].nodes, Unresolved(boneIndexOf), 0).None?) &&
          First(a0[sel[j]].nodes, Unresolved(boneIndexOf), 0) == Some(s) &&
          animations == Applied(a0, sel[..j], SwapOf())[sel[j] := PartlySwapped(a0[sel[j]], s)]
    {
      var sel := SelectedRows(rows);
      SelectedIsSelection(rows);
      var anims;
      anims, outcome := SwapEach(animations, sel, boneIndexOf);
      if outcome.NoMatchingBone? {
        var j, s := outcome.animation, outcome.node;
        AppliedShows(rows, animations, sel[..j], SwapOf());
        ShowsUpdate(rows, Applied(animations, sel[..j], SwapOf()), sel[j], PartlySwapped(animations[sel[j]], s));
        animations := anims;
        return;
      }
      AppliedShows(rows, animations, sel, SwapOf());
      var swapped := anims;
      anims := MirrorEach(swapped, sel, excludeBase);
      AppliedShows(rows, swapped, sel, MirrorOf(excludeBase));
      animations := anims;
    }

    /** on_reverse_anim: the keyframes of every channel of the selected
        animations are reversed in time against the channel's last frame;
        returns how many animations were reversed. */
    method OnReverse() returns (count: nat)
      requires Valid()
      requires forall k :: 0 <= k < |animations| && k in SelectedRows(rows) ==> Reversible(animations[k].nodes)
      modifies this`animations
      ensures Valid()
      ensures animations == Applied(old(animations), SelectedRows(rows), ReverseOf())
      ensures count == |SelectedRows(rows)|
    {
      var sel := SelectedRows(rows);
      SelectedIsSelection(rows);
      var anims := ReverseEach(animations, sel);
      AppliedShows(rows, animations, sel, ReverseOf());
      animations := anims;
      count := |sel|;
    }
  }

  /** The first loop of on_paste: exactly the rows in `d` are selected. */
  method SelectOnly(r0: seq<Row>, d: seq<nat>) returns (rs: seq<Row>)
    ensures |rs| == |r0|
    ensures forall k :: 0 <= k < |rs| ==> rs[k] == r0[k].(selected := k in d)
  {
    rs := r0;
    var i := 0;
    while i < |rs|
      invariant 0 <= i <= |rs| == |r0|
      invariant forall k :: 0 <= k < |rs| ==> rs[k] == if k < i then r0[k].(selected := k in d) else r0[k]
    {
      rs := rs[i := rs[i].(selected := i in d)];
      i := i + 1;
    }
  }

  /** Changing which rows are selected keeps a list that shows the
      animations showing them. */
  lemma TextsSelect(rows: seq<Row>, animations: seq<Animation>, d: seq<nat>, r: seq<Row>)
    requires Shows(rows, animations) && |r| == |rows|
    requires forall k :: 0 <= k < |r| ==> r[k] == rows[k].(selected := k in d)
    ensures Shows(r, animations)
  {
  }

  /** on_paste on values, once rows are selected and animations copied:
      the destinations become the selection, and unless the user declines
      a paste of several animations, the copies are pasted and the list
      renumbered. */
  method PasteSelection(a0: seq<Animation>, r0: seq<Row>, sel: seq<nat>, copies: seq<Animation>,
                        confirm: bool, filters: set<string>,
                        merge: (Animation, Animation, set<string>) -> Animation,
                        load: Animation -> Animation)
    returns (anims: seq<Animation>, rs: seq<Row>)
    requires Shows(r0, a0) && sel == SelectedRows(r0) && sel != []
    requires forall a, c, f :: merge(a, c, f).name == a.name
    ensures Shows(rs, anims)
    ensures var d := Destinations(sel, |copies|);
      forall k :: 0 <= k < |rs| ==> (rs[k].selected <==> k in d)
    ensures |copies| > 1 && !confirm ==> anims == a0
    ensures |copies| <= 1 || confirm ==>
      var d := Destinations(sel, |copies|);
      |anims| == PastedLength(|a0|, d) &&
      (forall i :: 0 <= i < |d| ==>
        d[i] < |anims| && anims[d[i]] == PastedAt(a0, copies[i], d[i], filters, Names(a0), merge, load)) &&
      (forall k :: 0 <= k < |anims| && k !in d ==> k < |a0| && anims[k] == a0[k])
  {
    assert forall i :: 0 <= i < |sel| ==> sel[i] < |a0| by {
      forall i | 0 <= i < |sel| ensures sel[i] < |a0| { assert sel[i] in sel; }
    }
    var d := Destinations(sel, |copies|);
    DestinationsRoute(sel, |copies|, |a0|);
    rs := SelectOnly(r0, d);
    TextsSelect(r0, a0, d, rs);
    if |copies| > 1 && !confirm {
      anims := a0;
      return;
    }
    anims, rs := PasteCopies(a0, rs, copies, d, filters, Names(a0), merge, load);
    rs := Renumber(rs, anims);
  }

  /** The copying loop of on_paste: destination `d[i]` below the current
      number of animations gets copy `i` merged into it; a destination at
      the end gets a new animation loaded from the copy and renamed. */
  method PasteCopies(a0: seq<Animation>, r0: seq<Row>, copies: seq<Animation>, d: seq<nat>,
                     filters: set<string>, names: set<string>,
                     merge: (Animation, Animation, set<string>) -> Animation,
                     load: Animation -> Animation)
    returns (anims: seq<Animation>, rs: seq<Row>)
    requires |d| == |copies| && Ascending(d)
    requires forall j :: 0 <= j < |d| ==> Continues(d, |a0|, j)
    requires Texts(r0, a0)
    requires forall k :: 0 <= k < |r0| ==> (r0[k].selected <==> k in d)
    requires forall a, c, f :: merge(a, c, f).name == a.name
    ensures |anims| == PastedLength(|a0|, d)
    ensures forall i :: 0 <= i < |d| ==>
      d[i] < |anims| && anims[d[i]] == PastedAt(a0, copies[i], d[i], filters, names, merge, load)
    ensures forall k :: 0 <= k < |anims| && k !in d ==> k < |a0| && anims[k] == a0[k]
    ensures Texts(rs, anims)
    ensures forall k :: 0 <= k < |rs| ==> (rs[k].selected <==> k in d)
  {
    anims, rs := a0, r0;
    var i := 0;
    while i < |copies|
      invariant 0 <= i <= |copies|
      invariant PastedSoFar(a0, anims, copies, d, i, filters, names, merge, load)
      invariant Texts(rs, anims)
      invariant forall k :: 0 <= k < |rs| ==> (rs[k].selected <==> k in d)
    {
      anims, rs := PasteOne(a0, anims, rs, copies, d, i, filters, names, merge, load);
      i := i + 1;
    }
    assert d[..i] == d;
  }

  /** One turn of the copying loop of on_paste: copy `i` is merged into
      its destination when that row exists, and appended under a unique
      name otherwise; its row is shown selected. */
  method PasteOne(a0: seq<Animation>, anims: seq<Animation>, rs: seq<Row>, copies: seq<Animation>,
                  d: seq<nat>, i: nat, filters: set<string>, names: set<string>,
                  merge: (Animation, Animation, set<string>) -> Animation,
                  load: Animation -> Animation)
    returns (anims': seq<Animation>, rs': seq<Row>)
    requires |d| == |copies| && Ascending(d) && i < |d|
    requires forall j :: 0 <= j < |d| ==> Continues(d, |a0|, j)
    requires PastedSoFar(a0, anims, copies, d, i, filters, names, merge, load)
    requires Texts(rs, anims)
    requires forall k :: 0 <= k < |rs| ==> (rs[k].selected <==> k in d)
    requires forall a, c, f :: merge(a, c, f).name == a.name
    ensures PastedSoFar(a0, anims', copies, d, i + 1, filters, names, merge, load)
    ensures Texts(rs', anims')
    ensures forall k :: 0 <= k < |rs'| ==> (rs'[k].selected <==> k in d)
  {
    var dst := d[i];
    PasteRoute(d, |a0|, i);
    if dst < |anims| {
      var animation := merge(anims[dst], copies[i], filters);
      PasteTurn(a0, anims, copies, d, i, filters, names, merge, load, anims[dst := animation]);
      MergeRow(rs, anims, dst, animation, d);
      anims' := anims[dst := animation];
      rs' := rs[dst := rs[dst].(frames := IntToString(animation.frameCount), selected := true)];
    } else {
      var animation := load(copies[i]);
      var name := GetUniqueName(animation.name, names);
      animation := animation.(name := name);
      assert animation == Fresh(load(copies[i]), names);
      PasteTurn(a0, anims, copies, d, i, filters, names, merge, load, anims + [animation]);
      var row := Row(IntToString(dst), animation.name, IntToString(animation.frameCount), true);
      AppendRow(rs, anims, row, animation, d);
      anims' := anims + [animation];
      rs' := rs + [row];
    }
  }

  /** What on_paste leaves at each destination, copy by copy. */
  ghost function Targets(a0: seq<Animation>, copies: seq<Animation>, d: seq<nat>,
                         filters: set<string>, names: set<string>,
                         merge: (Animation, Animation, set<string>) -> Animation,
                         load: Animation -> Animation): (t: seq<Animation>)
    requires |d| == |copies|
    ensures |t| == |d|
    ensures forall j :: 0 <= j < |d| ==> t[j] == PastedAt(a0, copies[j], d[j], filters, names, merge, load)
  {
    seq(|d|, j requires 0 <= j < |d| => PastedAt(a0, copies[j], d[j], filters, names, merge, load))
  }

  /** The first `i` destinations of `d` hold their targets in `xs`. */
  ghost predicate Reached<T>(xs: seq<T>, d: seq<nat>, t: seq<T>, i: nat)
    requires i <= |d| == |t|
  {
    forall j :: 0 <= j < i ==> d[j] < |xs| && xs[d[j]] == t[j]
  }

  /** Every position of `xs` outside the first `i` destinations holds
      what it held in `x0`. */
  ghost predicate KeptOutside<T>(xs: seq<T>, x0: seq<T>, d: seq<nat>, i: nat)
    requires i <= |d|
  {
    forall k :: 0 <= k < |xs| && k !in d[..i] ==> k < |x0| && xs[k] == x0[k]
  }

  /** The state of the copying loop of on_paste after `i` turns: the
      destinations reached hold their pasted animations and every other
      position its animation from before the paste. */
  ghost predicate PastedSoFar(a0: seq<Animation>, anims: seq<Animation>, copies: seq<Animation>,
                              d: seq<nat>, i: nat, filters: set<string>, names: set<string>,
                              merge: (Animation, Animation, set<string>) -> Animation,
                              load: Animation -> Animation)
    requires i <= |d| == |copies|
  {
    |anims| == PastedLength(|a0|, d[..i]) &&
    Reached(anims, d, Targets(a0, copies, d, filters, names, merge, load), i) &&
    KeptOutside(anims, a0, d, i)
  }

  /** One turn of the copying loop keeps PastedSoFar: the destination is
      merged into when it existed before the paste, and appended otherwise. */
  lemma PasteTurn(a0: seq<Animation>, anims: seq<Animation>, copies: seq<Animation>,
                  d: seq<nat>, i: nat, filters: set<string>, names: set<string>,
                  merge: (Animation, Animation, set<string>) -> Animation,
                  load: Animation -> Animation, next: seq<Animation>)
    requires |d| == |copies| && Ascending(d) && i < |d|
    requires forall j :: 0 <= j < |d| ==> Continues(d, |a0|, j)
    requires PastedSoFar(a0, anims, copies, d, i, filters, names, merge, load)
    requires d[i] < |anims| ==> next == anims[d[i] := merge(anims[d[i]], copies[i], filters)]
    requires d[i] >= |anims| ==> next == anims + [Fresh(load(copies[i]), names)]
    ensures PastedSoFar(a0, next, copies, d, i + 1, filters, names, merge, load)
  {
    var dst := d[i];
    var t := Targets(a0, copies, d, filters, names, merge, load);
    PasteRoute(d, |a0|, i);
    PasteStep(anims, a0, d, i);
    assert next[dst] == t[i];
    if dst < |anims| {
      ReachedUpdate(anims, d, t, i);
      KeptUpdate(anims, a0, d, i, t[i]);
    } else {
      ReachedAppend(anims, d, t, i);
      KeptAppend(anims, a0, d, i, t[i]);
    }
  }

  /** Writing the next target at its destination extends Reached. */
  lemma ReachedUpdate<T>(xs: seq<T>, d: seq<nat>, t: seq<T>, i: nat)
    requires i < |d| == |t| && d[i] < |xs|
    requires Reached(xs, d, t, i) && forall j :: 0 <= j < i ==> d[j] != d[i]
    ensures Reached(xs[d[i] := t[i]], d, t, i + 1)
  {
  }

  /** Appending the next target at its destination extends Reached. */
  lemma ReachedAppend<T>(xs: seq<T>, d: seq<nat>, t: seq<T>, i: nat)
    requires i < |d| == |t| && d[i] == |xs|
    requires Reached(xs, d, t, i)
    ensures Reached(xs + [t[i]], d, t, i + 1)
  {
    var next := xs + [t[i]];
    forall j | 0 <= j < i + 1
      ensures d[j] < |next| && next[d[j]] == t[j]
    {
      if j < i {
        assert next[d[j]] == xs[d[j]];
      }
    }
  }

  /** Writing at the next destination keeps every other position. */
  lemma KeptUpdate<T>(xs: seq<T>, x0: seq<T>, d: seq<nat>, i: nat, x: T)
    requires i < |d| && d[i] < |xs|
    requires KeptOutside(xs, x0, d, i)
    ensures KeptOutside(xs[d[i] := x], x0, d, i + 1)
  {
    assert d[..i + 1] == d[..i] + [d[i]];
  }

  /** Appending at the next destination keeps every other position. */
  lemma KeptAppend<T>(xs: seq<T>, x0: seq<T>, d: seq<nat>, i: nat, x: T)
    requires i < |d| && d[i] == |xs|
    requires KeptOutside(xs, x0, d, i)
    ensures KeptOutside(xs + [x], x0, d, i + 1)
  {
    var next := xs + [x];
    assert d[..i + 1] == d[..i] + [d[i]];
    forall k | 0 <= k < |next| && k !in d[..i + 1]
      ensures k < |x0| && next[k] == x0[k]
    {
      assert k !in d[..i] && next[k] == xs[k];
    }
  }

  /** Merging into row `dst`, one of the destinations, keeps the columns
      matching when the merge keeps the animation's name. */
  lemma MergeRow(rs: seq<Row>, anims: seq<Animation>, dst: nat, a: Animation, d: seq<nat>)
    requires Texts(rs, anims) && dst < |rs| && dst in d && a.name == anims[dst].name
    requires forall k :: 0 <= k < |rs| ==> (rs[k].selected <==> k in d)
    ensures var r := rs[dst := rs[dst].(frames := IntToString(a.frameCount), selected := true)];
      Texts(r, anims[dst := a]) && forall k :: 0 <= k < |r| ==> (r[k].selected <==> k in d)
  {
  }

  /** Appending a selected row for a new animation at a destination keeps
      the columns matching. */
  lemma AppendRow(rs: seq<Row>, anims: seq<Animation>, row: Row, a: Animation, d: seq<nat>)
    requires Texts(rs, anims) && |rs| in d && row.selected
    requires row.name == a.name && row.frames == IntToString(a.frameCount)
    requires forall k :: 0 <= k < |rs| ==> (rs[k].selected <==> k in d)
    ensures Texts(rs + [row], anims + [a])
    ensures forall k :: 0 <= k < |rs| + 1 ==> ((rs + [row])[k].selected <==> k in d)
  {
  }

  /** In turn `i` of the copying loop, the destination was not reached
      by an earlier turn, and so still holds its animation from before
      the paste when it existed then. */
  lemma PasteStep(anims: seq<Animation>, a0: seq<Animation>, d: seq<nat>, i: nat)
    requires Ascending(d) && i < |d|
    requires forall k :: 0 <= k < |anims| && k !in d[..i] ==> k < |a0| && anims[k] == a0[k]
    ensures d[i] !in d[..i]
    ensures forall j :: 0 <= j < i ==> d[j] != d[i]
    ensures d[i] < |anims| ==> d[i] < |a0| && anims[d[i]] == a0[d[i]]
  {
    forall j | 0 <= j < i ensures d[..i][j] != d[i] {
      assert d[j] < d[i];
    }
  }

  /** `Select(i, 0)` for every row in `sel`. */
  method Deselect(r0: seq<Row>, sel: seq<nat>) returns (rs: seq<Row>)
    requires forall i :: 0 <= i < |sel| ==> sel[i] < |r0|
    ensures |rs| == |r0|
    ensures forall k :: 0 <= k < |rs| ==> rs[k] == r0[k].(selected := r0[k].selected && k !in sel)
  {
    rs := r0;
    var j := 0;
    while j < |sel|
      invariant 0 <= j <= |sel| && |rs| == |r0|
      invariant forall k :: 0 <= k < |rs| ==> rs[k] == r0[k].(selected := r0[k].selected && k !in sel[..j])
    {
      assert sel[..j + 1] == sel[..j] + [sel[j]];
      rs := rs[sel[j] := rs[sel[j]].(selected := false)];
      j := j + 1;
    }
    assert sel[..j] == sel;
  }

  /** Deselecting the selected rows leaves none selected. */
  lemma DeselectAll(rows: seq<Row>, animations: seq<Animation>, rs: seq<Row>)
    requires Shows(rows, animations) && |rs| == |rows|
    requires forall k :: 0 <= k < |rs| ==>
      rs[k] == rows[k].(selected := rows[k].selected && k !in SelectedRows(rows))
    ensures Texts(rs, animations)
    ensures forall k :: 0 <= k < |rs| ==> !rs[k].selected
  {
  }

  /** The loop of reindex on values: row `i` gets `i` in its "#" column
      and keeps its other columns. */
  method Renumber(r0: seq<Row>, animations: seq<Animation>) returns (rs: seq<Row>)
    ensures |rs| == |r0|
    ensures forall i :: 0 <= i < |rs| ==> rs[i] == r0[i].(index := IntToString(i))
    ensures Texts(r0, animations) ==> Shows(rs, animations)
  {
    rs := r0;
    var i := 0;
    while i < |rs|
      invariant 0 <= i <= |rs| == |r0|
      invariant forall k :: 0 <= k < |rs| ==>
        rs[k] == if k < i then r0[k].(index := IntToString(k)) else r0[k]
    {
      rs := rs[i := rs[i].(index := IntToString(i))];
      i := i + 1;
    }
    if Texts(r0, animations) {
      TextsReindexed(r0, animations, rs);
    }
  }

  /** add_animation on values: the selection is cleared and the copies
      are inserted, selected, before the first selected row or after the
      last one. */
  method AddCopies(a0: seq<Animation>, r0: seq<Row>, sel: seq<nat>, append: bool,
                   copies: seq<Animation>, load: Animation -> Animation)
    returns (anims: seq<Animation>, rs: seq<Row>)
    requires Shows(r0, a0) && sel == SelectedRows(r0) && sel != []
    ensures var index := if append then sel[|sel| - 1] + 1 else sel[0];
      index <= |a0| && anims == a0[..index] + Added(copies, Names(a0), load) + a0[index..] &&
      forall k :: 0 <= k < |rs| ==> (rs[k].selected <==> index <= k < index + |copies|)
    ensures Texts(rs, anims)
  {
    rs := Deselect(r0, sel);
    DeselectAll(r0, a0, rs);
    var index := if append then sel[|sel| - 1] + 1 else sel[0];
    anims, rs := InsertCopies(a0, rs, index, copies, Names(a0), load);
  }

  /** The loop of add_animation: each copy is loaded into a new animation,
      renamed against `names` and inserted, with a selected row, right
      after the ones inserted before it. */
  method InsertCopies(a0: seq<Animation>, r0: seq<Row>, index: nat, copies: seq<Animation>,
                      names: set<string>, load: Animation -> Animation)
    returns (anims: seq<Animation>, rs: seq<Row>)
    requires index <= |a0| && Texts(r0, a0)
    requires forall k :: 0 <= k < |r0| ==> !r0[k].selected
    ensures anims == a0[..index] + Added(copies, names, load) + a0[index..]
    ensures Texts(rs, anims)
    ensures forall k :: 0 <= k < |rs| ==> (rs[k].selected <==> index <= k < index + |copies|)
  {
    ghost var added := Added(copies, names, load);
    anims, rs := a0, r0;
    var i := 0;
    while i < |copies|
      invariant 0 <= i <= |copies|
      invariant anims == a0[..index] + added[..i] + a0[index..]
      invariant Texts(rs, anims)
      invariant forall k :: 0 <= k < |rs| ==> (rs[k].selected <==> index <= k < index + i)
    {
      var dst := index + i;
      var animation := load(copies[i]);
      var name := GetUniqueName(animation.name, names);
      animation := animation.(name := name);
      var row := Row(IntToString(dst), animation.name, IntToString(animation.frameCount), true);
      InsertBoth(rs, anims, dst, row, animation);
      InsertSelected(rs, index, i, row);
      InsertTurn(a0, index, added, i, anims, animation);
      anims := anims[..dst] + [animation] + anims[dst..];
      rs := rs[..dst] + [row] + rs[dst..];
      i := i + 1;
    }
    assert added[..i] == added;
  }

  /** The loop of on_delete: the positions in `sel` are removed from the
      animations and the rows, last first, leaving no row selected. */
  method RemoveSelectedRows(a0: seq<Animation>, r0: seq<Row>, sel: seq<nat>)
    returns (anims: seq<Animation>, rs: seq<Row>)
    requires Ascending(sel) && forall i :: 0 <= i < |sel| ==> sel[i] < |a0|
    requires Texts(r0, a0)
    requires forall k :: 0 <= k < |r0| ==> (r0[k].selected <==> k in sel)
    ensures anims == Kept(a0, Positions(sel)) && |anims| == |a0| - |sel|
    ensures Texts(rs, anims)
    ensures forall k :: 0 <= k < |rs| ==> !rs[k].selected
  {
    ghost var drop := Positions(sel);
    assert a0[..|a0|] + KeepFrom(a0, drop, |a0|) == a0;
    anims, rs := a0, r0;
    var j := |sel|;
    assert sel[..j] == sel;
    while j > 0
      invariant 0 <= j <= |sel|
      invariant Bound(|a0|, sel, j) <= |a0|
      invariant anims == a0[..Bound(|a0|, sel, j)] + KeepFrom(a0, drop, Bound(|a0|, sel, j))
      invariant |anims| == |a0| - (|sel| - j)
      invariant Texts(rs, anims)
      invariant forall k :: 0 <= k < |rs| ==> (rs[k].selected <==> k in sel[..j])
    {
      var s := sel[j - 1];
      DeleteStep(a0, sel, j, anims);
      RemoveBoth(rs, anims, s);
      RemoveSelected(rs, sel, j);
      anims := anims[..s] + anims[s + 1..];
      rs := rs[..s] + rs[s + 1..];
      j := j - 1;
    }
    RemoveDone(a0, sel);
  }

  /** Inserting a row and its animation at the same position keeps the
      columns matching. */
  lemma InsertBoth(rows: seq<Row>, animations: seq<Animation>, dst: nat, row: Row, a: Animation)
    requires Texts(rows, animations) && dst <= |rows|
    requires row.name == a.name && row.frames == IntToString(a.frameCount)
    ensures Texts(rows[..dst] + [row] + rows[dst..], animations[..dst] + [a] + animations[dst..])
  {
    var r2, a2 := rows[..dst] + [row] + rows[dst..], animations[..dst] + [a] + animations[dst..];
    forall k | 0 <= k < |r2|
      ensures r2[k].name == a2[k].name && r2[k].frames == IntToString(a2[k].frameCount)
    {
      if k > dst {
        assert r2[k] == rows[k - 1] && a2[k] == animations[k - 1];
      }
    }
  }

  /** Removing the same position from the rows and the animations keeps
      the columns matching. */
  lemma RemoveBoth(rows: seq<Row>, animations: seq<Animation>, s: nat)
    requires Texts(rows, animations) && s < |rows|
    ensures Texts(rows[..s] + rows[s + 1..], animations[..s] + animations[s + 1..])
  {
    var r2, a2 := rows[..s] + rows[s + 1..], animations[..s] + animations[s + 1..];
    forall k | 0 <= k < |r2|
      ensures r2[k].name == a2[k].name && r2[k].frames == IntToString(a2[k].frameCount)
    {
      if k >= s {
        assert r2[k] == rows[k + 1] && a2[k] == animations[k + 1];
      }
    }
  }

  /** Inserting a selected row at `index + i` into rows selected exactly on
      [index, index + i) leaves them selected exactly on [index, index + i + 1). */
  lemma InsertSelected(rows: seq<Row>, index: nat, i: nat, row: Row)
    requires index + i <= |rows| && row.selected
    requires forall k :: 0 <= k < |rows| ==> (rows[k].selected <==> index <= k < index + i)
    ensures var r := rows[..index + i] + [row] + rows[index + i..];
      forall k :: 0 <= k < |r| ==> (r[k].selected <==> index <= k < index + i + 1)
  {
    var r := rows[..index + i] + [row] + rows[index + i..];
    forall k | 0 <= k < |r|
      ensures r[k].selected <==> index <= k < index + i + 1
    {
      if k > index + i {
        assert r[k] == rows[k - 1];
      } else if k < index + i {
        assert r[k] == rows[k];
      }
    }
  }

  /** One turn of the loop of add_animation: inserting the next of the
      added animations right after the ones inserted before it. */
  lemma InsertTurn<T>(a0: seq<T>, index: nat, added: seq<T>, i: nat, xs: seq<T>, x: T)
    requires index <= |a0| && i < |added| && added[i] == x
    requires xs == a0[..index] + added[..i] + a0[index..]
    ensures xs[..index + i] + [x] + xs[index + i..] == a0[..index] + added[..i + 1] + a0[index..]
  {
    assert xs[..index + i] == a0[..index] + added[..i];
    assert xs[index + i..] == a0[index..];
    assert added[..i + 1] == added[..i] + [x];
  }

  /** Removing row `sel[j - 1]` from rows selected exactly on the
      positions in `sel[..j]` leaves them selected exactly on those in
      `sel[..j - 1]`. */
  lemma RemoveSelected(rows: seq<Row>, sel: seq<nat>, j: nat)
    requires Ascending(sel) && 0 < j <= |sel| && sel[j - 1] < |rows|
    requires forall k :: 0 <= k < |rows| ==> (rows[k].selected <==> k in sel[..j])
    ensures var r := rows[..sel[j - 1]] + rows[sel[j - 1] + 1..];
      forall k :: 0 <= k < |r| ==> (r[k].selected <==> k in sel[..j - 1])
  {
    var s := sel[j - 1];
    var r := rows[..s] + rows[s + 1..];
    assert sel[..j] == sel[..j - 1] + [s];
    var before := sel[..j - 1];
    assert forall m :: 0 <= m < |before| ==> before[m] < s;
    forall k | 0 <= k < |r|
      ensures r[k].selected <==> k in sel[..j - 1]
    {
      if k >= s {
        assert r[k] == rows[k + 1];
      } else {
        assert r[k] == rows[k];
      }
    }
  }

  // ---------------------------------------------------------------------
  // Editing each selected animation
  // ---------------------------------------------------------------------

  lemma SelectedIsSelection(rows: seq<Row>)
    ensures Selection(SelectedRows(rows), |rows|)
  {
    var sel := SelectedRows(rows);
    forall i | 0 <= i < |sel| ensures sel[i] < |rows| {
      assert sel[i] in sel;
    }
  }

  lemma ShowsUpdate(rows: seq<Row>, xs: seq<Animation>, k: nat, a: Animation)
    requires Shows(rows, xs) && k < |xs| && a.name == xs[k].name && a.frameCount == xs[k].frameCount
    ensures Shows(rows, xs[k := a])
  {
  }

  lemma AppliedNone<T>(xs: seq<T>, f: T --> T)
    ensures Applied(xs, [], f) == xs
  {
  }

  /** Turn `j` of a loop over an ascending selection edits an animation
      no earlier turn has touched. */
  lemma AppliedStep<T>(xs: seq<T>, sel: seq<nat>, j: nat, f: T --> T)
    requires Selection(sel, |xs|) && j < |sel|
    requires forall k :: 0 <= k < |xs| && k in sel ==> f.requires(xs[k])
    ensures f.requires(xs[sel[j]])
    ensures Applied(xs, sel[..j], f)[sel[j]] == xs[sel[j]]
    ensures Applied(xs, sel[..j], f)[sel[j] := f(xs[sel[j]])] == Applied(xs, sel[..j + 1], f)
  {
    assert sel[j] in sel;
    assert sel[..j + 1] == sel[..j] + [sel[j]];
    var before := sel[..j];
    assert forall m :: 0 <= m < |before| ==> before[m] < sel[j];
  }

  /** Edits that keep the name and frame count keep the list showing the
      animations. */
  lemma AppliedShows(rows: seq<Row>, xs: seq<Animation>, sel: seq<nat>, f: Animation --> Animation)
    requires Shows(rows, xs)
    requires forall k :: 0 <= k < |xs| && k in sel ==>
      f.requires(xs[k]) && f(xs[k]).name == xs[k].name && f(xs[k]).frameCount == xs[k].frameCount
    ensures Shows(rows, Applied(xs, sel, f))
  {
  }

  /** The loop of transform. */
  method TransformEach(a0: seq<Animation>, sel: seq<nat>, bone: int, flag: int, w: real, x: real, y: real, z: real)
    returns (anims: seq<Animation>, skipped: seq<string>)
    requires Selection(sel, |a0|)
    ensures anims == Applied(a0, sel, TransformOf(bone, flag, w, x, y, z))
    ensures skipped == SkippedNames(a0, sel, bone)
  {
    var f := TransformOf(bone, flag, w, x, y, z);
    AppliedNone(a0, f);
    anims, skipped := a0, [];
    var j := 0;
    while j < |sel|
      invariant 0 <= j <= |sel|
      invariant anims == Applied(a0, sel[..j], f)
      invariant skipped == SkippedNames(a0, sel[..j], bone)
    {
      var k := sel[j];
      AppliedStep(a0, sel, j, f);
      var r, found := TransformAnimation(anims[k], bone, flag, w, x, y, z);
      anims := anims[k := r];
      if !found {
        skipped := skipped + [a0[k].name];
      }
      assert sel[..j + 1][..j] == sel[..j];
      j := j + 1;
    }
    assert sel[..j] == sel;
  }

  /** The loop of on_set_target_camera_offset. */
  method CameraEach(a0: seq<Animation>, sel: seq<nat>, x: real, y: real, z: real)
    returns (anims: seq<Animation>, changed: nat)
    requires Selection(sel, |a0|)
    ensures anims == Applied(a0, sel, CameraOf(x, y, z))
    ensures changed == CameraCount(a0, sel)
  {
    var f := CameraOf(x, y, z);
    AppliedNone(a0, f);
    anims, changed := a0, 0;
    var j := 0;
    while j < |sel|
      invariant 0 <= j <= |sel|
      invariant anims == Applied(a0, sel[..j], f)
      invariant changed == CameraCount(a0, sel[..j])
    {
      var k := sel[j];
      AppliedStep(a0, sel, j, f);
      var r, n := CameraOffset(anims[k], x, y, z);
      anims := anims[k := r];
      changed := changed + n;
      assert sel[..j + 1][..j] == sel[..j];
      j := j + 1;
    }
    assert sel[..j] == sel;
  }

  /** The loop of on_remove_keyframes. */
  method StripEach(a0: seq<Animation>, sel: seq<nat>, filters: seq<int>, flags: set<int>, whole: bool, start: int, end: int)
    returns (anims: seq<Animation>, removed: nat)
    requires Selection(sel, |a0|)
    ensures anims == Applied(a0, sel, StripOf(filters, flags, whole, start, end))
    ensures removed == RemovedCount(a0, sel, filters, flags, whole)
  {
    var f := StripOf(filters, flags, whole, start, end);
    AppliedNone(a0, f);
    anims, removed := a0, 0;
    var j := 0;
    while j < |sel|
      invariant 0 <= j <= |sel|
      invariant anims == Applied(a0, sel[..j], f)
      invariant removed == RemovedCount(a0, sel[..j], filters, flags, whole)
    {
      var k := sel[j];
      AppliedStep(a0, sel, j, f);
      var r, n := StripAnimation(anims[k], filters, flags, whole, start, end);
      anims := anims[k := r];
      removed := removed + n;
      assert sel[..j + 1][..j] == sel[..j];
      j := j + 1;
    }
    assert sel[..j] == sel;
  }

  /** Animation `a` with the names of its nodes up to node `s` swapped:
      where the swapping loop of on_mirror_anim stops. */
  function PartlySwapped(a: Animation, s: nat): Animation
    requires Splittable(a.nodes) && s < |a.nodes|
  {
    var nodes := a.nodes[..s + 1];
    assert Splittable(nodes) by {
      forall i | 0 <= i < |nodes| ensures '_' in nodes[i].boneName { assert nodes[i] == a.nodes[i]; }
    }
    a.(nodes := SwapNodes(nodes) + a.nodes[s + 1..])
  }

  /** The first loop of on_mirror_anim: left and right are swapped in the
      node names of each selected animation, until a node whose new name
      the skeleton does not know. */
  method SwapEach(a0: seq<Animation>, sel: seq<nat>, boneIndexOf: string -> int)
    returns (anims: seq<Animation>, outcome: MirrorOutcome)
    requires Selection(sel, |a0|)
    requires forall k :: 0 <= k < |a0| && k in sel ==> Splittable(a0[k].nodes)
    ensures outcome.Mirrored? ==> outcome.count == |sel| && anims == Applied(a0, sel, SwapOf())
    ensures outcome.NoMatchingBone? ==>
      var j, s := outcome.animation, outcome.node;
      j < |sel| &&
      (forall i :: 0 <= i < j ==> First(a0[sel[i]].nodes, Unresolved(boneIndexOf), 0).None?) &&
      First(a0[sel[j]].nodes, Unresolved(boneIndexOf), 0) == Some(s) &&
      anims == Applied(a0, sel[..j], SwapOf())[sel[j] := PartlySwapped(a0[sel[j]], s)]
  {
    var f := SwapOf();
    AppliedNone(a0, f);
    anims := a0;
    var j := 0;
    while j < |sel|
      invariant 0 <= j <= |sel|
      invariant anims == Applied(a0, sel[..j], f)
      invariant forall i :: 0 <= i < j ==> First(a0[sel[i]].nodes, Unresolved(boneIndexOf), 0).None?
    {
      var k := sel[j];
      AppliedStep(a0, sel, j, f);
      var r, stop := SwapNames(anims[k].nodes, boneIndexOf);
      if stop.Some? {
        anims := anims[k := anims[k].(nodes := r)];
        return anims, NoMatchingBone(j, stop.value);
      }
      anims := anims[k := anims[k].(nodes := r)];
      assert sel[..j + 1][..j] == sel[..j];
      j := j + 1;
    }
    assert sel[..j] == sel;
    outcome := Mirrored(|sel|);
  }

  /** The second loop of on_mirror_anim. */
  method MirrorEach(a0: seq<Animation>, sel: seq<nat>, excludeBase: bool) returns (anims: seq<Animation>)
    requires Selection(sel, |a0|)
    ensures anims == Applied(a0, sel, MirrorOf(excludeBase))
  {
    var f := MirrorOf(excludeBase);
    AppliedNone(a0, f);
    anims := a0;
    var j := 0;
    while j < |sel|
      invariant 0 <= j <= |sel|
      invariant anims == Applied(a0, sel[..j], f)
    {
      var k := sel[j];
      AppliedStep(a0, sel, j, f);
      var r := MirrorAll(anims[k].nodes, excludeBase);
      anims := anims[k := anims[k].(nodes := r)];
      j := j + 1;
    }
    assert sel[..j] == sel;
  }

  /** The loop of on_reverse_anim. */
  method ReverseEach(a0: seq<Animation>, sel: seq<nat>) returns (anims: seq<Animation>)
    requires Selection(sel, |a0|)
    requires forall k :: 0 <= k < |a0| && k in sel ==> Reversible(a0[k].nodes)
    ensures anims == Applied(a0, sel, ReverseOf())
  {
    var f := ReverseOf();
    AppliedNone(a0, f);
    anims := a0;
    var j := 0;
    while j < |sel|
      invariant 0 <= j <= |sel|
      invariant anims == Applied(a0, sel[..j], f)
    {
      var k := sel[j];
      AppliedStep(a0, sel, j, f);
      var r := ReverseAll(anims[k].nodes);
      anims := anims[k := anims[k].(nodes := r)];
      j := j + 1;
    }
    assert sel[..j] == sel;
  }

  // ---------------------------------------------------------------------
  // Laws of the handlers over a whole selection
  // ---------------------------------------------------------------------

  /** Editing the selection with `f` and then `g` is editing it with `h`
      when that holds animation by animation. */
  lemma AppliedTwice<T>(xs: seq<T>, sel: seq<nat>, f: T -> T, g: T -> T, h: T -> T)
    requires forall k :: 0 <= k < |xs| && k in sel ==> g(f(xs[k])) == h(xs[k])
    ensures Applied(Applied(xs, sel, f), sel, g) == Applied(xs, sel, h)
  {
  }

  /** Editing the selection with `f` and then `g` restores it when `g`
      undoes `f` on each selected animation. */
  lemma AppliedUndo<T>(xs: seq<T>, sel: seq<nat>, f: T -> T, g: T -> T)
    requires forall k :: 0 <= k < |xs| && k in sel ==> g(f(xs[k])) == xs[k]
    ensures Applied(Applied(xs, sel, f), sel, g) == xs
  {
  }

  /** Two offsets (or two scalings) of the same bone and channel are one
      by their sum. */
  lemma TransformTwice(a0: seq<Animation>, sel: seq<nat>, bone: int, flag: int, w: real,
                       x1: real, y1: real, z1: real, x2: real, y2: real, z2: real)
    ensures Applied(Applied(a0, sel, TransformOf(bone, flag, w, x1, y1, z1)), sel, TransformOf(bone, flag, w, x2, y2, z2)) ==
            Applied(a0, sel, TransformOf(bone, flag, w, x1 + x2, y1 + y2, z1 + z2))
  {
    forall k | 0 <= k < |a0| && k in sel
      ensures Transformed(Transformed(a0[k], bone, flag, w, x1, y1, z1), bone, flag, w, x2, y2, z2) ==
              Transformed(a0[k], bone, flag, w, x1 + x2, y1 + y2, z1 + z2)
    {
      TransformCompose(a0[k], bone, flag, w, x1, y1, z1, x2, y2, z2);
    }
    AppliedTwice(a0, sel, TransformOf(bone, flag, w, x1, y1, z1), TransformOf(bone, flag, w, x2, y2, z2),
                 TransformOf(bone, flag, w, x1 + x2, y1 + y2, z1 + z2));
  }

  /** The opposite offset undoes an offset wherever the bone already had
      the channel (a channel transform creates is not removed again). */
  lemma TransformBack(a0: seq<Animation>, sel: seq<nat>, bone: int, flag: int, w: real, x: real, y: real, z: real)
    requires forall k :: 0 <= k < |a0| && k in sel ==>
      First(a0[k].nodes, OfBone(bone), 0).Some? &&
      First(a0[k].nodes[First(a0[k].nodes, OfBone(bone), 0).value].channels, OfFlag(flag), 0).Some?
    ensures Applied(Applied(a0, sel, TransformOf(bone, flag, w, x, y, z)), sel, TransformOf(bone, flag, w, -x, -y, -z)) == a0
  {
    forall k | 0 <= k < |a0| && k in sel
      ensures Transformed(Transformed(a0[k], bone, flag, w, x, y, z), bone, flag, w, -x, -y, -z) == a0[k]
    {
      TransformUndo(a0[k], bone, flag, w, x, y, z);
    }
    AppliedUndo(a0, sel, TransformOf(bone, flag, w, x, y, z), TransformOf(bone, flag, w, -x, -y, -z));
  }

  /** Two target camera offsets are one by their sum, and the opposite
      offset undoes one. */
  lemma CameraTwice(a0: seq<Animation>, sel: seq<nat>, x1: real, y1: real, z1: real, x2: real, y2: real, z2: real)
    ensures Applied(Applied(a0, sel, CameraOf(x1, y1, z1)), sel, CameraOf(x2, y2, z2)) ==
            Applied(a0, sel, CameraOf(x1 + x2, y1 + y2, z1 + z2))
    ensures Applied(Applied(a0, sel, CameraOf(x1, y1, z1)), sel, CameraOf(-x1, -y1, -z1)) == a0
  {
    forall k | 0 <= k < |a0| && k in sel
      ensures CameraShift(CameraShift(a0[k], x1, y1, z1), x2, y2, z2) == CameraShift(a0[k], x1 + x2, y1 + y2, z1 + z2)
      ensures CameraShift(CameraShift(a0[k], x1, y1, z1), -x1, -y1, -z1) == a0[k]
    {
      CameraCompose(a0[k], x1, y1, z1, x2, y2, z2);
    }
    AppliedTwice(a0, sel, CameraOf(x1, y1, z1), CameraOf(x2, y2, z2), CameraOf(x1 + x2, y1 + y2, z1 + z2));
    AppliedUndo(a0, sel, CameraOf(x1, y1, z1), CameraOf(-x1, -y1, -z1));
  }

  /** Removing the same keyframes a second time changes nothing. */
  lemma StripTwice(a0: seq<Animation>, sel: seq<nat>, filters: seq<int>, flags: set<int>, whole: bool, start: int, end: int)
    ensures var f := StripOf(filters, flags, whole, start, end);
      Applied(Applied(a0, sel, f), sel, f) == Applied(a0, sel, f)
  {
    var f := StripOf(filters, flags, whole, start, end);
    forall k | 0 <= k < |a0| && k in sel
      ensures f(f(a0[k])) == f(a0[k])
    {
      StrippedIdempotent(a0[k], filters, flags, whole, start, end);
    }
    AppliedTwice(a0, sel, f, f, f);
  }

  /** The arithmetic of mirroring, done twice, restores the animations. */
  lemma MirrorArithmeticTwice(a0: seq<Animation>, sel: seq<nat>, excludeBase: bool)
    ensures Applied(Applied(a0, sel, MirrorOf(excludeBase)), sel, MirrorOf(excludeBase)) == a0
  {
    forall k | 0 <= k < |a0| && k in sel
      ensures MirrorOf(excludeBase)(MirrorOf(excludeBase)(a0[k])) == a0[k]
    {
      MirrorTwice(a0[k].nodes, excludeBase);
    }
    AppliedUndo(a0, sel, MirrorOf(excludeBase), MirrorOf(excludeBase));
  }

  // ---------------------------------------------------------------------
  // on_remove_keyframes as written
  // ---------------------------------------------------------------------

  /** `RemoveKeyframesDialog.GetValues()`: the flags of the ticked boxes,
      in the order position, orientation, scale. The dialog has no frame
      fields. */
  function DialogFlags(position: bool, orientation: bool, scale: bool): (r: seq<int>)
    ensures |r| <= 3 && (|r| == 3 <==> position && orientation && scale)
    ensures forall f :: f in r <==>
      (f == POSITION_FLAG && position) || (f == ORIENTATION_FLAG && orientation) || (f == SCALE_FLAG && scale)
  {
    (if position then [POSITION_FLAG] else []) + (if orientation then [ORIENTATION_FLAG] else []) +
    (if scale then [SCALE_FLAG] else [])
  }

  /** How on_remove_keyframes ends once the dialog is accepted with a
      non-empty selection. */
  datatype RemoveRun = UnpackError | NotIterable | NothingRemoved

  /** The handler as it stands: `flags, start_frame, end_frame =
      dlg.GetValues()` raises ValueError unless the list holds exactly three
      flags; when it does, `flags` is the integer 1792, and `flag not in
      flags` raises TypeError at the first channel of a node whose bone is
      checked; with no such channel the loops finish without removing
      anything. */
  function RemoveKeyframesAsWritten(values: seq<int>, animations: seq<Animation>, sel: seq<nat>,
                                    filters: seq<int>): (r: RemoveRun)
    ensures r == UnpackError <==> |values| != 3
    ensures r == NothingRemoved ==>
      forall k, i ::
        (0 <= k < |animations| && k in sel && 0 <= i < |animations[k].nodes| &&
         animations[k].nodes[i].boneIndex in filters) ==> animations[k].nodes[i].channels == []
  {
    if |values| != 3 then UnpackError
    else if exists k, i :: 0 <= k < |animations| && k in sel && 0 <= i < |animations[k].nodes| &&
                animations[k].nodes[i].boneIndex in filters && animations[k].nodes[i].channels != []
    then NotIterable
    else NothingRemoved
  }

  /** Whatever the boxes, frames and filters, the handler as it stands
      never changes an animation: it raises, or the removal it would make
      is the identity. */
  lemma RemoveKeyframesNeverStrips(values: seq<int>, animations: seq<Animation>, sel: seq<nat>,
                                   filters: seq<int>, flags: set<int>, whole: bool, start: int, end: int)
    requires RemoveKeyframesAsWritten(values, animations, sel, filters) != UnpackError
    requires RemoveKeyframesAsWritten(values, animations, sel, filters) != NotIterable
    ensures Applied(animations, sel, StripOf(filters, flags, whole, start, end)) == animations
  {
    var r := Applied(animations, sel, StripOf(filters, flags, whole, start, end));
    forall k | 0 <= k < |animations| && k in sel
      ensures Stripped(animations[k], filters, flags, whole, start, end) == animations[k]
    {
      var a := animations[k];
      var b := Stripped(a, filters, flags, whole, start, end);
      forall i | 0 <= i < |a.nodes|
        ensures b.nodes[i] == a.nodes[i]
      {
        if a.nodes[i].boneIndex in filters {
          assert a.nodes[i].channels == [];
        }
      }
      assert b.nodes == a.nodes;
    }
    assert r == animations;
  }

  /** The input that shows it: only the position box ticked, one selected
      animation whose checked bone has a position channel with keyframes
      at frames 0 and 1, and the range [0, 1). The unpacking raises, where
      the intended removal drops the keyframe at frame 0. */
  lemma RemoveKeyframesExample()
    ensures var k0, k1 := Keyframe(0, 1.0, 0.0, 0.0, 0.0), Keyframe(1, 1.0, 0.0, 0.0, 0.0);
      var a := Animation("attack", 2, [Node(0, "b_C_Base", [Channel(POSITION_FLAG, [k0, k1])])]);
      RemoveKeyframesAsWritten(DialogFlags(true, false, false), [a], [0], [0]) == UnpackError &&
      Stripped(a, [0], {POSITION_FLAG}, false, 0, 1).nodes[0].channels[0].keyframes == [k1]
  {
    var k0, k1 := Keyframe(0, 1.0, 0.0, 0.0, 0.0), Keyframe(1, 1.0, 0.0, 0.0, 0.0);
    var c := Channel(POSITION_FLAG, [k0, k1]);
    assert Outside([k0, k1], 0, 1) == [k1] by {
      assert [k0, k1][..1] == [k0];
      assert Outside([k0], 0, 1) == [] by {
        assert [k0][..0] == [];
      }
    }
    assert StripChannels([c], {POSITION_FLAG}, false, 0, 1) == [c.(keyframes := [k1])] by {
      assert [c][..0] == [];
    }
  }
}
