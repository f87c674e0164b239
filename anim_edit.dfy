/** The value-level side of the animation list panel: the rows of the list
    and which of them are selected, where pasted animations land, which
    animations survive a delete, and the edits the panel makes to the
    keyframed channels of an animation (offset and scale, the target
    camera shift, keyframe removal, left/right mirroring, reversal). */
module AnimEdit {
  import opened PyStr
  import opened Ean
  import opened Helpers

  // ---------------------------------------------------------------------
  // Rows of the list control
  // ---------------------------------------------------------------------

  /** One row of the animation list: its "#", "Animation" and "Frames"
      columns, and whether it is selected. */
  datatype Row = Row(index: string, name: string, frames: string, selected: bool)

  function RowOf(i: nat, a: Animation, selected: bool): Row
  {
    Row(IntToString(i), a.name, IntToString(a.frameCount), selected)
  }

  /** The list shows the animations of the file, one row each, in order. */
  predicate Shows(rows: seq<Row>, animations: seq<Animation>)
  {
    |rows| == |animations| &&
    forall i :: 0 <= i < |rows| ==> rows[i] == RowOf(i, animations[i], rows[i].selected)
  }

  predicate Ascending(xs: seq<nat>)
  {
    forall a, b :: 0 <= a < b < |xs| ==> xs[a] < xs[b]
  }

  /** `get_selected_items`, from row `lo` on: the selected rows, ascending. */
  function SelectedFrom(rows: seq<Row>, lo: nat): (r: seq<nat>)
    ensures forall k :: k in r <==> lo <= k < |rows| && rows[k].selected
    ensures forall i :: 0 <= i < |r| ==> r[i] < |rows|
    ensures Ascending(r)
    decreases |rows| - lo
  {
    if lo >= |rows| then []
    else
      var rest := SelectedFrom(rows, lo + 1);
      AscendingCons(lo, rest);
      (if rows[lo].selected then [lo] else []) + rest
  }

  lemma AscendingCons(lo: nat, rest: seq<nat>)
    requires Ascending(rest) && forall k :: k in rest ==> lo < k
    ensures Ascending([lo] + rest)
  {
    var r := [lo] + rest;
    forall a, b | 0 <= a < b < |r|
      ensures r[a] < r[b]
    {
      if a == 0 {
        assert r[b] in rest;
      }
    }
  }

  function SelectedRows(rows: seq<Row>): seq<nat>
  {
    SelectedFrom(rows, 0)
  }

  /** Reading the "Frames" column back with `int()` gives the frame count. */
  lemma FramesReadBack(rows: seq<Row>, animations: seq<Animation>, i: nat)
    requires Shows(rows, animations) && i < |rows|
    ensures ParseInt(rows[i].frames) == Some(animations[i].frameCount)
  {
    IntToStringParse(animations[i].frameCount);
  }

  /** Every row's "#" column reads back as its position. */
  lemma IndexReadBack(rows: seq<Row>, animations: seq<Animation>, i: nat)
    requires Shows(rows, animations) && i < |rows|
    ensures ParseInt(rows[i].index) == Some(i)
  {
    IntToStringParse(i);
  }

  /** The "Animation" and "Frames" columns match the animations; the "#"
      column is left to reindex. */
  predicate Texts(rows: seq<Row>, animations: seq<Animation>)
  {
    |rows| == |animations| &&
    forall i :: 0 <= i < |rows| ==>
      rows[i].name == animations[i].name && rows[i].frames == IntToString(animations[i].frameCount)
  }

  /** Rewriting the "#" column of rows whose other columns match makes the
      list show the animations. */
  lemma TextsReindexed(rows: seq<Row>, animations: seq<Animation>, indexed: seq<Row>)
    requires Texts(rows, animations) && |indexed| == |rows|
    requires forall i :: 0 <= i < |rows| ==> indexed[i] == rows[i].(index := IntToString(i))
    ensures Shows(indexed, animations)
  {
    forall i | 0 <= i < |rows|
      ensures indexed[i] == RowOf(i, animations[i], indexed[i].selected)
    {
    }
  }

  // ---------------------------------------------------------------------
  // Names of pasted and inserted copies
  // ---------------------------------------------------------------------

  /** The names of the animations in the file. */
  function Names(animations: seq<Animation>): set<string>
  {
    set i | 0 <= i < |animations| :: animations[i].name
  }

  /** A copy after `get_unique_name(animation, names)`: a name not in
      `names` with the same text before its last '.', and the copy kept
      whole when its name was free. */
  ghost function Fresh(a: Animation, names: set<string>): (r: Animation)
    ensures r.name !in names && Prefix(r.name) == Prefix(a.name)
    ensures r.frameCount == a.frameCount && r.nodes == a.nodes
    ensures a.name !in names ==> r == a
  {
    a.(name := UniqueName(a.name, names))
  }

  /** The animations add_animation inserts: each copy loaded into a new
      animation and renamed against the names the file had before. */
  ghost function Added(copies: seq<Animation>, names: set<string>, load: Animation -> Animation): (r: seq<Animation>)
    ensures |r| == |copies|
    ensures forall i :: 0 <= i < |r| ==> r[i].name !in names
  {
    seq(|copies|, i requires 0 <= i < |copies| => Fresh(load(copies[i]), names))
  }

  // ---------------------------------------------------------------------
  // Deleting the selected animations
  // ---------------------------------------------------------------------

  /** The elements of `xs` from position `lo` on whose positions are not in
      `drop`, in their original order. */
  function KeepFrom<T>(xs: seq<T>, drop: set<nat>, lo: nat): (r: seq<T>)
    ensures lo <= |xs| ==> |r| <= |xs| - lo
    ensures forall x :: x in r ==> x in xs
    decreases |xs| - lo
  {
    if lo >= |xs| then []
    else (if lo in drop then [] else [xs[lo]]) + KeepFrom(xs, drop, lo + 1)
  }

  /** The survivors of deleting the positions in `drop`. */
  function Kept<T>(xs: seq<T>, drop: set<nat>): (r: seq<T>)
    ensures |r| <= |xs|
    ensures forall x :: x in r ==> x in xs
  {
    KeepFrom(xs, drop, 0)
  }

  /** A stretch with nothing to drop is kept whole. */
  lemma {:induction false} KeepSpan<T>(xs: seq<T>, drop: set<nat>, lo: nat, hi: nat)
    requires lo <= hi <= |xs|
    requires forall k :: lo <= k < hi ==> k !in drop
    ensures KeepFrom(xs, drop, lo) == xs[lo..hi] + KeepFrom(xs, drop, hi)
    decreases hi - lo
  {
    if lo < hi {
      KeepSpan(xs, drop, lo + 1, hi);
      assert KeepFrom(xs, drop, lo) == [xs[lo]] + KeepFrom(xs, drop, lo + 1);
      assert xs[lo..hi] == [xs[lo]] + xs[lo + 1..hi];
    }
  }

  /** A dropped position contributes nothing. */
  lemma KeepDropped<T>(xs: seq<T>, drop: set<nat>, s: nat)
    requires s < |xs| && s in drop
    ensures KeepFrom(xs, drop, s) == KeepFrom(xs, drop, s + 1)
  {
    assert KeepFrom(xs, drop, s) == [] + KeepFrom(xs, drop, s + 1);
  }

  /** Deleting nothing keeps everything. */
  lemma KeptNothing<T>(xs: seq<T>)
    ensures Kept(xs, {}) == xs
  {
    KeepSpan(xs, {}, 0, |xs|);
  }

  /** The positions a selection names. */
  function Positions(sel: seq<nat>): set<nat>
  {
    set k | k in sel
  }

  /** Where the descending delete loop stands once the selected positions
      from `j` on are gone: everything below `Bound(...)` is untouched. */
  function Bound(n: nat, sel: seq<nat>, j: nat): nat
    requires j <= |sel|
  {
    if j == |sel| then n else sel[j]
  }

  /** Between two consecutive selected positions nothing is selected. */
  lemma GapFree(n: nat, sel: seq<nat>, j: nat)
    requires Ascending(sel) && forall i :: 0 <= i < |sel| ==> sel[i] < n
    requires 0 < j <= |sel|
    ensures sel[j - 1] < Bound(n, sel, j) <= n
    ensures forall k :: sel[j - 1] < k < Bound(n, sel, j) ==> k !in Positions(sel)
  {
    var t, s := Bound(n, sel, j), sel[j - 1];
    if j < |sel| { assert sel[j - 1] < sel[j]; }
    forall m | 0 <= m < |sel|
      ensures sel[m] <= s || t <= sel[m]
    {
      if m < j - 1 { assert sel[m] < sel[j - 1]; }
      else if j <= m && j < |sel| { assert m == j || sel[j] < sel[m]; }
    }
  }

  /** Removing position `s` of the kept state, when `s` is dropped and
      nothing between `s` and `t` is. */
  lemma RemoveAt<T>(xs: seq<T>, drop: set<nat>, s: nat, t: nat)
    requires s < t <= |xs| && s in drop
    requires forall k :: s < k < t ==> k !in drop
    ensures var cur := xs[..t] + KeepFrom(xs, drop, t);
      cur[..s] + cur[s + 1..] == xs[..s] + KeepFrom(xs, drop, s)
  {
    var rest := KeepFrom(xs, drop, t);
    KeepSpan(xs, drop, s + 1, t);
    KeepDropped(xs, drop, s);
    var cur := xs[..t] + rest;
    assert cur[..s] == xs[..s];
    SuffixOfConcat(xs[..t], rest, s + 1);
    assert xs[..t][s + 1..] == xs[s + 1..t];
  }

  /** One turn of the descending delete loop: removing `sel[j - 1]` from
      the state that has the positions `sel[j..]` removed gives the state
      that has `sel[j - 1..]` removed. */
  lemma DeleteStep<T>(xs: seq<T>, sel: seq<nat>, j: nat, cur: seq<T>)
    requires Ascending(sel) && forall i :: 0 <= i < |sel| ==> sel[i] < |xs|
    requires 0 < j <= |sel|
    requires cur == xs[..Bound(|xs|, sel, j)] + KeepFrom(xs, Positions(sel), Bound(|xs|, sel, j))
    ensures sel[j - 1] < |cur| && Bound(|xs|, sel, j - 1) == sel[j - 1]
    ensures cur[..sel[j - 1]] + cur[sel[j - 1] + 1..] ==
      xs[..Bound(|xs|, sel, j - 1)] + KeepFrom(xs, Positions(sel), Bound(|xs|, sel, j - 1))
  {
    var s, t, drop := sel[j - 1], Bound(|xs|, sel, j), Positions(sel);
    assert s < t <= |xs| && forall k :: s < k < t ==> k !in drop by {
      GapFree(|xs|, sel, j);
    }
    assert s in drop by {
      assert sel[j - 1] in sel;
    }
    RemoveAt(xs, drop, s, t);
  }

  lemma SuffixOfConcat<T>(a: seq<T>, b: seq<T>, i: nat)
    requires i <= |a|
    ensures (a + b)[i..] == a[i..] + b
  {
  }

  /** After the last turn the loop has computed the survivors. */
  lemma RemoveDone<T>(xs: seq<T>, sel: seq<nat>)
    requires Ascending(sel) && forall i :: 0 <= i < |sel| ==> sel[i] < |xs|
    ensures var t, drop := Bound(|xs|, sel, 0), Positions(sel);
      t <= |xs| && xs[..t] + KeepFrom(xs, drop, t) == Kept(xs, drop)
  {
    var t, drop := Bound(|xs|, sel, 0), Positions(sel);
    assert forall m :: 0 <= m < |sel| ==> t <= sel[m] by {
      forall m | 0 <= m < |sel|
        ensures t <= sel[m]
      {
        assert m == 0 || sel[0] < sel[m];
      }
    }
    KeepSpan(xs, drop, 0, t);
  }

  /** Deleting `|sel|` distinct positions leaves `|xs| - |sel|` elements. */
  lemma {:induction false} KeptCount<T>(xs: seq<T>, sel: seq<nat>, j: nat)
    requires Ascending(sel) && forall i :: 0 <= i < |sel| ==> sel[i] < |xs|
    requires j <= |sel|
    ensures Bound(|xs|, sel, j) <= |xs|
    ensures |KeepFrom(xs, Positions(sel), Bound(|xs|, sel, j))| ==
      |xs| - Bound(|xs|, sel, j) - (|sel| - j)
    decreases |sel| - j
  {
    var drop := Positions(sel);
    if j < |sel| {
      KeptCount(xs, sel, j + 1);
      GapFree(|xs|, sel, j + 1);
      var t := Bound(|xs|, sel, j + 1);
      KeepSpan(xs, drop, sel[j] + 1, t);
      assert sel[j] in sel;
      KeepDropped(xs, drop, sel[j]);
    }
  }

  // ---------------------------------------------------------------------
  // Pasting: the destination rows
  // ---------------------------------------------------------------------

  function Min(a: nat, b: nat): nat { if a <= b then a else b }

  function Max(a: nat, b: nat): nat { if a <= b then b else a }

  /** The paste destinations: the selection cut to the number of copied
      animations `n`, then continued with the rows right after its last
      row until there are `n` of them. */
  function Destinations(selected: seq<nat>, n: nat): (d: seq<nat>)
    requires |selected| >= 1
    ensures |d| == n
    ensures forall i :: 0 <= i < n && i < |selected| ==> d[i] == selected[i]
    ensures forall i :: |selected| <= i < n ==> d[i] == selected[|selected| - 1] + (i - |selected| + 1)
  {
    var kept := selected[..Min(n, |selected|)];
    var difference := n - |kept|;
    if difference != 0 then
      var last := kept[|kept| - 1];
      kept + seq(difference, k requires 0 <= k < difference => last + k + 1)
    else kept
  }

  /** Destination `j` is an existing row or the row right after
      destination `j - 1`. */
  predicate Continues(d: seq<nat>, count: nat, j: nat)
    requires j < |d|
  {
    d[j] < count || (j > 0 && d[j] == d[j - 1] + 1)
  }

  /** The destinations ascend, and each one is either an existing row or
      the row right after the previous destination; so the destinations
      past the end are `count`, `count + 1`, ... in turn. */
  lemma DestinationsRoute(selected: seq<nat>, n: nat, count: nat)
    requires |selected| >= 1 && Ascending(selected)
    requires forall i :: 0 <= i < |selected| ==> selected[i] < count
    ensures Ascending(Destinations(selected, n))
    ensures forall i :: 0 <= i < n ==> Continues(Destinations(selected, n), count, i)
  {
    var d := Destinations(selected, n);
    var m := |selected|;
    forall a, b | 0 <= a < b < n
      ensures d[a] < d[b]
    {
      if b < m {
      } else if a < m {
        assert a == m - 1 || selected[a] < selected[m - 1];
      }
    }
    forall i | 0 <= i < n
      ensures Continues(d, count, i)
    {
    }
  }

  /** How many animations there are after pasting to destinations `d`. */
  function PastedLength(count: nat, d: seq<nat>): nat
  {
    if d == [] then count else Max(count, d[|d| - 1] + 1)
  }

  /** What on_paste leaves at destination `dst` for copy `copy`: an
      existing animation gets the copy merged into it through the bone
      filter; past the end a new animation is loaded from the copy and
      renamed against the names the file had before. */
  ghost function PastedAt(a: seq<Animation>, copy: Animation, dst: nat, filters: set<string>,
                          names: set<string>, merge: (Animation, Animation, set<string>) -> Animation,
                          load: Animation -> Animation): Animation
  {
    if dst < |a| then merge(a[dst], copy, filters) else Fresh(load(copy), names)
  }

  /** The turn of the paste loop for destination `d[i]`: with the length
      reached so far, the destination is an existing row exactly when it
      was one before pasting, and otherwise it is the next row to append. */
  lemma PasteRoute(d: seq<nat>, count: nat, i: nat)
    requires Ascending(d) && i < |d|
    requires forall j :: 0 <= j < |d| ==> Continues(d, count, j)
    ensures d[i] < PastedLength(count, d[..i]) <==> d[i] < count
    ensures d[i] >= count ==> d[i] == PastedLength(count, d[..i])
    ensures PastedLength(count, d[..i + 1]) ==
      if d[i] < count then PastedLength(count, d[..i]) else PastedLength(count, d[..i]) + 1
  {
    assert Continues(d, count, i);
    if i > 0 {
      assert d[..i][i - 1] == d[i - 1] < d[i];
    }
  }

  // ---------------------------------------------------------------------
  // Searching nodes and channels
  // ---------------------------------------------------------------------

  /** The first position from `lo` on whose element satisfies `p`. */
  function First<T>(xs: seq<T>, p: T -> bool, lo: nat): (r: Option<nat>)
    ensures r.Some? ==> (lo <= r.value < |xs| && p(xs[r.value]) &&
                         forall j :: lo <= j < r.value ==> !p(xs[j]))
    ensures r.None? ==> forall j :: lo <= j < |xs| ==> !p(xs[j])
    decreases |xs| - lo
  {
    if lo >= |xs| then None
    else if p(xs[lo]) then Some(lo)
    else First(xs, p, lo + 1)
  }

  /** A position is the first match exactly when it matches and nothing
      before it does. */
  lemma {:induction false} FirstIs<T>(xs: seq<T>, p: T -> bool, lo: nat, i: nat)
    requires lo <= i < |xs| && p(xs[i])
    requires forall j :: lo <= j < i ==> !p(xs[j])
    ensures First(xs, p, lo) == Some(i)
    decreases i - lo
  {
    if lo < i {
      FirstIs(xs, p, lo + 1, i);
    }
  }

  /** Nothing matches from `lo` on exactly when First finds nothing. */
  lemma {:induction false} FirstNone<T>(xs: seq<T>, p: T -> bool, lo: nat)
    requires forall j :: lo <= j < |xs| ==> !p(xs[j])
    ensures First(xs, p, lo) == None
    decreases |xs| - lo
  {
    if lo < |xs| {
      FirstNone(xs, p, lo + 1);
    }
  }

  function OfBone(bone: int): Node -> bool
  {
    (n: Node) => n.boneIndex == bone
  }

  function OfFlag(flag: int): Channel -> bool
  {
    (c: Channel) => c.flag == flag
  }

  // ---------------------------------------------------------------------
  // transform, with offset_func / scale_func
  // ---------------------------------------------------------------------

  /** `offset_func` and `scale_func` (they are the same): add (x, y, z) to a
      keyframe, leaving w and the frame as they are. */
  function Shift(k: Keyframe, x: real, y: real, z: real): (r: Keyframe)
    ensures r.frame == k.frame && r.w == k.w
    ensures r.x - k.x == x && r.y - k.y == y && r.z - k.z == z
  {
    k.(x := k.x + x, y := k.y + y, z := k.z + z)
  }

  function ShiftAll(ks: seq<Keyframe>, x: real, y: real, z: real): (r: seq<Keyframe>)
    ensures |r| == |ks|
    ensures forall i :: 0 <= i < |ks| ==> r[i].frame == ks[i].frame && r[i].w == ks[i].w
  {
    seq(|ks|, i requires 0 <= i < |ks| => Shift(ks[i], x, y, z))
  }

  /** Two shifts make one by the sum; in particular a shift is undone by
      the opposite one. */
  lemma ShiftAllCompose(ks: seq<Keyframe>, x1: real, y1: real, z1: real, x2: real, y2: real, z2: real)
    ensures ShiftAll(ShiftAll(ks, x1, y1, z1), x2, y2, z2) == ShiftAll(ks, x1 + x2, y1 + y2, z1 + z2)
    ensures ShiftAll(ShiftAll(ks, x1, y1, z1), -x1, -y1, -z1) == ks
  {
  }

  /** The channel part of `transform` for the node found: shift every
      keyframe of the first channel with `flag`, or, when the node has
      none, append one with keyframes at frames 0 and `frameCount - 1`
      holding (w, x, y, z). */
  function TransformNode(n: Node, flag: int, frameCount: int, w: real, x: real, y: real, z: real): (r: Node)
    ensures r.boneIndex == n.boneIndex && r.boneName == n.boneName
  {
    match First(n.channels, OfFlag(flag), 0)
    case Some(j) =>
      n.(channels := n.channels[j := n.channels[j].(keyframes := ShiftAll(n.channels[j].keyframes, x, y, z))])
    case None =>
      n.(channels := n.channels + [Channel(flag, [Keyframe(0, w, x, y, z), Keyframe(frameCount - 1, w, x, y, z)])])
  }

  /** `transform` on one animation: only the first node of `bone` changes;
      an animation without such a node is left alone (and reported). */
  function Transformed(a: Animation, bone: int, flag: int, w: real, x: real, y: real, z: real): (r: Animation)
    ensures r.name == a.name && r.frameCount == a.frameCount && |r.nodes| == |a.nodes|
    ensures forall i :: 0 <= i < |a.nodes| && First(a.nodes, OfBone(bone), 0) != Some(i) ==>
      r.nodes[i] == a.nodes[i]
  {
    match First(a.nodes, OfBone(bone), 0)
    case Some(i) => a.(nodes := a.nodes[i := TransformNode(a.nodes[i], flag, a.frameCount, w, x, y, z)])
    case None => a
  }

  /** Updating the first match with another match keeps it the first. */
  lemma FirstAfterUpdate<T>(xs: seq<T>, p: T -> bool, i: nat, y: T)
    requires First(xs, p, 0) == Some(i) && p(y)
    ensures First(xs[i := y], p, 0) == Some(i)
  {
    FirstIs(xs[i := y], p, 0, i);
  }

  /** Appending the created channel gives a node whose first channel with
      the flag is that new one. */
  lemma FirstAfterAppend(cs: seq<Channel>, flag: int, c: Channel)
    requires First(cs, OfFlag(flag), 0).None? && c.flag == flag
    ensures First(cs + [c], OfFlag(flag), 0) == Some(|cs|)
  {
    FirstIs(cs + [c], OfFlag(flag), 0, |cs|);
  }

  /** Search-or-create: transforming twice is transforming once by the sum,
      because the second call finds the channel the first one changed or
      created, rather than creating another. */
  lemma TransformCompose(a: Animation, bone: int, flag: int, w: real,
                         x1: real, y1: real, z1: real, x2: real, y2: real, z2: real)
    ensures Transformed(Transformed(a, bone, flag, w, x1, y1, z1), bone, flag, w, x2, y2, z2) ==
            Transformed(a, bone, flag, w, x1 + x2, y1 + y2, z1 + z2)
  {
    match First(a.nodes, OfBone(bone), 0)
    case None =>
    case Some(i) =>
      var n := a.nodes[i];
      var n1 := TransformNode(n, flag, a.frameCount, w, x1, y1, z1);
      FirstAfterUpdate(a.nodes, OfBone(bone), i, n1);
      match First(n.channels, OfFlag(flag), 0)
      case Some(j) =>
        var c1 := n.channels[j].(keyframes := ShiftAll(n.channels[j].keyframes, x1, y1, z1));
        FirstAfterUpdate(n.channels, OfFlag(flag), j, c1);
        ShiftAllCompose(n.channels[j].keyframes, x1, y1, z1, x2, y2, z2);
        assert n1.channels[j := c1.(keyframes := ShiftAll(c1.keyframes, x2, y2, z2))] ==
               n.channels[j := n.channels[j].(keyframes := ShiftAll(n.channels[j].keyframes, x1 + x2, y1 + y2, z1 + z2))];
      case None =>
        var c1 := Channel(flag, [Keyframe(0, w, x1, y1, z1), Keyframe(a.frameCount - 1, w, x1, y1, z1)]);
        FirstAfterAppend(n.channels, flag, c1);
        var c2 := c1.(keyframes := ShiftAll(c1.keyframes, x2, y2, z2));
        assert c2 == Channel(flag, [Keyframe(0, w, x1 + x2, y1 + y2, z1 + z2),
                                    Keyframe(a.frameCount - 1, w, x1 + x2, y1 + y2, z1 + z2)]);
        assert n1.channels[|n.channels| := c2] == n.channels + [c2];
  }

  /** An offset applied to an existing channel is undone by the opposite one. */
  lemma TransformUndo(a: Animation, bone: int, flag: int, w: real, x: real, y: real, z: real)
    requires First(a.nodes, OfBone(bone), 0).Some?
    requires First(a.nodes[First(a.nodes, OfBone(bone), 0).value].channels, OfFlag(flag), 0).Some?
    ensures Transformed(Transformed(a, bone, flag, w, x, y, z), bone, flag, w, -x, -y, -z) == a
  {
    TransformCompose(a, bone, flag, w, x, y, z, -x, -y, -z);
    var i := First(a.nodes, OfBone(bone), 0).value;
    var j := First(a.nodes[i].channels, OfFlag(flag), 0).value;
    ShiftAllCompose(a.nodes[i].channels[j].keyframes, 0.0, 0.0, 0.0, 0.0, 0.0, 0.0);
    assert ShiftAll(a.nodes[i].channels[j].keyframes, 0.0, 0.0, 0.0) == a.nodes[i].channels[j].keyframes;
    assert a.nodes[i].channels[j := a.nodes[i].channels[j]] == a.nodes[i].channels;
    assert a.nodes[i := a.nodes[i]] == a.nodes;
  }

  // ---------------------------------------------------------------------
  // The target camera offset
  // ---------------------------------------------------------------------

  /** Every channel flagged as the target camera position is shifted. */
  function CameraChannels(cs: seq<Channel>, x: real, y: real, z: real): (r: seq<Channel>)
    ensures |r| == |cs|
    ensures forall j :: 0 <= j < |cs| ==> r[j].flag == cs[j].flag && |r[j].keyframes| == |cs[j].keyframes|
    ensures forall j :: 0 <= j < |cs| && cs[j].flag != TARGET_CAMERA_POSITION_FLAG ==> r[j] == cs[j]
  {
    seq(|cs|, j requires 0 <= j < |cs| =>
      if cs[j].flag == TARGET_CAMERA_POSITION_FLAG then cs[j].(keyframes := ShiftAll(cs[j].keyframes, x, y, z))
      else cs[j])
  }

  function CameraShift(a: Animation, x: real, y: real, z: real): (r: Animation)
    ensures r.name == a.name && r.frameCount == a.frameCount
  {
    a.(nodes := seq(|a.nodes|, i requires 0 <= i < |a.nodes| =>
      a.nodes[i].(channels := CameraChannels(a.nodes[i].channels, x, y, z))))
  }

  /** How many channels carry `flag`. */
  function FlagCount(cs: seq<Channel>, flag: int): nat
  {
    if cs == [] then 0
    else FlagCount(cs[..|cs| - 1], flag) + (if cs[|cs| - 1].flag == flag then 1 else 0)
  }

  /** How many channels of the nodes carry `flag`. */
  function NodesFlagCount(nodes: seq<Node>, flag: int): nat
  {
    if nodes == [] then 0
    else NodesFlagCount(nodes[..|nodes| - 1], flag) + FlagCount(nodes[|nodes| - 1].channels, flag)
  }

  /** The target camera flag has the orientation flag's value, so
      orientation channels are shifted too, and position and scale
      channels are not. */
  lemma CameraShiftsOrientation(a: Animation, x: real, y: real, z: real, i: nat, j: nat)
    requires i < |a.nodes| && j < |a.nodes[i].channels|
    ensures var c := a.nodes[i].channels[j];
      CameraShift(a, x, y, z).nodes[i].channels[j] ==
        if c.flag == ORIENTATION_FLAG then c.(keyframes := ShiftAll(c.keyframes, x, y, z)) else c
  {
  }

  /** Shifting the camera twice is shifting it once by the sum; the
      opposite offset restores the animation. */
  lemma CameraCompose(a: Animation, x1: real, y1: real, z1: real, x2: real, y2: real, z2: real)
    ensures CameraShift(CameraShift(a, x1, y1, z1), x2, y2, z2) == CameraShift(a, x1 + x2, y1 + y2, z1 + z2)
    ensures CameraShift(CameraShift(a, x1, y1, z1), -x1, -y1, -z1) == a
  {
    var b := CameraShift(a, x1, y1, z1);
    forall i | 0 <= i < |a.nodes|
      ensures CameraChannels(b.nodes[i].channels, x2, y2, z2) ==
              CameraChannels(a.nodes[i].channels, x1 + x2, y1 + y2, z1 + z2)
      ensures CameraChannels(b.nodes[i].channels, -x1, -y1, -z1) == a.nodes[i].channels
    {
      var cs := a.nodes[i].channels;
      forall j | 0 <= j < |cs|
        ensures CameraChannels(b.nodes[i].channels, x2, y2, z2)[j] == CameraChannels(cs, x1 + x2, y1 + y2, z1 + z2)[j]
        ensures CameraChannels(b.nodes[i].channels, -x1, -y1, -z1)[j] == cs[j]
      {
        ShiftAllCompose(cs[j].keyframes, x1, y1, z1, x2, y2, z2);
      }
    }
    assert CameraShift(b, -x1, -y1, -z1).nodes == a.nodes;
  }

  // ---------------------------------------------------------------------
  // Removing keyframes
  // ---------------------------------------------------------------------

  /** The keyframes outside the range [start, end), in order. */
  function Outside(ks: seq<Keyframe>, start: int, end: int): (r: seq<Keyframe>)
  {
    if ks == [] then []
    else
      var last := ks[|ks| - 1];
      Outside(ks[..|ks| - 1], start, end) + (if last.frame < start || last.frame >= end then [last] else [])
  }

  /** Exactly the keyframes outside the range are kept. */
  lemma {:induction false} OutsideMembers(ks: seq<Keyframe>, start: int, end: int)
    ensures forall k :: k in Outside(ks, start, end) <==> k in ks && (k.frame < start || k.frame >= end)
    ensures |Outside(ks, start, end)| <= |ks|
  {
    if ks != [] {
      OutsideMembers(ks[..|ks| - 1], start, end);
      assert ks == ks[..|ks| - 1] + [ks[|ks| - 1]];
    }
  }

  /** Outside, one keyframe at a time. */
  lemma OutsideSnoc(ks: seq<Keyframe>, k: Keyframe, start: int, end: int)
    ensures Outside(ks + [k], start, end) ==
      Outside(ks, start, end) + (if k.frame < start || k.frame >= end then [k] else [])
  {
    assert (ks + [k])[..|ks|] == ks;
  }

  /** Removing the range a second time removes nothing more. */
  lemma {:induction false} OutsideIdempotent(ks: seq<Keyframe>, start: int, end: int)
    ensures Outside(Outside(ks, start, end), start, end) == Outside(ks, start, end)
  {
    if ks != [] {
      var init, last := ks[..|ks| - 1], ks[|ks| - 1];
      OutsideIdempotent(init, start, end);
      OutsideSnoc(init, last, start, end);
      assert ks == init + [last];
      var r := Outside(init, start, end);
      if last.frame < start || last.frame >= end {
        OutsideSnoc(r, last, start, end);
        assert Outside(ks, start, end) == r + [last];
      } else {
        assert Outside(ks, start, end) == r;
      }
    }
  }

  /** `not frame_count or (start_frame == 0 and end_frame == frame_count)`:
      the selected channels are dropped whole. No frame count (several
      animations selected) and a frame count of 0 both count as missing. */
  predicate DropsWhole(frameCount: Option<int>, start: int, end: int)
  {
    frameCount.None? || frameCount.value == 0 || (start == 0 && end == frameCount.value)
  }

  /** The channels of one node after removal: channels whose flag is not
      chosen stay as they are; chosen ones are dropped when `whole`, and
      otherwise keep only their keyframes outside the range. */
  function StripChannels(cs: seq<Channel>, flags: set<int>, whole: bool, start: int, end: int): (r: seq<Channel>)
    ensures forall c :: c in cs && c.flag !in flags ==> c in r
    ensures forall c :: c in r && c.flag in flags ==>
      !whole && forall k :: k in c.keyframes ==> k.frame < start || k.frame >= end
    ensures forall c :: c in r && c.flag !in flags ==> c in cs
  {
    if cs == [] then []
    else
      var rest := StripChannels(cs[..|cs| - 1], flags, whole, start, end);
      var c := cs[|cs| - 1];
      assert cs == cs[..|cs| - 1] + [c];
      if c.flag !in flags then rest + [c]
      else if whole then rest
      else
        OutsideMembers(c.keyframes, start, end);
        rest + [c.(keyframes := Outside(c.keyframes, start, end))]
  }

  /** How many channels carry a flag in `flags`. */
  function FlaggedCount(cs: seq<Channel>, flags: set<int>): nat
  {
    if cs == [] then 0
    else FlaggedCount(cs[..|cs| - 1], flags) + (if cs[|cs| - 1].flag in flags then 1 else 0)
  }

  /** The counter of removed channels accounts for every channel that is
      gone; in range mode no channel is dropped. */
  lemma {:induction false} StripCount(cs: seq<Channel>, flags: set<int>, whole: bool, start: int, end: int)
    ensures |StripChannels(cs, flags, whole, start, end)| + (if whole then FlaggedCount(cs, flags) else 0) == |cs|
  {
    if cs != [] {
      StripCount(cs[..|cs| - 1], flags, whole, start, end);
    }
  }

  /** Removing the same keyframes again changes nothing. */
  lemma {:induction false} StripIdempotent(cs: seq<Channel>, flags: set<int>, whole: bool, start: int, end: int)
    ensures StripChannels(StripChannels(cs, flags, whole, start, end), flags, whole, start, end) ==
            StripChannels(cs, flags, whole, start, end)
  {
    if cs != [] {
      var init, c := cs[..|cs| - 1], cs[|cs| - 1];
      var rest := StripChannels(init, flags, whole, start, end);
      StripIdempotent(init, flags, whole, start, end);
      if c.flag !in flags {
        assert (rest + [c])[..|rest + [c]| - 1] == rest;
      } else if !whole {
        var c1 := c.(keyframes := Outside(c.keyframes, start, end));
        assert (rest + [c1])[..|rest + [c1]| - 1] == rest;
        OutsideIdempotent(c.keyframes, start, end);
      }
    }
  }

  /** Nodes whose bone is not in the filter are left alone. */
  function StripNode(n: Node, filters: seq<int>, flags: set<int>, whole: bool, start: int, end: int): (r: Node)
    ensures r.boneIndex == n.boneIndex && r.boneName == n.boneName
    ensures forall c :: c in n.channels && c.flag !in flags ==> c in r.channels
  {
    if n.boneIndex !in filters then n
    else n.(channels := StripChannels(n.channels, flags, whole, start, end))
  }

  function Stripped(a: Animation, filters: seq<int>, flags: set<int>, whole: bool, start: int, end: int): (r: Animation)
    ensures r.name == a.name && r.frameCount == a.frameCount
  {
    a.(nodes := seq(|a.nodes|, i requires 0 <= i < |a.nodes| => StripNode(a.nodes[i], filters, flags, whole, start, end)))
  }

  /** How many channels the counter counts for one animation. */
  function StripRemoved(nodes: seq<Node>, filters: seq<int>, flags: set<int>, whole: bool): nat
  {
    if nodes == [] || !whole then 0
    else
      var n := nodes[|nodes| - 1];
      StripRemoved(nodes[..|nodes| - 1], filters, flags, whole) +
        (if n.boneIndex in filters then FlaggedCount(n.channels, flags) else 0)
  }

  /** Removal over a whole animation is idempotent too. */
  lemma StrippedIdempotent(a: Animation, filters: seq<int>, flags: set<int>, whole: bool, start: int, end: int)
    ensures Stripped(Stripped(a, filters, flags, whole, start, end), filters, flags, whole, start, end) ==
            Stripped(a, filters, flags, whole, start, end)
  {
    forall i | 0 <= i < |a.nodes|
      ensures StripNode(StripNode(a.nodes[i], filters, flags, whole, start, end), filters, flags, whole, start, end) ==
              StripNode(a.nodes[i], filters, flags, whole, start, end)
    {
      StripIdempotent(a.nodes[i].channels, flags, whole, start, end);
    }
  }

  // ---------------------------------------------------------------------
  // Mirroring
  // ---------------------------------------------------------------------

  function SwapSide(part: string): string
  {
    if part == "R" then "L" else if part == "L" then "R" else part
  }

  /** A name with a '_' splits into at least two parts. */
  lemma SplitTwo(name: string)
    requires '_' in name
    ensures |Split(name, '_')| >= 2
  {
  }

  /** The renaming step of on_mirror_anim: the second '_'-separated part
      of the name flips between "L" and "R"; any other name is kept. */
  function SwapLR(name: string): (r: string)
    requires '_' in name
    ensures '_' in r
  {
    SplitTwo(name);
    var parts := Split(name, '_');
    if parts[1] == "R" || parts[1] == "L" then
      var swapped := parts[1 := SwapSide(parts[1])];
      assert Join(swapped, '_') == swapped[0] + ['_'] + Join(swapped[1..], '_');
      assert Join(swapped, '_')[|swapped[0]|] == '_';
      Join(swapped, '_')
    else name
  }

  /** Only the second part changes: splitting the new name gives the old
      parts with the second one flipped. */
  lemma SwapParts(name: string)
    requires '_' in name
    ensures |Split(name, '_')| >= 2
    ensures Split(SwapLR(name), '_') == Split(name, '_')[1 := SwapSide(Split(name, '_')[1])]
  {
    SplitTwo(name);
    var parts := Split(name, '_');
    if parts[1] == "R" || parts[1] == "L" {
      var swapped := parts[1 := SwapSide(parts[1])];
      assert forall i :: 0 <= i < |swapped| ==> '_' !in swapped[i];
      SplitJoin(swapped, '_');
    } else {
      assert parts[1 := SwapSide(parts[1])] == parts;
    }
  }

  /** Swapping twice gives the name back. */
  lemma SwapTwice(name: string)
    requires '_' in name
    ensures SwapLR(SwapLR(name)) == name
  {
    SwapParts(name);
    var parts := Split(name, '_');
    var once := SwapLR(name);
    SwapParts(once);
    if parts[1] == "R" || parts[1] == "L" {
      assert Split(once, '_')[1 := SwapSide(Split(once, '_')[1])] == parts;
      JoinSplit(name, '_');
    }
  }

  function SwapNode(n: Node): Node
    requires '_' in n.boneName
  {
    n.(boneName := SwapLR(n.boneName))
  }

  predicate Splittable(nodes: seq<Node>)
  {
    forall i :: 0 <= i < |nodes| ==> '_' in nodes[i].boneName
  }

  function SwapNodes(nodes: seq<Node>): (r: seq<Node>)
    requires Splittable(nodes)
    ensures |r| == |nodes|
    ensures forall i :: 0 <= i < |nodes| ==>
      r[i].boneIndex == nodes[i].boneIndex && r[i].channels == nodes[i].channels && '_' in r[i].boneName
  {
    seq(|nodes|, i requires 0 <= i < |nodes| => SwapNode(nodes[i]))
  }

  /** `node.bone_index == -1` once the node carries its new name: the
      skeleton has no bone of that name. `boneIndexOf` is the skeleton's
      name lookup. */
  function Unresolved(boneIndexOf: string -> int): Node -> bool
  {
    (n: Node) => '_' in n.boneName && boneIndexOf(SwapLR(n.boneName)) == -1
  }

  /** The arithmetic step: position keyframes get x negated, orientation
      keyframes y and z; other channels are kept. */
  function MirrorKey(k: Keyframe, flag: int): (r: Keyframe)
    ensures r.frame == k.frame && r.w == k.w
  {
    if flag == POSITION_FLAG then k.(x := k.x * -1.0)
    else if flag == ORIENTATION_FLAG then k.(y := k.y * -1.0, z := k.z * -1.0)
    else k
  }

  function MirrorChannel(c: Channel): Channel
  {
    c.(keyframes := seq(|c.keyframes|, i requires 0 <= i < |c.keyframes| => MirrorKey(c.keyframes[i], c.flag)))
  }

  /** b_C_Base is skipped when the user excludes it. */
  function MirrorNode(n: Node, excludeBase: bool): (r: Node)
    ensures r.boneIndex == n.boneIndex && r.boneName == n.boneName && |r.channels| == |n.channels|
    ensures forall j :: 0 <= j < |n.channels| ==>
      r.channels[j].flag == n.channels[j].flag && |r.channels[j].keyframes| == |n.channels[j].keyframes|
  {
    if excludeBase && n.boneName == "b_C_Base" then n
    else n.(channels := seq(|n.channels|, j requires 0 <= j < |n.channels| => MirrorChannel(n.channels[j])))
  }

  function MirrorNodes(nodes: seq<Node>, excludeBase: bool): seq<Node>
  {
    seq(|nodes|, i requires 0 <= i < |nodes| => MirrorNode(nodes[i], excludeBase))
  }

  /** The arithmetic is its own inverse. */
  lemma MirrorTwice(nodes: seq<Node>, excludeBase: bool)
    ensures MirrorNodes(MirrorNodes(nodes, excludeBase), excludeBase) == nodes
  {
    forall i | 0 <= i < |nodes|
      ensures MirrorNode(MirrorNode(nodes[i], excludeBase), excludeBase) == nodes[i]
    {
      var n := nodes[i];
      if !(excludeBase && n.boneName == "b_C_Base") {
        forall j | 0 <= j < |n.channels|
          ensures MirrorChannel(MirrorChannel(n.channels[j])) == n.channels[j]
        {
          var c := n.channels[j];
          forall t | 0 <= t < |c.keyframes|
            ensures MirrorKey(MirrorKey(c.keyframes[t], c.flag), c.flag) == c.keyframes[t]
          {
          }
        }
      }
    }
  }

  // ---------------------------------------------------------------------
  // Reversing
  // ---------------------------------------------------------------------

  /** on_reverse_anim on one channel: the keyframes in reverse order, each
      at frame `last - frame`, where `last` is the old last frame. */
  function Reversed(ks: seq<Keyframe>): (r: seq<Keyframe>)
    requires |ks| >= 1
    ensures |r| == |ks| && r[0].frame == 0
  {
    var last := ks[|ks| - 1].frame;
    seq(|ks|, i requires 0 <= i < |ks| => ks[|ks| - 1 - i].(frame := last - ks[|ks| - 1 - i].frame))
  }

  /** The count is kept, the new first frame is 0 and the new last frame
      is `last - first`; the values travel with their keyframes. */
  lemma ReversedShape(ks: seq<Keyframe>)
    requires |ks| >= 1
    ensures |Reversed(ks)| == |ks|
    ensures Reversed(ks)[0].frame == 0
    ensures Reversed(ks)[|ks| - 1].frame == ks[|ks| - 1].frame - ks[0].frame
    ensures forall i :: 0 <= i < |ks| ==>
      var k, o := Reversed(ks)[i], ks[|ks| - 1 - i];
      k.w == o.w && k.x == o.x && k.y == o.y && k.z == o.z
  {
  }

  predicate FramesAscending(ks: seq<Keyframe>)
  {
    forall a, b :: 0 <= a < b < |ks| ==> ks[a].frame < ks[b].frame
  }

  /** Keyframes in frame order stay in frame order. */
  lemma ReversedAscending(ks: seq<Keyframe>)
    requires |ks| >= 1 && FramesAscending(ks)
    ensures FramesAscending(Reversed(ks))
  {
    var r := Reversed(ks);
    forall a, b | 0 <= a < b < |ks|
      ensures r[a].frame < r[b].frame
    {
      assert ks[|ks| - 1 - b].frame < ks[|ks| - 1 - a].frame;
    }
  }

  /** Reversing twice gives the channel back when its first frame is 0. */
  lemma ReversedTwice(ks: seq<Keyframe>)
    requires |ks| >= 1 && ks[0].frame == 0
    ensures Reversed(Reversed(ks)) == ks
  {
    var r := Reversed(ks);
    assert r[|ks| - 1].frame == ks[|ks| - 1].frame;
    forall i | 0 <= i < |ks|
      ensures Reversed(r)[i] == ks[i]
    {
    }
  }

  /** Every channel of the nodes has a keyframe to take `last` from. */
  predicate Reversible(nodes: seq<Node>)
  {
    forall i, j :: 0 <= i < |nodes| && 0 <= j < |nodes[i].channels| ==> |nodes[i].channels[j].keyframes| >= 1
  }

  function ReversedNodes(nodes: seq<Node>): (r: seq<Node>)
    requires Reversible(nodes)
    ensures |r| == |nodes| && Reversible(r)
    ensures forall i :: 0 <= i < |nodes| ==>
      r[i].boneIndex == nodes[i].boneIndex && r[i].boneName == nodes[i].boneName &&
      |r[i].channels| == |nodes[i].channels|
  {
    seq(|nodes|, i requires 0 <= i < |nodes| =>
      nodes[i].(channels := seq(|nodes[i].channels|, j requires 0 <= j < |nodes[i].channels| =>
        nodes[i].channels[j].(keyframes := Reversed(nodes[i].channels[j].keyframes)))))
  }
}
