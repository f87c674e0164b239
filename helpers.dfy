/** The shared helpers of the editor: the channel flag constants, the
    unique-name rule used when animations and bones are pasted, the
    enable/disable rule of the context menus, and the commit step of
    single and bulk renaming. */
module Helpers {
  import opened PyStr
  import opened Ean
  import opened TreeList

  const POSITION_FLAG: int := 1792
  const ORIENTATION_FLAG: int := 1793
  const SCALE_FLAG: int := 1794
  /** Declared separately in the source, but with the orientation value. */
  const TARGET_CAMERA_POSITION_FLAG: int := 1793

  // ---------------------------------------------------------------------
  // Unique names
  // ---------------------------------------------------------------------

  /** The text before the last '.', or the whole name when it has none. */
  function Prefix(name: string): string
  {
    RSplitDot(name)[0]
  }

  /** The number the first renaming step writes after the prefix: one more
      than a numeric suffix, otherwise 0. */
  function FirstSuffix(name: string): int
  {
    var parts := RSplitDot(name);
    if |parts| == 1 then 0
    else match ParseInt(parts[1])
      case Some(n) => n + 1
      case None => 0
  }

  /** The suffix the loop writes for number k: `'{0:03d}'.format(k)`. */
  function SuffixText(k: int): string
  {
    Format03(k)
  }

  /** The k-th name the renaming loop can try for `name`. */
  function Candidate(name: string, k: int): (r: string)
    ensures Prefix(name) + "." <= r && |r| >= |Prefix(name)| + 4
  {
    Prefix(name) + "." + SuffixText(k)
  }

  /** A candidate splits back into the prefix and the written number, so
      the next pass continues from that number. */
  lemma CandidateShape(name: string, k: int)
    ensures RSplitDot(Candidate(name, k)) == [Prefix(name), Format03(k)]
    ensures Prefix(Candidate(name, k)) == Prefix(name)
    ensures FirstSuffix(Candidate(name, k)) == k + 1
  {
    RSplitDotOf(Prefix(name), Format03(k));
    ParseFormat03(k);
  }

  /** No candidate from the first one on is the name it was derived from. */
  lemma CandidateDiffers(name: string, k: int)
    requires k >= FirstSuffix(name)
    ensures Candidate(name, k) != name
  {
    var parts := RSplitDot(name);
    CandidateShape(name, k);
    if |parts| == 1 {
      assert |Candidate(name, k)| > |name|;
    } else {
      ParseFormat03(k);
      assert ParseInt(parts[1]) != ParseInt(Format03(k));
      assert RSplitDot(name) != RSplitDot(Candidate(name, k));
    }
  }

  /** The name the renaming loop holds after `k` passes counted from
      FirstSuffix: the name itself before the first pass, then the
      candidates in turn. */
  function Attempt(base: string, k: int): string
  {
    if k < FirstSuffix(base) then base else Candidate(base, k)
  }

  /** One pass of the renaming loop: append ".000" to a name without '.',
      bump a numeric suffix, replace any other suffix by ".000". Started on
      any name it writes that name's first candidate; started on a
      candidate of `base` it writes the next candidate of `base`. */
  method RenamePass(name: string, ghost base: string, ghost k: int) returns (r: string)
    requires k >= FirstSuffix(base) - 1 && name == Attempt(base, k)
    ensures r == Candidate(base, k + 1)
  {
    var parts := RSplitDot(name);
    if |parts| == 1 {
      r := parts[0] + ".000";
    } else {
      match ParseInt(parts[1])
      case Some(n) =>
        r := parts[0] + "." + Format03(n + 1);
      case None =>
        r := parts[0] + ".000";
    }
    PassWritesCandidate(name, r);
    if k >= FirstSuffix(base) {
      CandidateShape(base, k);
    }
  }

  /** What RenamePass computes, stated through Candidate. */
  lemma PassWritesCandidate(name: string, r: string)
    requires
      var parts := RSplitDot(name);
      r == if |parts| == 1 then parts[0] + ".000"
           else match ParseInt(parts[1])
             case Some(n) => parts[0] + "." + Format03(n + 1)
             case None => parts[0] + ".000"
    ensures r == Candidate(name, FirstSuffix(name))
  {
    assert ".000" == "." + Format03(0);
  }

  /** The suffix number of `n` when `n` is a candidate of `name`. */
  function SuffixNumber(name: string, n: string): Option<int>
  {
    var parts := RSplitDot(n);
    if |parts| == 2 && parts[0] == Prefix(name) then ParseInt(parts[1]) else None
  }

  /** Above every suffix number that a name in `names` carries for `name`:
      the renaming loop never has to go past it. */
  ghost function Ceiling(name: string, names: set<string>): (c: int)
    ensures c >= FirstSuffix(name)
    ensures forall n, j :: n in names && SuffixNumber(name, n) == Some(j) ==> j < c
    decreases names
  {
    if names == {} then FirstSuffix(name)
    else
      var n :| n in names;
      var rest := Ceiling(name, names - {n});
      match SuffixNumber(name, n)
      case Some(j) => if j + 1 > rest then j + 1 else rest
      case None => rest
  }

  /** `get_unique_name`: while the name is taken, rename it one step. The
      result is free, equals the input when the input was free, and is
      otherwise the first free candidate. */
  method GetUniqueName(name: string, names: set<string>) returns (r: string)
    ensures r !in names
    ensures name !in names ==> r == name
    ensures name in names ==>
      exists k :: FirstSuffix(name) <= k && r == Candidate(name, k) &&
        forall j :: FirstSuffix(name) <= j < k ==> Candidate(name, j) in names
    ensures Prefix(r) == Prefix(name)
    ensures r == UniqueName(name, names)
  {
    ghost var first := FirstSuffix(name);
    ghost var bound := Ceiling(name, names);
    ghost var k := first - 1;
    ghost var tried: seq<string> := [];
    r := name;
    while r in names
      invariant first - 1 <= k
      invariant r == Attempt(name, k)
      invariant k >= first ==> name in names
      invariant tried == Candidates(name, first, k)
      invariant forall t :: t in tried ==> t in names
      decreases bound - k
    {
      if k >= first {
        CandidateTaken(name, names, k);
        tried := tried + [r];
      }
      r := RenamePass(r, name, k);
      k := k + 1;
    }
    Settled(name, names, k, r, tried);
  }

  /** Where the loop of `get_unique_name` stops, the name it holds is the
      one GetUniqueName promises. */
  lemma Settled(name: string, names: set<string>, k: int, r: string, tried: seq<string>)
    requires FirstSuffix(name) - 1 <= k && r == Attempt(name, k) && r !in names
    requires k >= FirstSuffix(name) ==> name in names
    requires tried == Candidates(name, FirstSuffix(name), k)
    requires forall t :: t in tried ==> t in names
    ensures name !in names ==> r == name
    ensures name in names ==>
      exists m :: FirstSuffix(name) <= m && r == Candidate(name, m) &&
        forall j :: FirstSuffix(name) <= j < m ==> Candidate(name, j) in names
    ensures Prefix(r) == Prefix(name)
    ensures r == UniqueName(name, names)
  {
    var first := FirstSuffix(name);
    if name in names {
      assert k >= first && r == Candidate(name, k);
      forall j | first <= j < k
        ensures Candidate(name, j) in names
      {
        CandidatesContain(name, first, k, j);
      }
    }
    if k >= first {
      CandidateShape(name, k);
    }
    if name in names {
      FreeFromFirst(name, names, first, k);
    }
  }

  /** The first candidate of `name` from number `k` on that is not taken. */
  ghost function FreeFrom(name: string, names: set<string>, k: int): (r: string)
    requires k >= FirstSuffix(name)
    ensures r !in names && Prefix(r) == Prefix(name)
    decreases Ceiling(name, names) - k
  {
    CandidateShape(name, k);
    if Candidate(name, k) !in names then Candidate(name, k)
    else
      CandidateTaken(name, names, k);
      FreeFrom(name, names, k + 1)
  }

  /** The name get_unique_name settles on. */
  ghost function UniqueName(name: string, names: set<string>): (r: string)
    ensures r !in names && Prefix(r) == Prefix(name)
    ensures name !in names ==> r == name
  {
    if name !in names then name else FreeFrom(name, names, FirstSuffix(name))
  }

  /** A free candidate reached past taken ones is the first free one. */
  lemma {:induction false} FreeFromFirst(name: string, names: set<string>, j: int, k: int)
    requires FirstSuffix(name) <= j <= k
    requires forall i :: j <= i < k ==> Candidate(name, i) in names
    requires Candidate(name, k) !in names
    ensures FreeFrom(name, names, j) == Candidate(name, k)
    decreases k - j
  {
    if j < k {
      CandidateTaken(name, names, j);
      FreeFromFirst(name, names, j + 1, k);
    }
  }

  /** The candidates the loop has tried, from number `first` up to `k` exclusive. */
  function Candidates(name: string, first: int, k: int): (cs: seq<string>)
    decreases k - first
  {
    if k <= first then [] else Candidates(name, first, k - 1) + [Candidate(name, k - 1)]
  }

  lemma {:induction false} CandidatesContain(name: string, first: int, k: int, j: int)
    requires first <= j < k
    ensures Candidate(name, j) in Candidates(name, first, k)
    decreases k - first
  {
    if j < k - 1 {
      CandidatesContain(name, first, k - 1, j);
    }
  }

  /** Before each pass of the loop in GetUniqueName: a taken candidate
      lies below the ceiling, and the pass moves on to the next candidate. */
  lemma CandidateTaken(name: string, names: set<string>, k: int)
    requires k >= FirstSuffix(name) && Candidate(name, k) in names
    ensures k < Ceiling(name, names)
  {
    CandidateShape(name, k);
    ParseFormat03(k);
    assert SuffixNumber(name, Candidate(name, k)) == Some(k);
  }

  // ---------------------------------------------------------------------
  // Bone tree
  // ---------------------------------------------------------------------

  /** The text of a bone's item: `"{}: {}".format(index, name)`. */
  function Label(i: nat, name: string): (r: string)
    ensures |r| >= |name| + 3
  {
    NatToStringDigits(i);
    NatToString(i) + ": " + name
  }

  /** The row text reads back: digits giving the index, then ": ", then
      the name. */
  lemma LabelReadBack(i: nat, name: string)
    ensures var r := Label(i, name); var d := |r| - |name| - 2;
      0 < d && r[d + 2..] == name && r[d..d + 2] == ": " &&
      AllDigits(r[..d]) && DigitsValue(r[..d]) == i
  {
    NatToStringValue(i);
    var s, r := NatToString(i), Label(i, name);
    assert r == s + ": " + name;
    assert r[..|s|] == s;
  }

  /** What the control and the list of created items look like while
      build_bone_tree runs. */
  datatype BuildState = BuildState(items: seq<Item>, handles: seq<Path>)

  /** One pass of build_bone_tree's loop: bone `i` (the number of items made
      so far) goes under the root when it is the first bone, otherwise under
      the item made for its parent_index; a parent_index that does not name
      an item made already raises IndexError (None). */
  function AppendBone(st: BuildState, bone: Bone): (r: Option<BuildState>)
    ensures r.Some? <==> |st.handles| == 0 || bone.parentIndex < |st.handles|
    ensures r.Some? ==> |r.value.handles| == |st.handles| + 1
  {
    var i := |st.handles|;
    if i > 0 && bone.parentIndex >= i then None
    else
      var q := if i == 0 then [] else st.handles[bone.parentIndex];
      var m := |KidsF(st.items, q)|;
      var item := Item(bone, Label(i, bone.name), Unchecked, false, []);
      Some(BuildState(Graft(st.items, q, [item]), st.handles + [q + [m]]))
  }

  /** The loop of build_bone_tree over `bones`, from state `st`. */
  function BuildFrom(bones: seq<Bone>, st: BuildState): (r: Option<BuildState>)
    ensures r.Some? ==> |r.value.handles| == |st.handles| + |bones|
    decreases |bones|
  {
    if bones == [] then Some(st)
    else match AppendBone(st, bones[0])
      case None => None
      case Some(next) => BuildFrom(bones[1..], next)
  }

  /** Running the loop over `xs + ys` runs it over `xs`, then over `ys`. */
  lemma {:induction false} BuildFromConcat(xs: seq<Bone>, ys: seq<Bone>, st: BuildState)
    ensures BuildFrom(xs + ys, st) ==
      match BuildFrom(xs, st)
      case None => None
      case Some(mid) => BuildFrom(ys, mid)
    decreases |xs|
  {
    if xs == [] {
      assert xs + ys == ys;
    } else {
      assert (xs + ys)[0] == xs[0] && (xs + ys)[1..] == xs[1..] + ys;
      match AppendBone(st, xs[0])
      case None =>
      case Some(next) => BuildFromConcat(xs[1..], ys, next);
    }
  }

  /** `build_bone_tree`: empty the control, append an item per bone under
      the item of its parent, then check every item. None when a bone names
      a parent that has no item yet. */
  method BuildBoneTree(bones: seq<Bone>) returns (r: Option<Control>)
    ensures r.Some? <==> BuildFrom(bones, BuildState([], [])).Some?
    ensures r.Some? ==> r.value == Control(Checked, CheckAllFrom(BuildFrom(bones, BuildState([], [])).value.items))
  {
    var items: seq<Item> := [];
    var handles: seq<Path> := [];
    var i := 0;
    while i < |bones|
      invariant 0 <= i <= |bones| && |handles| == i
      invariant BuildFrom(bones, BuildState([], [])) == BuildFrom(bones[i..], BuildState(items, handles))
    {
      assert bones[i..][0] == bones[i] && bones[i..][1..] == bones[i + 1..];
      var bone := bones[i];
      var parent: Path;
      if i == 0 {
        parent := [];
      } else if bone.parentIndex < |handles| {
        parent := handles[bone.parentIndex];
      } else {
        return None;
      }
      var item := Item(bone, Label(i, bone.name), Unchecked, false, []);
      var m := |KidsF(items, parent)|;
      items := Graft(items, parent, [item]);
      handles := handles + [parent + [m]];
      i := i + 1;
    }
    assert bones[i..] == [];
    r := Some(Control(Checked, CheckAllFrom(items)));
  }

  /** Every present child and sibling link points further down a list and
      inside it: what get_bone_tree needs to stop. */
  predicate ForwardLinks(bones: seq<Bone>)
  {
    forall k :: 0 <= k < |bones| ==>
      (bones[k].childIndex != NONE ==> k < bones[k].childIndex < |bones|) &&
      (bones[k].siblingIndex != NONE ==> k < bones[k].siblingIndex < |bones|)
  }

  /** `get_bone_tree(bones[i])`: the bone, then what its first child's call
      lists, then what its next sibling's call lists. */
  function GetBoneTree(bones: seq<Bone>, i: nat): (r: seq<Bone>)
    requires ForwardLinks(bones) && i < |bones|
    ensures |r| >= 1 && r[0] == bones[i]
    decreases |bones| - i
  {
    var bone := bones[i];
    [bone]
    + (if bone.childIndex != NONE then GetBoneTree(bones, bone.childIndex) else [])
    + (if bone.siblingIndex != NONE then GetBoneTree(bones, bone.siblingIndex) else [])
  }

  /** On a forward-linked list the last bone has neither child nor sibling,
      so the walk from it lists that bone alone. */
  lemma ForwardLinksLast(bones: seq<Bone>)
    requires ForwardLinks(bones) && |bones| > 0
    ensures bones[|bones| - 1].childIndex == NONE && bones[|bones| - 1].siblingIndex == NONE
    ensures GetBoneTree(bones, |bones| - 1) == [bones[|bones| - 1]]
  {
  }

  /** The walk from bone `i` only lists bones from index `i` on. */
  lemma {:induction false} GetBoneTreeFrom(bones: seq<Bone>, i: nat)
    requires ForwardLinks(bones) && i < |bones|
    ensures forall x :: x in GetBoneTree(bones, i) ==> x in bones[i..]
    decreases |bones| - i
  {
    var bone := bones[i];
    var kids := if bone.childIndex != NONE then GetBoneTree(bones, bone.childIndex) else [];
    var sibs := if bone.siblingIndex != NONE then GetBoneTree(bones, bone.siblingIndex) else [];
    assert GetBoneTree(bones, i) == [bone] + kids + sibs;
    forall x | x in kids + sibs
      ensures x in bones[i..]
    {
      var n := if x in kids then bone.childIndex else bone.siblingIndex;
      GetBoneTreeFrom(bones, n);
      var k :| n <= k < |bones| && bones[k] == x;
      assert bones[i..][k - i] == x;
    }
  }

  // ---------------------------------------------------------------------
  // Menu enabling
  // ---------------------------------------------------------------------

  /** `enable_selected`: the menu item's enabled state after the rule runs.
      It only ever disables: when nothing is selected, or when the action
      takes a single item and several are selected. */
  function EnableSelected(enabled: bool, selectedCount: nat, single: bool): (r: bool)
    ensures r ==> enabled
    ensures !r <==> !enabled || selectedCount == 0 || (single && selectedCount > 1)
  {
    var afterEmpty := if selectedCount == 0 then false else enabled;
    if single && selectedCount > 1 then false else afterEmpty
  }

  /** `enable_copy_animation` / `enable_copy_bones`: as EnableSelected, but
      disabled outright while the clipboard is empty. */
  function EnableCopy(enabled: bool, hasClipboard: bool, selectedCount: nat, single: bool): (r: bool)
    ensures r <==> hasClipboard && EnableSelected(enabled, selectedCount, single)
    ensures r ==> enabled && selectedCount > 0
  {
    if !hasClipboard then false else EnableSelected(enabled, selectedCount, single)
  }

  // ---------------------------------------------------------------------
  // Renaming
  // ---------------------------------------------------------------------

  /** One call of the panel's `rename_func(item, obj, old_name, new_name)`. */
  datatype RenameCall<S> = RenameCall(item: S, oldName: string, newName: string)

  /** The callbacks the bulk commit makes, in list order: one for every
      object whose substituted name is free. */
  function BulkRenameCalls<S>(objNames: seq<string>, names: set<string>, selected: seq<S>,
                              subst: string -> string): seq<RenameCall<S>>
    requires |selected| == |objNames|
  {
    if objNames == [] then []
    else
      var rest := BulkRenameCalls(objNames[1..], names, selected[1..], subst);
      var n := subst(objNames[0]);
      if n in names then rest
      else [RenameCall(selected[0], objNames[0], n)] + rest
  }

  /** The bulk commit calls back at most once per object, only for
      selected objects, and only with a name that was free. */
  lemma {:induction false} BulkCallsFree<S>(objNames: seq<string>, names: set<string>, selected: seq<S>,
                                            subst: string -> string)
    requires |selected| == |objNames|
    ensures var calls := BulkRenameCalls(objNames, names, selected, subst);
      |calls| <= |objNames| && forall c :: c in calls ==> c.newName !in names && c.item in selected
    decreases |objNames|
  {
    if objNames != [] {
      BulkCallsFree(objNames[1..], names, selected[1..], subst);
      assert forall x :: x in selected[1..] ==> x in selected;
    }
  }

  /** The commit loop of `show_multi_rename_dialog`: every object takes its
      substituted name unless that name is already in `names` (which is not
      updated as the loop goes), and the panel is called back for each
      object renamed. */
  method CommitBulkRename<S>(objNames: seq<string>, names: set<string>, selected: seq<S>,
                             subst: string -> string)
    returns (newNames: seq<string>, calls: seq<RenameCall<S>>)
    requires |selected| == |objNames|
    ensures |newNames| == |objNames|
    ensures forall i :: 0 <= i < |objNames| ==>
      newNames[i] == if subst(objNames[i]) in names then objNames[i] else subst(objNames[i])
    ensures calls == BulkRenameCalls(objNames, names, selected, subst)
  {
    newNames := [];
    calls := [];
    var i := 0;
    while i < |objNames|
      invariant 0 <= i <= |objNames|
      invariant |newNames| == i
      invariant forall j :: 0 <= j < i ==>
        newNames[j] == if subst(objNames[j]) in names then objNames[j] else subst(objNames[j])
      invariant calls + BulkRenameCalls(objNames[i..], names, selected[i..], subst)
                == BulkRenameCalls(objNames, names, selected, subst)
    {
      BulkStep(objNames, names, selected, subst, i, calls);
      var newName := subst(objNames[i]);
      if newName in names {
        newNames := newNames + [objNames[i]];
      } else {
        newNames := newNames + [newName];
        calls := calls + [RenameCall(selected[i], objNames[i], newName)];
      }
      i := i + 1;
    }
    assert objNames[i..] == [];
  }

  /** One turn of the bulk commit loop moves the callback for object `i`,
      if any, from the callbacks still to come to those made. */
  lemma BulkStep<S>(objNames: seq<string>, names: set<string>, selected: seq<S>,
                    subst: string -> string, i: nat, calls: seq<RenameCall<S>>)
    requires |selected| == |objNames| && i < |objNames|
    ensures var n := subst(objNames[i]);
      var made := if n in names then calls else calls + [RenameCall(selected[i], objNames[i], n)];
      made + BulkRenameCalls(objNames[i + 1..], names, selected[i + 1..], subst) ==
      calls + BulkRenameCalls(objNames[i..], names, selected[i..], subst)
  {
    assert objNames[i..][0] == objNames[i] && objNames[i..][1..] == objNames[i + 1..];
    assert selected[i..][0] == selected[i] && selected[i..][1..] == selected[i + 1..];
    var n := subst(objNames[i]);
    var rest := BulkRenameCalls(objNames[i + 1..], names, selected[i + 1..], subst);
    if n !in names {
      var c := RenameCall(selected[i], objNames[i], n);
      assert calls + [c] + rest == calls + ([c] + rest);
    }
  }

  /** What the rename dialogs hand back: a single new name, or the
      substitution of the bulk dialog (the compiled regex and its
      replacement, taken as an opaque function). */
  datatype RenameResult<S> = Unchanged | Renamed(newNames: seq<string>, calls: seq<RenameCall<S>>)

  /** `rename`: one object goes through the single-name dialog, any other
      number through the bulk dialog. `accepted` is whether the user
      confirmed the dialog(s); the single-name dialog only accepts a name
      that is free or the object's own. */
  method Rename<S>(objNames: seq<string>, names: set<string>, selected: seq<S>,
                   accepted: bool, newName: string, subst: string -> string)
    returns (result: RenameResult<S>)
    requires |selected| == |objNames|
    requires |objNames| == 1 && accepted ==> (newName !in names || newName == objNames[0])
    ensures !accepted <==> result.Unchanged?
    ensures result.Renamed? && |objNames| == 1 ==>
      result.newNames == [newName] && result.calls == [RenameCall(selected[0], objNames[0], newName)]
    ensures result.Renamed? && |objNames| != 1 ==>
      |result.newNames| == |objNames| &&
      (forall i :: 0 <= i < |objNames| ==>
        result.newNames[i] == if subst(objNames[i]) in names then objNames[i] else subst(objNames[i])) &&
      result.calls == BulkRenameCalls(objNames, names, selected, subst)
  {
    if !accepted {
      return Unchanged;
    }
    if |objNames| == 1 {
      result := Renamed([newName], [RenameCall(selected[0], objNames[0], newName)]);
    } else {
      var newNames, calls := CommitBulkRename(objNames, names, selected, subst);
      result := Renamed(newNames, calls);
    }
  }
}
