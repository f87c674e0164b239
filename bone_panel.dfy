/** The bone panel's editing operations on the tree list control: the
    three-state check box propagation (check_parent, on_checked), the
    name index of a subtree (get_bone_names_index), deleting the selected
    bones, pasting copied bones over one target, and renaming a bone in
    every animation. */
module BonePanel {
  import opened Ean
  import opened TreeList
  import opened TreeEdit
  import opened PyStr
  import opened Helpers
  import opened BoneMain

  // ---------------------------------------------------------------------
  // check_parent
  // ---------------------------------------------------------------------

  /** `a` is `q` or one of its ancestors (the root included). */
  predicate PrefixOf(a: Path, q: Path)
  {
    |a| <= |q| && q[..|a|] == a
  }

  /** The upward walk of check_parent from the ancestor `a`: it stops at the
      first unchecked ancestor; every other one becomes CHECKED when all its
      children are checked, otherwise UNDETERMINED; it ends after the root. */
  function CheckFrom(c: Control, a: Path): (r: Control)
    ensures SameShape(r.items, c.items)
    decreases |a|
  {
    if StateOf(c, a) == Unchecked then ShapeRefl(c.items); c
    else
      var c1 := SetState(c, a, if AllChildrenIn(c, a, Checked) then Checked else Undetermined);
      SetStateShape(c, a, if AllChildrenIn(c, a, Checked) then Checked else Undetermined);
      if a == [] then c1
      else
        var d := CheckFrom(c1, Parent(a));
        ShapeTrans(d.items, c1.items, c.items);
        d
  }

  /** check_parent(bone): the walk starts at the bone's parent, so the
      bone's own box is left as it is. */
  function CheckUp(c: Control, bone: Path): (r: Control)
    requires bone != []
    ensures SameShape(r.items, c.items)
    ensures ValidIn(c.items, bone) ==> StateOf(r, bone) == StateOf(c, bone)
  {
    if ValidIn(c.items, bone) then
      CheckFromKeeps(c, Parent(bone), bone);
      CheckFrom(c, Parent(bone))
    else CheckFrom(c, Parent(bone))
  }

  /** The ancestors `a[..r]` for `r` from `i` up to `|a|` were all not
      unchecked, so the walk from `a` reaches `a[..i]`. */
  predicate Reaches(c: Control, a: Path, i: nat)
    requires i <= |a|
  {
    forall r :: i <= r <= |a| ==> StateOf(c, a[..r]) != Unchecked
  }

  /** The walk changes check box states only, and only those of `a` and its
      ancestors. */
  lemma {:induction false} CheckFromKeeps(c: Control, a: Path, q: Path)
    requires IsOk(c, q)
    ensures var d := CheckFrom(c, a);
      IsOk(d, q) && SameShape(d.items, c.items) &&
      (!PrefixOf(q, a) ==> StateOf(d, q) == StateOf(c, q)) &&
      (q != [] ==> AtF(d.items, q).bone == AtF(c.items, q).bone &&
                   AtF(d.items, q).selected == AtF(c.items, q).selected)
    decreases |a|
  {
    if StateOf(c, a) == Unchecked {
      ShapeRefl(c.items);
    } else {
      var s := if AllChildrenIn(c, a, Checked) then Checked else Undetermined;
      var c1 := SetState(c, a, s);
      SetStateOf(c, a, s, q);
      if a != [] {
        CheckFromKeeps(c1, Parent(a), q);
        ShapeTrans(CheckFrom(c1, Parent(a)).items, c1.items, c.items);
      } else if !PrefixOf(q, a) {
        assert q != a;
      }
    }
  }

  /** ... so the answer of AreAllChildrenInState at an item none of whose
      children is `a` or an ancestor of it does not change. */
  lemma CheckFromChildren(c: Control, a: Path, q: Path, t: CheckState)
    requires IsOk(c, q) && |q| >= |a|
    ensures AllChildrenIn(CheckFrom(c, a), q, t) == AllChildrenIn(c, q, t)
  {
    var d := CheckFrom(c, a);
    CheckFromKeeps(c, a, q);
    ShapeValid(d.items, c.items, q);
    ChildStates(c, q);
    ChildStates(d, q);
    forall k | 0 <= k < |KidsF(c.items, q)|
      ensures StateOf(d, q + [k]) == StateOf(c, q + [k])
    {
      CheckFromKeeps(c, a, q + [k]);
    }
  }

  /** Every ancestor the walk reaches ends CHECKED exactly when all its
      children end checked, and UNDETERMINED otherwise; every ancestor
      above the first unchecked one keeps its state. */
  lemma {:induction false} CheckFromSettles(c: Control, a: Path, i: nat)
    requires IsOk(c, a) && i <= |a|
    ensures var d := CheckFrom(c, a);
      if Reaches(c, a, i) then
        StateOf(d, a[..i]) == (if AllChildrenIn(d, a[..i], Checked) then Checked else Undetermined)
      else StateOf(d, a[..i]) == StateOf(c, a[..i])
    decreases |a|
  {
    var d := CheckFrom(c, a);
    assert a[..|a|] == a;
    if StateOf(c, a) == Unchecked {
      assert !Reaches(c, a, i);
    } else {
      var s := if AllChildrenIn(c, a, Checked) then Checked else Undetermined;
      var c1 := SetState(c, a, s);
      SetStateOf(c, a, s, a);
      SetStateChildren(c, a, s, a, Checked);
      if a == [] {
        assert a[..i] == a;
      } else {
        var pa := Parent(a);
        ParentPath(c.items, a);
        SetStateOf(c, a, s, pa);
        if i == |a| {
          assert a[..i] == a;
          CheckFromKeeps(c1, pa, a);
          CheckFromChildren(c1, pa, a, Checked);
          assert Reaches(c, a, i);
        } else {
          assert a[..i] == pa[..i];
          forall r | i <= r <= |pa|
            ensures StateOf(c1, pa[..r]) == StateOf(c, a[..r])
          {
            assert pa[..r] == a[..r];
            PrefixValid(c.items, a, r);
            SetStateOf(c, a, s, a[..r]);
          }
          assert Reaches(c, a, i) == Reaches(c1, pa, i) by {
            if Reaches(c1, pa, i) {
              forall r | i <= r <= |a|
                ensures StateOf(c, a[..r]) != Unchecked
              {
                if r == |a| {
                  assert a[..r] == a;
                }
              }
            }
          }
          CheckFromSettles(c1, pa, i);
        }
      }
    }
  }

  // ---------------------------------------------------------------------
  // on_checked
  // ---------------------------------------------------------------------

  /** The state on_checked gives every selected item when several are
      selected: CHECKED when the clicked item was unchecked before the click
      or some other selected item is unchecked, UNCHECKED otherwise. */
  function GroupState(c: Control, bone: Path, sel: seq<Path>, clickedWasUnchecked: bool): (r: CheckState)
    ensures r != Undetermined
    ensures r == Unchecked <==>
      !clickedWasUnchecked && forall s :: s in sel && s != bone ==> StateOf(c, s) != Unchecked
  {
    if clickedWasUnchecked || exists i :: 0 <= i < |sel| && sel[i] != bone && StateOf(c, sel[i]) == Unchecked
    then Checked else Unchecked
  }

  /** on_checked after a click on `bone` (whose box the control has already
      toggled): the selected items take the group state, a CHECKED clicked
      item with a child not checked becomes UNDETERMINED, then check_parent.
      `clickedWasUnchecked` is what the test of the old state yields. */
  function AfterClick(c: Control, bone: Path, clickedWasUnchecked: bool): (r: Control)
    requires bone != []
    ensures SameShape(r.items, c.items)
  {
    var sel := Selections(c);
    var c1 := if |sel| > 1 then SetAll(c, sel, GroupState(c, bone, sel, clickedWasUnchecked)) else c;
    SetAllOf(c, sel, GroupState(c, bone, sel, clickedWasUnchecked), []);
    ShapeRefl(c.items);
    var c2 := if StateOf(c1, bone) == Checked && !AllChildrenIn(c1, bone, Checked)
              then SetState(c1, bone, Undetermined) else c1;
    SetStateShape(c1, bone, Undetermined);
    ShapeRefl(c1.items);
    ShapeTrans(c2.items, c1.items, c.items);
    ShapeTrans(CheckUp(c2, bone).items, c2.items, c.items);
    CheckUp(c2, bone)
  }

  /** on_checked as written: the test of the old state compares the method
      `GetOldCheckedState` itself, never called, with CHK_UNCHECKED, so it is
      always false. */
  function OnCheckedAsWritten(c: Control, bone: Path): (r: Control)
    requires bone != []
    ensures SameShape(r.items, c.items)
  {
    AfterClick(c, bone, false)
  }

  /** As written, checking an unchecked item among several selected items that
      are all checked or undetermined unchecks the whole selection, the
      clicked item included: the click is undone. */
  lemma ClickUndone(c: Control, bone: Path)
    requires ValidIn(c.items, bone) && bone in Selections(c) && |Selections(c)| > 1
    requires StateOf(c, bone) == Checked
    requires forall s :: s in Selections(c) && s != bone ==> StateOf(c, s) != Unchecked
    ensures StateOf(OnCheckedAsWritten(c, bone), bone) == Unchecked
  {
    var sel := Selections(c);
    assert GroupState(c, bone, sel, false) == Unchecked by {
      if exists i :: 0 <= i < |sel| && sel[i] != bone && StateOf(c, sel[i]) == Unchecked {
        var i :| 0 <= i < |sel| && sel[i] != bone && StateOf(c, sel[i]) == Unchecked;
        assert sel[i] in sel;
      }
    }
    var c1 := SetAll(c, sel, Unchecked);
    SetAllOf(c, sel, Unchecked, bone);
    CheckFromKeeps(c1, Parent(bone), bone);
  }

  /** With the old state read as intended, the click sticks: the clicked item
      ends checked (or undetermined when one of its children is not checked),
      and every other selected item that is not an ancestor of it ends
      checked. */
  lemma ClickKept(c: Control, bone: Path)
    requires ValidIn(c.items, bone) && bone in Selections(c) && |Selections(c)| > 1
    ensures var d := AfterClick(c, bone, true);
      StateOf(d, bone) != Unchecked &&
      forall s :: s in Selections(c) && s != bone && !PrefixOf(s, Parent(bone)) ==> StateOf(d, s) == Checked
  {
    var sel := Selections(c);
    var c1 := SetAll(c, sel, Checked);
    SetAllOf(c, sel, Checked, bone);
    var c2 := if StateOf(c1, bone) == Checked && !AllChildrenIn(c1, bone, Checked)
              then SetState(c1, bone, Undetermined) else c1;
    SetStateOf(c1, bone, Undetermined, bone);
    CheckFromKeeps(c2, Parent(bone), bone);
    forall s | s in Selections(c) && s != bone && !PrefixOf(s, Parent(bone))
      ensures StateOf(AfterClick(c, bone, true), s) == Checked
    {
      var k :| 0 <= k < |sel| && sel[k] == s;
      assert IsSelected(c, s);
      SetAllOf(c, sel, Checked, s);
      SetStateOf(c1, bone, Undetermined, s);
      CheckFromKeeps(c2, Parent(bone), s);
    }
  }

  /** The input that shows it: two selected top-level bones, the second
      checked, the first just checked by the click. */
  lemma ClickUndoneExample()
    ensures var b := Bone("b_C_Base", 0, NONE, NONE, NONE);
      var c := Control(Checked, [Item(b, "0: b_C_Base", Checked, true, []), Item(b, "1: b_C_Base", Checked, true, [])]);
      StateOf(OnCheckedAsWritten(c, [0]), [0]) == Unchecked &&
      StateOf(AfterClick(c, [0], true), [0]) == Checked
  {
    var b := Bone("b_C_Base", 0, NONE, NONE, NONE);
    var c := Control(Checked, [Item(b, "0: b_C_Base", Checked, true, []), Item(b, "1: b_C_Base", Checked, true, [])]);
    var p0: Path := [0];
    var p1: Path := [1];
    var root: Path := [];
    assert root + [0] == p0 && root + [1] == p1;
    assert PathsItem(c.items[0], p0) == [p0];
    assert PathsItem(c.items[1], p1) == [p1];
    assert PathsFrom(c.items, root, 2) == [];
    assert PathsFrom(c.items, root, 1) == [p1];
    assert Preorder(c) == [p0, p1];
    assert IsSelected(c, p0) && IsSelected(c, p1);
    assert [p0, p1][1..] == [p1];
    assert SelectedIn(c, [p1]) == [p1];
    assert SelectedIn(c, [p0, p1]) == [p0] + SelectedIn(c, [p1]);
    assert Selections(c) == [p0, p1];
    ClickUndone(c, p0);
    ClickKept(c, p0);
    var c1 := SetAll(c, [p0, p1], Checked);
    SetAllOf(c, [p0, p1], Checked, p0);
    assert KidsF(c1.items, p0) == [] by {
      ChildPath(c1.items, [], 0);
    }
  }

  // ---------------------------------------------------------------------
  // get_bone_names_index
  // ---------------------------------------------------------------------

  /** The name of the bone at handle `p` ("" for a handle that leads
      nowhere). */
  function NameAt(c: Control, p: Path): string
  {
    if ValidIn(c.items, p) then AtF(c.items, p).bone.name else ""
  }

  /** The dictionary `m` after `d[name] = handle` for each handle of `ps`
      in turn. */
  function Index(c: Control, m: map<string, Path>, ps: seq<Path>): (r: map<string, Path>)
    ensures m.Keys <= r.Keys
    decreases |ps|
  {
    if ps == [] then m else Index(c, m[NameAt(c, ps[0]) := ps[0]], ps[1..])
  }

  /** Filling a dictionary that already holds entries is `update` with the
      dictionary filled from empty. */
  lemma {:induction false} IndexMerge(c: Control, m: map<string, Path>, ps: seq<Path>)
    ensures Index(c, m, ps) == m + Index(c, map[], ps)
    decreases |ps|
  {
    if ps != [] {
      var n := NameAt(c, ps[0]);
      IndexMerge(c, m[n := ps[0]], ps[1..]);
      IndexMerge(c, map[n := ps[0]], ps[1..]);
      var rest := Index(c, map[], ps[1..]);
      assert m + (map[n := ps[0]] + rest) == m[n := ps[0]] + rest;
    }
  }

  lemma {:induction false} IndexConcat(c: Control, m: map<string, Path>, a: seq<Path>, b: seq<Path>)
    ensures Index(c, m, a + b) == Index(c, Index(c, m, a), b)
    decreases |a|
  {
    if a == [] {
      assert a + b == b;
    } else {
      assert (a + b)[0] == a[0] && (a + b)[1..] == a[1..] + b;
      IndexConcat(c, m[NameAt(c, a[0]) := a[0]], a[1..], b);
    }
  }

  /** `ps[i]` is the last handle of `ps` whose bone is named `n`. */
  predicate LastWith(c: Control, ps: seq<Path>, i: int, n: string)
  {
    0 <= i < |ps| && NameAt(c, ps[i]) == n && forall j :: i < j < |ps| ==> NameAt(c, ps[j]) != n
  }

  /** The later handle wins: a name is a key exactly when it was one
      already or some handle of `ps` carries it; it then maps to the last
      handle of `ps` carrying it, or keeps its old entry when none does. */
  lemma {:induction false} IndexLast(c: Control, m: map<string, Path>, ps: seq<Path>, n: string)
    ensures var r := Index(c, m, ps);
      (n in r <==> n in m || exists i :: 0 <= i < |ps| && NameAt(c, ps[i]) == n) &&
      (forall i :: LastWith(c, ps, i, n) ==> r[n] == ps[i]) &&
      ((forall i :: 0 <= i < |ps| ==> NameAt(c, ps[i]) != n) ==> (n in m ==> r[n] == m[n]))
    decreases |ps|
  {
    if ps != [] {
      var m1 := m[NameAt(c, ps[0]) := ps[0]];
      var rest := ps[1..];
      IndexLast(c, m1, rest, n);
      var r := Index(c, m, ps);
      assert r == Index(c, m1, rest);
      if exists i :: 0 <= i < |ps| && NameAt(c, ps[i]) == n {
        var i :| 0 <= i < |ps| && NameAt(c, ps[i]) == n;
        if i > 0 {
          assert NameAt(c, rest[i - 1]) == n;
        }
      }
      forall i | LastWith(c, ps, i, n)
        ensures r[n] == ps[i]
      {
        if i > 0 {
          assert rest[i - 1] == ps[i];
          forall j | i - 1 < j < |rest|
            ensures NameAt(c, rest[j]) != n
          {
            assert rest[j] == ps[j + 1];
          }
        } else {
          forall j | 0 <= j < |rest|
            ensures NameAt(c, rest[j]) != n
          {
            assert rest[j] == ps[j + 1];
          }
        }
      }
      if forall i :: 0 <= i < |ps| ==> NameAt(c, ps[i]) != n {
        assert NameAt(c, ps[0]) != n;
        forall j | 0 <= j < |rest|
          ensures NameAt(c, rest[j]) != n
        {
          assert rest[j] == ps[j + 1];
        }
      }
    }
  }

  /** One item weighs no more than the run of siblings it belongs to. */
  lemma {:induction false} SizeWithin(f: seq<Item>, j: nat, k: nat)
    requires j <= k < |f|
    ensures SizeOf(f[k]) <= SizesFrom(f, j)
    decreases k - j
  {
    if j < k {
      SizeWithin(f, j + 1, k);
    }
  }

  // ---------------------------------------------------------------------
  // recalculate_bone_tree on the control
  // ---------------------------------------------------------------------

  /** The row at `p`, entry `k` of the preorder walk, once the first `i`
      rows have been given the bones `bs` and their labels. */
  function Relabelled(c: Control, p: Path, bs: seq<Bone>, k: nat, i: nat): Item
    requires ValidIn(c.items, p) && k < |bs|
  {
    if k < i then Head(AtF(c.items, p)).(bone := bs[k], text := Label(k, bs[k].name))
    else Head(AtF(c.items, p))
  }

  /** `after` is `before` once recalculate_bone_tree has run: the same items
      in the same places with the same check boxes and selection, the item
      numbered `k` in preorder holding entry `k` of the flattening and
      labelled "{k}: {name}". */
  predicate Renumbered(after: Control, before: Control)
  {
    var order := Preorder(before);
    var bs := Flatten(before);
    |bs| == |order| && SameShape(after.items, before.items) && after.rootState == before.rootState &&
    forall k :: 0 <= k < |order| ==>
      ValidIn(before.items, order[k]) && ValidIn(after.items, order[k]) &&
      Head(AtF(after.items, order[k])) ==
        Head(AtF(before.items, order[k])).(bone := bs[k], text := Label(k, bs[k].name))
  }

  // ---------------------------------------------------------------------
  // on_delete
  // ---------------------------------------------------------------------

  /** The forest once every selected item is deleted with its descendants:
      what on_delete leaves. */
  function Prune(f: seq<Item>): (r: seq<Item>)
    ensures |r| <= |f|
    ensures forall k :: 0 <= k < |r| ==> !r[k].selected
    decreases f
  {
    if f == [] then []
    else (if f[0].selected then [] else [f[0].(children := Prune(f[0].children))]) + Prune(f[1..])
  }

  /** No item of the forest is selected. */
  predicate NoneSelected(f: seq<Item>)
    decreases f
  {
    forall k :: 0 <= k < |f| ==> !f[k].selected && NoneSelected(f[k].children)
  }

  lemma {:induction false} PruneConcat(a: seq<Item>, b: seq<Item>)
    ensures Prune(a + b) == Prune(a) + Prune(b)
    decreases |a|
  {
    if a == [] {
      assert a + b == b;
    } else {
      assert (a + b)[0] == a[0] && (a + b)[1..] == a[1..] + b;
      PruneConcat(a[1..], b);
    }
  }

  lemma NoneSelectedConcat(a: seq<Item>, b: seq<Item>)
    requires NoneSelected(a) && NoneSelected(b)
    ensures NoneSelected(a + b)
  {
    forall k | 0 <= k < |a + b|
      ensures !(a + b)[k].selected && NoneSelected((a + b)[k].children)
    {
      if k < |a| {
        assert (a + b)[k] == a[k];
      } else {
        assert (a + b)[k] == b[k - |a|];
      }
    }
  }

  /** Nothing selected is left once the selected items are gone. */
  lemma {:induction false} PruneClears(f: seq<Item>)
    ensures NoneSelected(Prune(f))
    decreases f
  {
    if f != [] {
      PruneClears(f[1..]);
      if !f[0].selected {
        PruneClears(f[0].children);
        var x := f[0].(children := Prune(f[0].children));
        assert NoneSelected([x]);
        NoneSelectedConcat([x], Prune(f[1..]));
      } else {
        assert [] + Prune(f[1..]) == Prune(f[1..]);
      }
    }
  }

  /** With nothing selected, nothing is deleted. */
  lemma {:induction false} PruneIdle(f: seq<Item>)
    requires NoneSelected(f)
    ensures Prune(f) == f
    decreases f
  {
    if f != [] {
      assert NoneSelected(f[1..]) by {
        forall k | 0 <= k < |f[1..]|
          ensures !f[1..][k].selected && NoneSelected(f[1..][k].children)
        {
          assert f[1..][k] == f[k + 1];
        }
      }
      PruneIdle(f[1..]);
      PruneIdle(f[0].children);
      assert f == [f[0]] + f[1..];
    }
  }

  /** Pruning an item between two forests. */
  lemma PruneSplice(pre: seq<Item>, z: Item, post: seq<Item>)
    ensures Prune(pre + ([z] + post)) ==
      Prune(pre) + ((if z.selected then [] else [z.(children := Prune(z.children))]) + Prune(post))
  {
    PruneConcat(pre, [z] + post);
    assert ([z] + post)[0] == z && ([z] + post)[1..] == post;
  }

  /** Deleting one selected item (with its descendants) changes nothing of
      what is left once all selected items are deleted. */
  lemma {:induction false} PruneDelete(f: seq<Item>, p: Path)
    requires ValidIn(f, p) && AtF(f, p).selected
    ensures Prune(DeleteF(f, p)) == Prune(f)
    decreases |p|
  {
    var i := p[0];
    var x, pre, post := f[i], f[..i], f[i + 1..];
    assert f == pre + ([x] + post);
    PruneSplice(pre, x, post);
    if |p| == 1 {
      assert DeleteF(f, p) == pre + post;
      PruneConcat(pre, post);
    } else {
      var y := x.(children := DeleteF(x.children, p[1..]));
      PruneDelete(x.children, p[1..]);
      UpdateSplice(f, i, y);
      PruneSplice(pre, y, post);
    }
  }

  /** When no item the preorder walk visits from child `j` of `q` on is
      selected, none of those items or their descendants is. */
  lemma {:induction false} WalkCovers(c: Control, q: Path, j: nat)
    requires IsOk(c, q)
    requires forall p :: p in PathsFrom(KidsF(c.items, q), q, j) ==> !IsSelected(c, p)
    ensures forall k :: j <= k < |KidsF(c.items, q)| ==>
      !KidsF(c.items, q)[k].selected && NoneSelected(KidsF(c.items, q)[k].children)
    decreases SizesFrom(KidsF(c.items, q), j)
  {
    var f := KidsF(c.items, q);
    if j < |f| {
      var item := q + [j];
      ChildPath(c.items, q, j);
      assert PathsFrom(f, q, j) == PathsItem(f[j], item) + PathsFrom(f, q, j + 1);
      assert item in PathsItem(f[j], item);
      assert SizesFrom(f, j) == 1 + SizesFrom(f[j].children, 0) + SizesFrom(f, j + 1);
      WalkCovers(c, item, 0);
      WalkCovers(c, q, j + 1);
      assert !IsSelected(c, item);
      assert !f[j].selected && NoneSelected(f[j].children);
      forall k | j <= k < |f|
        ensures !f[k].selected && NoneSelected(f[k].children)
      {
      }
    }
  }

  lemma PreorderCovers(c: Control)
    requires forall k :: 0 <= k < |Preorder(c)| ==> !IsSelected(c, Preorder(c)[k])
    ensures NoneSelected(c.items)
  {
    forall p | p in Preorder(c)
      ensures !IsSelected(c, p)
    {
      var k :| 0 <= k < |Preorder(c)| && Preorder(c)[k] == p;
    }
    WalkCovers(c, [], 0);
    assert KidsF(c.items, []) == c.items;
  }

  // ---------------------------------------------------------------------
  // on_paste
  // ---------------------------------------------------------------------

  /** `UnselectAll()` on a forest. */
  function UnselectF(f: seq<Item>): (g: seq<Item>)
    ensures |g| == |f|
    decreases f
  {
    seq(|f|, k requires 0 <= k < |f| => f[k].(selected := false, children := UnselectF(f[k].children)))
  }

  /** UnselectAll keeps every handle and every row but its selection. */
  lemma {:induction false} UnselectAt(f: seq<Item>, p: Path)
    requires ValidIn(f, p)
    ensures ValidIn(UnselectF(f), p) && Head(AtF(UnselectF(f), p)) == Head(AtF(f, p)).(selected := false)
    decreases |p|
  {
    if |p| > 1 {
      UnselectAt(f[p[0]].children, p[1..]);
    }
  }

  /** ... and leaves nothing selected. */
  lemma {:induction false} UnselectClears(f: seq<Item>)
    ensures NoneSelected(UnselectF(f))
    decreases f
  {
    forall k | 0 <= k < |f|
      ensures NoneSelected(UnselectF(f[k].children))
    {
      UnselectClears(f[k].children);
    }
  }

  /** The dictionary filled from `m` maps every name to an entry of `m` or
      to a handle of `ps`. */
  lemma {:induction false} IndexValues(c: Control, m: map<string, Path>, ps: seq<Path>)
    ensures forall n :: n in Index(c, m, ps) ==> Index(c, m, ps)[n] in ps || (n in m && Index(c, m, ps)[n] == m[n])
    decreases |ps|
  {
    if ps != [] {
      IndexValues(c, m[NameAt(c, ps[0]) := ps[0]], ps[1..]);
    }
  }

  /** `current_bone_list`: the target's name mapped to the target, updated
      with the names of its descendants. */
  function CurrentIndex(c: Control, root: Path): map<string, Path>
  {
    map[NameAt(c, root) := root] + Index(c, map[], PathsFrom(KidsF(c.items, root), root, 0))
  }

  /** Every handle in the dictionary is the target or one of its
      descendants. */
  lemma CurrentValid(c: Control, root: Path)
    requires ValidIn(c.items, root)
    ensures forall n :: n in CurrentIndex(c, root) ==> ValidIn(c.items, CurrentIndex(c, root)[n])
  {
    var below := PathsFrom(KidsF(c.items, root), root, 0);
    IndexValues(c, map[], below);
    PathsFromValid(c.items, KidsF(c.items, root), root, 0);
  }

  /** The control and `temp_bone_list` while the paste loop runs. */
  datatype PasteState = PasteState(c: Control, temp: map<nat, Path>)

  /** `Select(item)` then `CheckItem(item)`. */
  function Mark(c: Control, p: Path): (r: Control)
    ensures SameShape(r.items, c.items)
    ensures p != [] && ValidIn(c.items, p) ==> IsSelected(r, p) && StateOf(r, p) == Checked
  {
    var c1 := c.(items := EditF(c.items, p, ToSelected(true)));
    EditShape(c.items, p, ToSelected(true));
    SetStateShape(c1, p, Checked);
    ShapeTrans(SetState(c1, p, Checked).items, c1.items, c.items);
    if p != [] && ValidIn(c.items, p) then
      EditAt(c.items, p, ToSelected(true), p);
      SetStateOf(c1, p, Checked, p);
      SetState(c1, p, Checked)
    else SetState(c1, p, Checked)
  }

  /** Where a copied bone that replaces nothing is appended: under the item
      pasted for its parent_index, or else under the target. */
  function PasteParent(st: PasteState, b: Bone, root: Path): Path
  {
    if b.parentIndex in st.temp then st.temp[b.parentIndex] else root
  }

  /** One pass of the paste loop: a copied bone whose name is in `current`
      replaces the data of that item; any other is renamed to a name not in
      `allNames` and appended as a new item; either item is selected and
      checked and recorded under the copied bone's index. */
  ghost function PasteOne(st: PasteState, b: Bone, root: Path, current: map<string, Path>,
                          allNames: set<string>): (r: PasteState)
    ensures r.temp.Keys == st.temp.Keys + {b.index}
    ensures b.name in current ==> SameShape(r.c.items, st.c.items)
  {
    if b.name in current then
      var item := current[b.name];
      var c1 := st.c.(items := EditF(st.c.items, item, ToBone(b)));
      EditShape(st.c.items, item, ToBone(b));
      ShapeTrans(Mark(c1, item).items, c1.items, st.c.items);
      PasteState(Mark(c1, item), st.temp[b.index := item])
    else
      var nb := b.(name := UniqueName(b.name, allNames));
      var q := PasteParent(st, b, root);
      var item := q + [|KidsF(st.c.items, q)|];
      var c1 := st.c.(items := Graft(st.c.items, q, [Item(nb, "", Unchecked, false, [])]));
      PasteState(Mark(c1, item), st.temp[b.index := item])
  }

  /** The paste loop over the copied bones `bs`. */
  ghost function PasteAll(st: PasteState, bs: seq<Bone>, root: Path, current: map<string, Path>,
                          allNames: set<string>): (r: PasteState)
    ensures st.temp.Keys <= r.temp.Keys
    ensures bs != [] ==> bs[|bs| - 1].index in r.temp
    decreases |bs|
  {
    if bs == [] then st else PasteAll(PasteOne(st, bs[0], root, current, allNames), bs[1..], root, current, allNames)
  }

  /** Pasting only bones whose names are already under the target adds no
      item and changes no handle. */
  lemma {:induction false} PasteAllShape(st: PasteState, bs: seq<Bone>, root: Path, current: map<string, Path>,
                                         allNames: set<string>)
    requires forall x :: x in bs ==> x.name in current
    ensures SameShape(PasteAll(st, bs, root, current, allNames).c.items, st.c.items)
    decreases |bs|
  {
    if bs == [] {
      ShapeRefl(st.c.items);
    } else {
      var st1 := PasteOne(st, bs[0], root, current, allNames);
      assert bs[0] in bs;
      PasteAllShape(st1, bs[1..], root, current, allNames);
      ShapeTrans(PasteAll(st1, bs[1..], root, current, allNames).c.items, st1.c.items, st.c.items);
    }
  }

  /** The handles the paste loop works through lead to items. */
  predicate PasteReady(st: PasteState, root: Path, current: map<string, Path>)
  {
    ValidIn(st.c.items, root) &&
    (forall n :: n in current ==> ValidIn(st.c.items, current[n])) &&
    (forall i :: i in st.temp ==> ValidIn(st.c.items, st.temp[i]))
  }

  /** Marking a row selects and checks it and changes no other row. */
  lemma MarkAt(c: Control, p: Path, q: Path)
    requires p != [] && ValidIn(c.items, q)
    ensures ValidIn(Mark(c, p).items, q) && SameShape(Mark(c, p).items, c.items)
    ensures Head(AtF(Mark(c, p).items, q)) ==
      if q == p then Head(AtF(c.items, q)).(selected := true, state := Checked) else Head(AtF(c.items, q))
  {
    var f1 := EditF(c.items, p, ToSelected(true));
    var f2 := EditF(f1, p, ToState(Checked));
    EditAt(c.items, p, ToSelected(true), q);
    EditAt(f1, p, ToState(Checked), q);
    EditShape(c.items, p, ToSelected(true));
    EditShape(f1, p, ToState(Checked));
    ShapeTrans(f2, f1, c.items);
  }

  /** A copied bone whose name is in `current` lands on that item: its row
      holds the copied bone, selected and checked, keeps its children, and
      no other row changes. */
  lemma PasteReplaces(st: PasteState, b: Bone, root: Path, current: map<string, Path>,
                      allNames: set<string>, p: Path)
    requires PasteReady(st, root, current) && b.name in current && ValidIn(st.c.items, p)
    ensures var st' := PasteOne(st, b, root, current, allNames);
      var item := current[b.name];
      PasteReady(st', root, current) && st'.temp == st.temp[b.index := item] &&
      SameShape(st'.c.items, st.c.items) && ValidIn(st'.c.items, p) &&
      Head(AtF(st'.c.items, p)) ==
        if p == item then Head(AtF(st.c.items, p)).(bone := b, selected := true, state := Checked)
        else Head(AtF(st.c.items, p))
  {
    var item := current[b.name];
    var c1 := st.c.(items := EditF(st.c.items, item, ToBone(b)));
    var st' := PasteOne(st, b, root, current, allNames);
    EditAt(st.c.items, item, ToBone(b), p);
    EditShape(st.c.items, item, ToBone(b));
    MarkAt(c1, item, p);
    ShapeTrans(st'.c.items, c1.items, st.c.items);
    forall q | ValidIn(st.c.items, q)
      ensures ValidIn(st'.c.items, q)
    {
      EditAt(st.c.items, item, ToBone(b), q);
      MarkAt(c1, item, q);
    }
  }

  /** Any other copied bone becomes a new last child of the item pasted
      for its parent_index (or of the target): a childless row holding the
      copied bone under a name not in `allNames` (its own name when that is
      free), selected and checked; every existing row stays as it was. */
  lemma PasteAppends(st: PasteState, b: Bone, root: Path, current: map<string, Path>,
                     allNames: set<string>, p: Path)
    requires PasteReady(st, root, current) && b.name !in current && ValidIn(st.c.items, p)
    ensures var st' := PasteOne(st, b, root, current, allNames);
      var q := PasteParent(st, b, root);
      var item := q + [|KidsF(st.c.items, q)|];
      PasteReady(st', root, current) && st'.temp == st.temp[b.index := item] &&
      ValidIn(st'.c.items, item) &&
      AtF(st'.c.items, item) == Item(b.(name := UniqueName(b.name, allNames)), "", Checked, true, []) &&
      UniqueName(b.name, allNames) !in allNames &&
      (b.name !in allNames ==> UniqueName(b.name, allNames) == b.name) &&
      ValidIn(st'.c.items, p) && Head(AtF(st'.c.items, p)) == Head(AtF(st.c.items, p))
  {
    var nb := b.(name := UniqueName(b.name, allNames));
    var q := PasteParent(st, b, root);
    var item := q + [|KidsF(st.c.items, q)|];
    var x := Item(nb, "", Unchecked, false, []);
    var c1 := st.c.(items := Graft(st.c.items, q, [x]));
    var st' := PasteOne(st, b, root, current, allNames);
    GraftNew(st.c.items, q, x);
    var f1 := EditF(c1.items, item, ToSelected(true));
    EditAt(c1.items, item, ToSelected(true), item);
    EditAt(f1, item, ToState(Checked), item);
    KidsAt(c1.items, item);
    KidsAt(st'.c.items, item);
    MarkAt(c1, item, item);
    ShapeValid(st'.c.items, c1.items, item);
    GraftKeeps(st.c.items, q, [x], p);
    MarkAt(c1, item, p);
    if p == item {
      ChildBound(st.c.items, q, |KidsF(st.c.items, q)|);
    }
    forall r | ValidIn(st.c.items, r)
      ensures ValidIn(st'.c.items, r)
    {
      GraftKeeps(st.c.items, q, [x], r);
      MarkAt(c1, item, r);
    }
    MarkAt(c1, item, item);
  }

  /** Pasting leaves every row that no copied bone replaces as it was, and
      every handle the loop uses valid. */
  lemma {:induction false} PasteAllKeeps(st: PasteState, bs: seq<Bone>, root: Path, current: map<string, Path>,
                                         allNames: set<string>, p: Path)
    requires PasteReady(st, root, current) && ValidIn(st.c.items, p)
    requires forall n :: n in current ==> current[n] != p
    ensures var st' := PasteAll(st, bs, root, current, allNames);
      PasteReady(st', root, current) && ValidIn(st'.c.items, p) && Head(AtF(st'.c.items, p)) == Head(AtF(st.c.items, p))
    decreases |bs|
  {
    if bs != [] {
      var b := bs[0];
      if b.name in current {
        PasteReplaces(st, b, root, current, allNames, p);
      } else {
        PasteAppends(st, b, root, current, allNames, p);
      }
      PasteAllKeeps(PasteOne(st, b, root, current, allNames), bs[1..], root, current, allNames, p);
    }
  }

  // ---------------------------------------------------------------------
  // on_rename
  // ---------------------------------------------------------------------

  /** rename_func's loop over one animation: every node of the bone named
      `oldName` is renamed `newName`. */
  function RenameNodes(nodes: seq<Node>, oldName: string, newName: string): (r: seq<Node>)
    ensures |r| == |nodes|
    ensures forall k :: 0 <= k < |nodes| ==> r[k].boneIndex == nodes[k].boneIndex && r[k].channels == nodes[k].channels
  {
    seq(|nodes|, k requires 0 <= k < |nodes| =>
      if nodes[k].boneName == oldName then nodes[k].(boneName := newName) else nodes[k])
  }

  /** ... over every animation of the file. */
  function RenameAnimations(anims: seq<Animation>, oldName: string, newName: string): (r: seq<Animation>)
    ensures |r| == |anims|
    ensures forall a :: 0 <= a < |anims| ==>
      r[a].name == anims[a].name && r[a].frameCount == anims[a].frameCount && |r[a].nodes| == |anims[a].nodes|
  {
    seq(|anims|, a requires 0 <= a < |anims| => anims[a].(nodes := RenameNodes(anims[a].nodes, oldName, newName)))
  }

  /** No node of the animations is for the bone named `n`. */
  predicate NoNodeNamed(anims: seq<Animation>, n: string)
  {
    forall a, k :: 0 <= a < |anims| && 0 <= k < |anims[a].nodes| ==> anims[a].nodes[k].boneName != n
  }

  /** After a rename, no node is left with the old name, and the nodes that
      had the new name already are the only others with it. */
  lemma RenameLeavesNone(anims: seq<Animation>, oldName: string, newName: string)
    requires oldName != newName
    ensures NoNodeNamed(RenameAnimations(anims, oldName, newName), oldName)
    ensures forall a, k :: 0 <= a < |anims| && 0 <= k < |anims[a].nodes| ==>
      (RenameAnimations(anims, oldName, newName)[a].nodes[k].boneName == newName <==>
       anims[a].nodes[k].boneName in {oldName, newName})
  {
  }

  /** Renaming back undoes a rename when no node had the new name before. */
  lemma RenameBack(anims: seq<Animation>, oldName: string, newName: string)
    requires NoNodeNamed(anims, newName)
    ensures RenameAnimations(RenameAnimations(anims, oldName, newName), newName, oldName) == anims
  {
    var r := RenameAnimations(RenameAnimations(anims, oldName, newName), newName, oldName);
    forall a | 0 <= a < |anims|
      ensures r[a] == anims[a]
    {
      assert r[a].nodes == anims[a].nodes;
    }
  }

  /** What rename_func and the dialog's `obj.name = new_name` do to the row
      of `p`: its bone takes the new name and the row reads
      "{index}: {new name}". */
  function RenameRow(c: Control, p: Path, newName: string): Control
  {
    if ValidIn(c.items, p) then
      var b := AtF(c.items, p).bone.(name := newName);
      c.(items := EditF(EditF(c.items, p, ToBone(b)), p, ToText(Label(b.index, newName))))
    else c
  }

  /** Renaming a row changes no handle. */
  lemma RenameRowShape(c: Control, p: Path, newName: string)
    ensures SameShape(RenameRow(c, p, newName).items, c.items) && RenameRow(c, p, newName).rootState == c.rootState
  {
    if ValidIn(c.items, p) {
      var b := AtF(c.items, p).bone.(name := newName);
      var f1 := EditF(c.items, p, ToBone(b));
      EditShape(c.items, p, ToBone(b));
      EditShape(f1, p, ToText(Label(b.index, newName)));
      ShapeTrans(EditF(f1, p, ToText(Label(b.index, newName))), f1, c.items);
    } else {
      ShapeRefl(c.items);
    }
  }

  /** The row of `p` is the only one that changes. */
  lemma RenameRowAt(c: Control, p: Path, newName: string, q: Path)
    requires ValidIn(c.items, q)
    ensures var d := RenameRow(c, p, newName);
      ValidIn(d.items, q) && SameShape(d.items, c.items) &&
      Head(AtF(d.items, q)) ==
        if q == p then Head(AtF(c.items, q)).(bone := AtF(c.items, q).bone.(name := newName),
                                               text := Label(AtF(c.items, q).bone.index, newName))
        else Head(AtF(c.items, q))
  {
    if ValidIn(c.items, p) {
      var b := AtF(c.items, p).bone.(name := newName);
      var f1 := EditF(c.items, p, ToBone(b));
      EditAt(c.items, p, ToBone(b), q);
      EditAt(f1, p, ToText(Label(b.index, newName)), q);
      EditShape(c.items, p, ToBone(b));
      EditShape(f1, p, ToText(Label(b.index, newName)));
      ShapeTrans(EditF(f1, p, ToText(Label(b.index, newName))), f1, c.items);
    } else {
      ShapeRefl(c.items);
    }
  }

  /** The rows after the rename callbacks `calls`, in order. */
  function RenameRows(c: Control, calls: seq<RenameCall<Path>>): (r: Control)
    ensures SameShape(r.items, c.items) && r.rootState == c.rootState
    decreases |calls|
  {
    if calls == [] then ShapeRefl(c.items); c
    else
      var c1 := RenameRow(c, calls[0].item, calls[0].newName);
      RenameRowShape(c, calls[0].item, calls[0].newName);
      var r := RenameRows(c1, calls[1..]);
      ShapeTrans(r.items, c1.items, c.items);
      r
  }

  /** The animations after the rename callbacks `calls`, in order. */
  function RenameAllAnimations(anims: seq<Animation>, calls: seq<RenameCall<Path>>): seq<Animation>
    decreases |calls|
  {
    if calls == [] then anims
    else RenameAllAnimations(RenameAnimations(anims, calls[0].oldName, calls[0].newName), calls[1..])
  }

  /** rename_func's loop over one animation, on values. */
  method RenameInNodes(nodes: seq<Node>, oldName: string, newName: string) returns (r: seq<Node>)
    ensures r == RenameNodes(nodes, oldName, newName)
  {
    r := nodes;
    var k := 0;
    while k < |r|
      invariant 0 <= k <= |r| == |nodes|
      invariant forall j :: 0 <= j < |r| ==>
        r[j] == if j < k then RenameNodes(nodes, oldName, newName)[j] else nodes[j]
    {
      if r[k].boneName == oldName {
        r := r[k := r[k].(boneName := newName)];
      }
      k := k + 1;
    }
  }

  /** rename_func's loop over every animation, on values. */
  method RenameInAnimations(anims: seq<Animation>, oldName: string, newName: string) returns (r: seq<Animation>)
    ensures r == RenameAnimations(anims, oldName, newName)
  {
    r := anims;
    var a := 0;
    while a < |r|
      invariant 0 <= a <= |r| == |anims|
      invariant forall j :: 0 <= j < |r| ==>
        r[j] == if j < a then RenameAnimations(anims, oldName, newName)[j] else anims[j]
    {
      var nodes := RenameInNodes(r[a].nodes, oldName, newName);
      r := r[a := r[a].(nodes := nodes)];
      a := a + 1;
    }
  }

  /** rename_func(item, bone, old_name, new_name) on values. */
  method RenameFuncOn(c: Control, anims: seq<Animation>, item: Path, oldName: string, newName: string)
    returns (c': Control, anims': seq<Animation>)
    requires ValidIn(c.items, item)
    ensures var b := AtF(c.items, item).bone;
      c' == c.(items := EditF(c.items, item, ToText(Label(b.index, b.name))))
    ensures anims' == RenameAnimations(anims, oldName, newName)
  {
    var b := AtF(c.items, item).bone;
    c' := c.(items := EditF(c.items, item, ToText(Label(b.index, b.name))));
    anims' := RenameInAnimations(anims, oldName, newName);
  }

  /** The dialog's `obj.name = new_name` followed by rename_func is
      RenameRow, and every row valid before stays valid. */
  lemma RenameCallStep(c: Control, item: Path, newName: string, selected: seq<Path>)
    requires ValidIn(c.items, item)
    requires forall p :: p in selected ==> ValidIn(c.items, p)
    ensures var b := AtF(c.items, item).bone.(name := newName);
      var c1 := c.(items := EditF(c.items, item, ToBone(b)));
      ValidIn(c1.items, item) && AtF(c1.items, item).bone == b &&
      c1.(items := EditF(c1.items, item, ToText(Label(b.index, b.name)))) == RenameRow(c, item, newName)
    ensures forall p :: p in selected ==> ValidIn(RenameRow(c, item, newName).items, p)
  {
    var b := AtF(c.items, item).bone.(name := newName);
    EditAt(c.items, item, ToBone(b), item);
    forall p | p in selected
      ensures ValidIn(RenameRow(c, item, newName).items, p)
    {
      RenameRowAt(c, item, newName, p);
    }
  }

  /** The callbacks of a rename, in order: each renames its row and the
      animations' nodes. */
  method ApplyRenames(t0: Control, a0: seq<Animation>, calls: seq<RenameCall<Path>>, selected: seq<Path>)
    returns (t: Control, anims: seq<Animation>)
    requires forall j :: 0 <= j < |calls| ==> calls[j].item in selected
    requires forall p :: p in selected ==> ValidIn(t0.items, p)
    ensures t == RenameRows(t0, calls) && anims == RenameAllAnimations(a0, calls)
  {
    t, anims := t0, a0;
    var i := 0;
    while i < |calls|
      invariant 0 <= i <= |calls|
      invariant forall p :: p in selected ==> ValidIn(t.items, p)
      invariant RenameRows(t, calls[i..]) == RenameRows(t0, calls)
      invariant RenameAllAnimations(anims, calls[i..]) == RenameAllAnimations(a0, calls)
    {
      assert calls[i..][0] == calls[i] && calls[i..][1..] == calls[i + 1..];
      var call := calls[i];
      RenameCallStep(t, call.item, call.newName, selected);
      var b := AtF(t.items, call.item).bone.(name := call.newName);
      t := t.(items := EditF(t.items, call.item, ToBone(b)));
      t, anims := RenameFuncOn(t, anims, call.item, call.oldName, call.newName);
      i := i + 1;
    }
    assert calls[i..] == [];
  }

  /** The names of the bones at the handles `ps`, in order. */
  function NamesOf(c: Control, ps: seq<Path>): seq<string>
  {
    seq(|ps|, k requires 0 <= k < |ps| => NameAt(c, ps[k]))
  }

  /** The loop of check_parent, on values: from the parent of `bone`
      upwards, each checked or undetermined ancestor becomes checked when
      all its children are and undetermined otherwise; an unchecked one
      ends the walk. */
  method CheckUpOn(c: Control, bone: Path) returns (r: Control)
    requires bone != [] && ValidIn(c.items, bone)
    ensures r == CheckUp(c, bone)
  {
    r := c;
    ParentPath(r.items, bone);
    var parent: Option<Path> := Some(Parent(bone));
    while parent.Some?
      invariant parent.Some? ==> IsOk(r, parent.value) && CheckFrom(r, parent.value) == CheckUp(c, bone)
      invariant parent.None? ==> r == CheckUp(c, bone)
      decreases if parent.Some? then |parent.value| + 1 else 0
    {
      var p := parent.value;
      if StateOf(r, p) == Unchecked {
        return;
      }
      var before := r;
      var all := AllChildrenIn(r, p, Checked);
      r := SetState(r, p, if all then Checked else Undetermined);
      if p == [] {
        parent := None;
      } else {
        ParentPath(before.items, p);
        SetStateOf(before, p, if all then Checked else Undetermined, Parent(p));
        parent := Some(Parent(p));
      }
    }
  }

  /** The loop of on_checked over a multiple selection, on values. */
  method SetAllOn(c: Control, selection: seq<Path>, s: CheckState) returns (r: Control)
    ensures r == SetAll(c, selection, s)
  {
    r := c;
    var i := 0;
    while i < |selection|
      invariant 0 <= i <= |selection|
      invariant SetAll(r, selection[i..], s) == SetAll(c, selection, s)
    {
      assert selection[i..][1..] == selection[i + 1..];
      r := SetState(r, selection[i], s);
      i := i + 1;
    }
  }

  /** on_checked on values. */
  method ClickOn(c: Control, bone: Path, oldState: CheckState) returns (r: Control)
    requires ValidIn(c.items, bone)
    ensures r == AfterClick(c, bone, oldState == Unchecked)
  {
    r := c;
    var selection := Selections(r);
    var newState := Unchecked;
    if |selection| > 1 {
      if oldState == Unchecked ||
         exists i :: 0 <= i < |selection| && selection[i] != bone && StateOf(r, selection[i]) == Unchecked {
        newState := Checked;
      }
      r := SetAllOn(r, selection, newState);
      SetAllOf(c, selection, newState, bone);
    }
    if StateOf(r, bone) == Checked && !AllChildrenIn(r, bone, Checked) {
      SetStateOf(r, bone, Undetermined, bone);
      r := SetState(r, bone, Undetermined);
    }
    r := CheckUpOn(r, bone);
  }

  /** One pass of the paste loop of on_paste, on values. */
  method PasteBone(st: PasteState, b: Bone, root: Path, current: map<string, Path>, allNames: set<string>)
    returns (st': PasteState)
    ensures st' == PasteOne(st, b, root, current, allNames)
  {
    var tree, temp := st.c, st.temp;
    var item: Path;
    if b.name in current {
      item := current[b.name];
      tree := tree.(items := EditF(tree.items, item, ToBone(b)));
    } else {
      var name := GetUniqueName(b.name, allNames);
      var parent := if b.parentIndex in temp then temp[b.parentIndex] else root;
      item := parent + [|KidsF(tree.items, parent)|];
      tree := tree.(items := Graft(tree.items, parent, [Item(b.(name := name), "", Unchecked, false, [])]));
    }
    tree := tree.(items := EditF(tree.items, item, ToSelected(true)));
    tree := SetState(tree, item, Checked);
    st' := PasteState(tree, temp[b.index := item]);
  }

  /** The paste loop of on_paste over the copied bones, on values,
      `temp_bone_list` starting empty. */
  method PasteOn(c: Control, copiedBones: seq<Bone>, root: Path, current: map<string, Path>, allNames: set<string>)
    returns (r: Control)
    ensures r == PasteAll(PasteState(c, map[]), copiedBones, root, current, allNames).c
  {
    var st := PasteState(c, map[]);
    var i := 0;
    while i < |copiedBones|
      invariant 0 <= i <= |copiedBones|
      invariant PasteAll(st, copiedBones[i..], root, current, allNames) ==
                PasteAll(PasteState(c, map[]), copiedBones, root, current, allNames)
    {
      assert copiedBones[i..][0] == copiedBones[i] && copiedBones[i..][1..] == copiedBones[i + 1..];
      st := PasteBone(st, copiedBones[i], root, current, allNames);
      i := i + 1;
    }
    assert copiedBones[i..] == [];
    r := st.c;
  }

  // ---------------------------------------------------------------------
  // The panel
  // ---------------------------------------------------------------------

  /** The bone panel of an EAN file: its tree list control, the skeleton's
      bone list, the file's animations and the bones on the clipboard. */
  class BoneMainPanel {
    var tree: Control
    var bones: seq<Bone>
    var animations: seq<Animation>
    var copied: Option<seq<Bone>>

    constructor (tree0: Control, bones0: seq<Bone>, animations0: seq<Animation>)
      ensures tree == tree0 && bones == bones0 && animations == animations0 && copied == None
    {
      tree := tree0;
      bones := bones0;
      animations := animations0;
      copied := None;
    }

    /** get_bone_names_index(item), where `item` is child `j` of the item at
        `q` (not OK once `j` is past the last child): the name of every
        bone from `item` on through its next siblings and all their
        descendants, mapped to its handle, later items winning. */
    method NamesIndex(q: Path, j: nat) returns (m: map<string, Path>)
      requires IsOk(tree, q)
      ensures m == Index(tree, map[], PathsFrom(KidsF(tree.items, q), q, j))
      decreases SizesFrom(KidsF(tree.items, q), j)
    {
      var f := KidsF(tree.items, q);
      m := map[];
      var k := j;
      while k < |f|
        invariant j <= k
        invariant Index(tree, m, PathsFrom(f, q, k)) == Index(tree, map[], PathsFrom(f, q, j))
        decreases |f| - k
      {
        var item := q + [k];
        ChildPath(tree.items, q, k);
        SizeWithin(f, j, k);
        var name := AtF(tree.items, item).bone.name;
        var sub := NamesIndex(item, 0);
        var below := PathsFrom(f[k].children, item, 0);
        assert PathsFrom(f, q, k) == ([item] + below) + PathsFrom(f, q, k + 1);
        IndexConcat(tree, m, [item] + below, PathsFrom(f, q, k + 1));
        assert ([item] + below)[1..] == below;
        IndexMerge(tree, m[name := item], below);
        m := m[name := item] + sub;
        k := k + 1;
      }
    }

    /** recalculate_bone_tree: besides the new bone list, the bones of the
        items are the renumbered ones and every row reads "{index}: {name}". */
    method Recalculate() returns (oldLength: nat, newLength: nat)
      modifies this`tree, this`bones
      ensures bones == Flatten(old(tree)) && Renumbered(tree, old(tree))
      ensures oldLength == |old(bones)| && newLength == |bones|
    {
      var newBones;
      newBones, oldLength, newLength := RecalculateBoneTree(tree, bones);
      var order := Preorder(tree);
      PreorderValid(tree);
      ghost var before := tree;
      PreorderValid(before);
      ShapeRefl(tree.items);
      var i := 0;
      while i < |order|
        invariant 0 <= i <= |order|
        invariant SameShape(tree.items, before.items) && tree.rootState == before.rootState
        invariant forall k :: 0 <= k < |order| ==>
          ValidIn(tree.items, order[k]) &&
          Head(AtF(tree.items, order[k])) == Relabelled(before, order[k], newBones, k, i)
      {
        var p := order[i];
        var f0 := tree.items;
        var f1 := EditF(f0, p, ToBone(newBones[i]));
        var f2 := EditF(f1, p, ToText(Label(i, newBones[i].name)));
        forall k | 0 <= k < |order|
          ensures ValidIn(f2, order[k]) && Head(AtF(f2, order[k])) == Relabelled(before, order[k], newBones, k, i + 1)
        {
          EditAt(f0, p, ToBone(newBones[i]), order[k]);
          EditAt(f1, p, ToText(Label(i, newBones[i].name)), order[k]);
        }
        EditShape(f0, p, ToBone(newBones[i]));
        EditShape(f1, p, ToText(Label(i, newBones[i].name)));
        ShapeTrans(f2, f1, f0);
        ShapeTrans(f2, f0, before.items);
        tree := tree.(items := f2);
        i := i + 1;
      }
      bones := newBones;
    }

    /** on_delete: with nothing selected nothing happens; otherwise the walk
        deletes the first selected item it meets (with its descendants) and
        starts over, until it passes no selected item; then the bones are
        renumbered. Returns the count the status bar reports. */
    method OnDelete() returns (deleted: int)
      modifies this`tree, this`bones
      ensures |Selections(old(tree))| == 0 ==> tree == old(tree) && bones == old(bones) && deleted == 0
      ensures |Selections(old(tree))| > 0 ==>
        var pruned := old(tree).(items := Prune(old(tree).items));
        Renumbered(tree, pruned) && bones == Flatten(pruned) && deleted == |old(bones)| - |bones|
    {
      var selected := Selections(tree);
      if |selected| == 0 {
        return 0;
      }
      var i := 0;
      while i < |Preorder(tree)|
        invariant Prune(tree.items) == Prune(old(tree).items)
        invariant tree.rootState == old(tree).rootState && bones == old(bones)
        invariant forall k :: 0 <= k < i && k < |Preorder(tree)| ==> !IsSelected(tree, Preorder(tree)[k])
        decreases SizesFrom(tree.items, 0), |Preorder(tree)| - i
      {
        var bone := Preorder(tree)[i];
        PreorderValid(tree);
        if AtF(tree.items, bone).selected {
          PruneDelete(tree.items, bone);
          DeleteSize(tree.items, bone);
          tree := tree.(items := DeleteF(tree.items, bone));
          i := 0;
        } else {
          i := i + 1;
        }
      }
      PreorderCovers(tree);
      PruneIdle(tree.items);
      var oldLength, newLength := Recalculate();
      deleted := oldLength as int - newLength as int;
    }

    /** copy_bones: the clipboard holds the bones copied from the other
        file. */
    method CopyBones(copiedBones: seq<Bone>)
      modifies this`copied
      ensures copied == Some(copiedBones)
    {
      copied := Some(copiedBones);
    }

    /** on_paste. It needs exactly one selected target and a clipboard;
        otherwise nothing happens. It clears the selection, then indexes
        the names of all bones and of the target's subtree. When some copied
        bone would replace one there and the user declines (`confirm` is
        the answer), it stops with the selection cleared. Otherwise it runs
        the paste loop and renumbers the bones. */
    method OnPaste(confirm: bool)
      modifies this`tree, this`bones
      ensures |Selections(old(tree))| != 1 || old(copied).None? ==> tree == old(tree) && bones == old(bones)
      ensures |Selections(old(tree))| == 1 && old(copied).Some? ==>
        var root := Selections(old(tree))[0];
        var c0 := old(tree).(items := UnselectF(old(tree).items));
        var current := CurrentIndex(c0, root);
        var allNames := Index(c0, map[], Preorder(c0)).Keys;
        if !confirm && exists j :: 0 <= j < |old(copied).value| && old(copied).value[j].name in current
        then tree == c0 && bones == old(bones)
        else
          var pasted := PasteAll(PasteState(c0, map[]), old(copied).value, root, current, allNames).c;
          Renumbered(tree, pasted) && bones == Flatten(pasted)
    {
      var selected := Selections(tree);
      if |selected| == 0 || copied.None? {
        return;
      }
      var copiedBones := copied.value;
      if |selected| > 1 {
        return;
      }
      var root := selected[|selected| - 1];
      var rootBone := AtF(tree.items, root).bone;
      UnselectAt(tree.items, root);
      tree := tree.(items := UnselectF(tree.items));
      var allIndex := NamesIndex([], 0);
      var below := NamesIndex(root, 0);
      var current := map[rootBone.name := root] + below;
      assert current == CurrentIndex(tree, root);
      var changed := false;
      var k := 0;
      while k < |copiedBones|
        invariant 0 <= k <= |copiedBones|
        invariant changed <==> exists j :: 0 <= j < k && copiedBones[j].name in current
      {
        if copiedBones[k].name in current {
          changed := true;
        }
        k := k + 1;
      }
      if changed && !confirm {
        return;
      }
      PasteCopies(copiedBones, root, current, allIndex.Keys);
      var _, _ := Recalculate();
    }

    /** The paste loop of on_paste over the copied bones, `temp_bone_list`
        starting empty. */
    method PasteCopies(copiedBones: seq<Bone>, root: Path, current: map<string, Path>, allNames: set<string>)
      modifies this`tree
      ensures tree == PasteAll(PasteState(old(tree), map[]), copiedBones, root, current, allNames).c
    {
      tree := PasteOn(tree, copiedBones, root, current, allNames);
    }

    /** rename_func(item, bone, old_name, new_name): the row of `item`,
        whose bone already carries its new name, is labelled anew, and every
        node of every animation for the bone named `oldName` is renamed
        `newName`. */
    method RenameFunc(item: Path, oldName: string, newName: string)
      requires ValidIn(tree.items, item)
      modifies this`tree, this`animations
      ensures var b := AtF(old(tree).items, item).bone;
        tree == old(tree).(items := EditF(old(tree).items, item, ToText(Label(b.index, b.name))))
      ensures animations == RenameAnimations(old(animations), oldName, newName)
    {
      tree, animations := RenameFuncOn(tree, animations, item, oldName, newName);
    }

    /** on_rename: with bones selected, their names and the names of all
        bones go to `rename`; every object it renames takes its new name in
        its row's data and then goes through rename_func. `accepted`,
        `newName` and `subst` stand for the dialogs; the single-name dialog
        accepts only a name that is free or unchanged. */
    method OnRename(accepted: bool, newName: string, subst: string -> string)
      requires var sel := Selections(tree);
        |sel| == 1 && accepted ==>
          newName !in Index(tree, map[], Preorder(tree)).Keys || newName == NameAt(tree, sel[0])
      modifies this`tree, this`animations
      ensures var sel := Selections(old(tree));
        var objNames := NamesOf(old(tree), sel);
        var names := Index(old(tree), map[], Preorder(old(tree))).Keys;
        if sel == [] || !accepted then tree == old(tree) && animations == old(animations)
        else
          var calls := if |sel| == 1 then [RenameCall(sel[0], objNames[0], newName)]
                       else BulkRenameCalls(objNames, names, sel, subst);
          tree == RenameRows(old(tree), calls) && animations == RenameAllAnimations(old(animations), calls)
    {
      var selected := Selections(tree);
      if |selected| == 0 {
        return;
      }
      var objNames := NamesOf(tree, selected);
      var names := NamesIndex([], 0);
      var result := Rename(objNames, names.Keys, selected, accepted, newName, subst);
      if result.Unchanged? {
        return;
      }
      if |selected| != 1 {
        BulkCallsFree(objNames, names.Keys, selected, subst);
      }
      PreorderValid(tree);
      tree, animations := ApplyRenames(tree, animations, result.calls, selected);
    }

    /** check_parent(bone) */
    method CheckParent(bone: Path)
      requires bone != [] && ValidIn(tree.items, bone)
      modifies this`tree
      ensures tree == CheckUp(old(tree), bone)
    {
      tree := CheckUpOn(tree, bone);
    }

    /** on_checked for a click on `bone`, whose box the control has already
      toggled from `oldState`; the old state is read as intended (see
      OnCheckedAsWritten for the code as it stands). */
    method OnChecked(bone: Path, oldState: CheckState)
      requires ValidIn(tree.items, bone)
      modifies this`tree
      ensures tree == AfterClick(old(tree), bone, oldState == Unchecked)
    {
      tree := ClickOn(tree, bone, oldState);
    }
  }
}
