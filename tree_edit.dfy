/** Editing the items of the tree list control in place: changing one
    item's check box state, bone data or selection (CheckItem, SetItemData,
    Select), deleting an item with its descendants (DeleteItem), and what
    each leaves untouched. Handles are paths, as in TreeList. */
module TreeEdit {
  import opened Ean
  import opened TreeList

  // ---------------------------------------------------------------------
  // Item shape
  // ---------------------------------------------------------------------

  /** Two forests with the same items at the same positions, whatever the
      items hold. */
  predicate SameShape(f: seq<Item>, g: seq<Item>)
    decreases f
  {
    |f| == |g| && forall k :: 0 <= k < |f| ==> SameShape(f[k].children, g[k].children)
  }

  lemma {:induction false} ShapeRefl(f: seq<Item>)
    ensures SameShape(f, f)
    decreases f
  {
    forall k | 0 <= k < |f|
      ensures SameShape(f[k].children, f[k].children)
    {
      ShapeRefl(f[k].children);
    }
  }

  /** Forests of the same shape stay so when items of the same shape are
      put in front. */
  lemma ShapeCons(x: Item, y: Item, xs: seq<Item>, ys: seq<Item>)
    requires SameShape(x.children, y.children) && SameShape(xs, ys)
    ensures SameShape([x] + xs, [y] + ys)
  {
    forall k | 0 <= k < |[x] + xs|
      ensures SameShape(([x] + xs)[k].children, ([y] + ys)[k].children)
    {
      if k > 0 {
        assert ([x] + xs)[k] == xs[k - 1] && ([y] + ys)[k] == ys[k - 1];
      }
    }
  }

  lemma {:induction false} ShapeTrans(f: seq<Item>, g: seq<Item>, h: seq<Item>)
    requires SameShape(f, g) && SameShape(g, h)
    ensures SameShape(f, h)
    decreases f
  {
    forall k | 0 <= k < |f|
      ensures SameShape(f[k].children, h[k].children)
    {
      ShapeTrans(f[k].children, g[k].children, h[k].children);
    }
  }

  lemma {:induction false} ShapeSym(f: seq<Item>, g: seq<Item>)
    requires SameShape(f, g)
    ensures SameShape(g, f)
    decreases f
  {
    forall k | 0 <= k < |g|
      ensures SameShape(g[k].children, f[k].children)
    {
      ShapeSym(f[k].children, g[k].children);
    }
  }

  /** Forests of the same shape have the same handles, and the same number
      of children under each. */
  lemma {:induction false} ShapeValid(f: seq<Item>, g: seq<Item>, q: Path)
    requires SameShape(f, g)
    ensures ValidIn(f, q) == ValidIn(g, q)
    ensures SameShape(KidsF(f, q), KidsF(g, q))
    decreases |q|
  {
    if q != [] && q[0] < |f| {
      ShapeValid(f[q[0]].children, g[q[0]].children, q[1..]);
    }
  }

  /** ... and the same preorder walk. */
  lemma {:induction false} ShapePathsItem(a: Item, b: Item, p: Path)
    requires SameShape(a.children, b.children)
    ensures PathsItem(a, p) == PathsItem(b, p)
    decreases a
  {
    ShapePathsFrom(a.children, b.children, p, 0);
  }

  lemma {:induction false} ShapePathsFrom(f: seq<Item>, g: seq<Item>, prefix: Path, j: nat)
    requires SameShape(f, g)
    ensures PathsFrom(f, prefix, j) == PathsFrom(g, prefix, j)
    decreases f, |f| - j
  {
    if j < |f| {
      ShapePathsItem(f[j], g[j], prefix + [j]);
      ShapePathsFrom(f, g, prefix, j + 1);
    }
  }

  // ---------------------------------------------------------------------
  // Changing one item
  // ---------------------------------------------------------------------

  /** A change to one item's own data: its check box (CheckItem), its bone
      (SetItemData), its selection (Select / Unselect) or its label
      (SetItemText). */
  datatype Edit = ToState(s: CheckState) | ToBone(b: Bone) | ToSelected(sel: bool) | ToText(t: string)

  function Apply(it: Item, e: Edit): (r: Item)
    ensures r.children == it.children
  {
    match e
    case ToState(s) => it.(state := s)
    case ToBone(b) => it.(bone := b)
    case ToSelected(sel) => it.(selected := sel)
    case ToText(t) => it.(text := t)
  }

  /** An item without its children: what the control shows on its row. */
  function Head(it: Item): Item
  {
    it.(children := [])
  }

  /** The forest with the edit applied to the item at `p` (no change when
      `p` leads nowhere). */
  function EditF(f: seq<Item>, p: Path, e: Edit): (g: seq<Item>)
    ensures |g| == |f|
    decreases |p|
  {
    if p == [] || p[0] >= |f| then f
    else if |p| == 1 then f[p[0] := Apply(f[p[0]], e)]
    else f[p[0] := f[p[0]].(children := EditF(f[p[0]].children, p[1..], e))]
  }

  /** An edit changes no handle. */
  lemma {:induction false} EditShape(f: seq<Item>, p: Path, e: Edit)
    ensures SameShape(EditF(f, p, e), f)
    decreases |p|
  {
    var g := EditF(f, p, e);
    forall k | 0 <= k < |g|
      ensures SameShape(g[k].children, f[k].children)
    {
      if p != [] && p[0] == k && |p| > 1 {
        EditShape(f[k].children, p[1..], e);
      } else {
        ShapeRefl(f[k].children);
      }
    }
  }

  /** An edit changes the row of the item at `p`, and no other row. */
  lemma {:induction false} EditAt(f: seq<Item>, p: Path, e: Edit, q: Path)
    requires ValidIn(f, q)
    ensures ValidIn(EditF(f, p, e), q)
    ensures Head(AtF(EditF(f, p, e), q)) == if q == p then Head(Apply(AtF(f, q), e)) else Head(AtF(f, q))
    decreases |q|
  {
    var g := EditF(f, p, e);
    var i := q[0];
    if p == [] || p[0] >= |f| || p[0] != i {
      assert g[i] == f[i];
      if |q| > 1 {
        assert AtF(g, q) == AtF(f, q);
      }
    } else if |p| == 1 {
      if |q| > 1 {
        assert q != p;
        assert AtF(g, q) == AtF(f[i].children, q[1..]);
      } else {
        assert q == p;
      }
    } else {
      if |q| > 1 {
        EditAt(f[i].children, p[1..], e, q[1..]);
        assert q == p <==> q[1..] == p[1..] by {
          if q[1..] == p[1..] {
            assert q == [i] + q[1..] && p == [i] + p[1..];
          }
        }
      } else {
        assert q != p;
      }
    }
  }

  // ---------------------------------------------------------------------
  // Check box states
  // ---------------------------------------------------------------------

  /** `GetCheckedState(p)`: the hidden root's state for the root handle. */
  function StateOf(c: Control, p: Path): CheckState
  {
    if p == [] then c.rootState
    else if ValidIn(c.items, p) then AtF(c.items, p).state
    else Unchecked
  }

  /** `CheckItem(p, s)`: only that item's box, not its descendants'. */
  function SetState(c: Control, p: Path, s: CheckState): Control
  {
    if p == [] then c.(rootState := s) else c.(items := EditF(c.items, p, ToState(s)))
  }

  /** `CheckItem` changes no handle, and the hidden root's state only when
      it is the item checked. */
  lemma SetStateShape(c: Control, p: Path, s: CheckState)
    ensures SameShape(SetState(c, p, s).items, c.items)
    ensures p != [] ==> SetState(c, p, s).rootState == c.rootState
  {
    if p == [] {
      ShapeRefl(c.items);
    } else {
      EditShape(c.items, p, ToState(s));
    }
  }

  /** `AreAllChildrenInState(q, s)`: every direct child of `q` is in `s`. */
  predicate AllChildrenIn(c: Control, q: Path, s: CheckState)
  {
    forall k :: 0 <= k < |KidsF(c.items, q)| ==> KidsF(c.items, q)[k].state == s
  }

  /** The state of a child is the state read through its handle. */
  lemma ChildStates(c: Control, q: Path)
    requires IsOk(c, q)
    ensures forall k :: 0 <= k < |KidsF(c.items, q)| ==>
      IsOk(c, q + [k]) && KidsF(c.items, q)[k].state == StateOf(c, q + [k])
  {
    forall k | 0 <= k < |KidsF(c.items, q)|
      ensures IsOk(c, q + [k]) && KidsF(c.items, q)[k].state == StateOf(c, q + [k])
    {
      ChildPath(c.items, q, k);
    }
  }

  /** CheckItem changes the state read at `p` and no other state, keeps every
      handle, and changes nothing else on any row. */
  lemma SetStateOf(c: Control, p: Path, s: CheckState, q: Path)
    requires IsOk(c, q)
    ensures var d := SetState(c, p, s);
      IsOk(d, q) && StateOf(d, q) == (if q == p then s else StateOf(c, q)) &&
      SameShape(d.items, c.items) &&
      (q != [] ==> AtF(d.items, q).bone == AtF(c.items, q).bone &&
                   AtF(d.items, q).selected == AtF(c.items, q).selected &&
                   AtF(d.items, q).text == AtF(c.items, q).text)
  {
    var d := SetState(c, p, s);
    if p == [] {
      ShapeRefl(c.items);
    } else {
      EditShape(c.items, p, ToState(s));
      if q != [] {
        EditAt(c.items, p, ToState(s), q);
        var a, b := AtF(c.items, q), AtF(d.items, q);
        assert Head(b) == if q == p then Head(a.(state := s)) else Head(a);
        assert b.state == Head(b).state && b.bone == Head(b).bone;
      }
    }
  }

  /** CheckItem on an item that is not a child of `q` leaves the answer of
      AreAllChildrenInState(q, t) as it was. */
  lemma SetStateChildren(c: Control, p: Path, s: CheckState, q: Path, t: CheckState)
    requires IsOk(c, q)
    requires p == [] || |p| != |q| + 1 || p[..|q|] != q
    ensures AllChildrenIn(SetState(c, p, s), q, t) == AllChildrenIn(c, q, t)
  {
    var d := SetState(c, p, s);
    SetStateOf(c, p, s, q);
    ShapeValid(d.items, c.items, q);
    ChildStates(c, q);
    ChildStates(d, q);
    forall k | 0 <= k < |KidsF(c.items, q)|
      ensures StateOf(d, q + [k]) == StateOf(c, q + [k])
    {
      SetStateOf(c, p, s, q + [k]);
      assert (q + [k])[..|q|] == q;
    }
  }

  // ---------------------------------------------------------------------
  // Selection
  // ---------------------------------------------------------------------

  /** The item at `p` is selected. */
  predicate IsSelected(c: Control, p: Path)
  {
    ValidIn(c.items, p) && AtF(c.items, p).selected
  }

  /** The handles of `ps` whose items are selected, in order. */
  function SelectedIn(c: Control, ps: seq<Path>): (r: seq<Path>)
    ensures forall k :: 0 <= k < |r| ==> r[k] in ps && IsSelected(c, r[k])
    ensures forall p :: p in ps && IsSelected(c, p) ==> p in r
  {
    if ps == [] then []
    else (if IsSelected(c, ps[0]) then [ps[0]] else []) + SelectedIn(c, ps[1..])
  }

  /** `GetSelections()`, in the order of the preorder walk. */
  function Selections(c: Control): seq<Path>
  {
    SelectedIn(c, Preorder(c))
  }

  /** CheckItem(s, state) for every handle of `ps`, in order. */
  function SetAll(c: Control, ps: seq<Path>, s: CheckState): Control
    decreases |ps|
  {
    if ps == [] then c else SetAll(SetState(c, ps[0], s), ps[1..], s)
  }

  /** After setting every handle of `ps`, those read `s` and the others are
      as they were; no handle and no other part of a row changes. */
  lemma {:induction false} SetAllOf(c: Control, ps: seq<Path>, s: CheckState, q: Path)
    requires IsOk(c, q)
    ensures var d := SetAll(c, ps, s);
      IsOk(d, q) && StateOf(d, q) == (if q in ps then s else StateOf(c, q)) &&
      SameShape(d.items, c.items)
    decreases |ps|
  {
    if ps != [] {
      var c1 := SetState(c, ps[0], s);
      SetStateOf(c, ps[0], s, q);
      SetAllOf(c1, ps[1..], s, q);
      ShapeTrans(SetAll(c1, ps[1..], s).items, c1.items, c.items);
      assert ps == [ps[0]] + ps[1..];
    } else {
      ShapeRefl(c.items);
    }
  }

  /** Every ancestor of an item is the root or an item. */
  lemma {:induction false} PrefixValid(f: seq<Item>, a: Path, r: nat)
    requires ValidIn(f, a) && r <= |a|
    ensures r == 0 || ValidIn(f, a[..r])
    decreases |a|
  {
    if r > 1 {
      PrefixValid(f[a[0]].children, a[1..], r - 1);
      assert a[..r][1..] == a[1..][..r - 1];
    }
  }

  // ---------------------------------------------------------------------
  // Deleting
  // ---------------------------------------------------------------------

  /** `DeleteItem(p)`: the item at `p` goes, with all its descendants. */
  function DeleteF(f: seq<Item>, p: Path): seq<Item>
    requires ValidIn(f, p)
    decreases |p|
  {
    var i := p[0];
    if |p| == 1 then f[..i] + f[i + 1..]
    else f[i := f[i].(children := DeleteF(f[i].children, p[1..]))]
  }

  lemma {:induction false} SizesShift(a: seq<Item>, b: seq<Item>, t: nat)
    ensures SizesFrom(a + b, |a| + t) == SizesFrom(b, t)
    decreases |b| - t
  {
    if t < |b| {
      assert (a + b)[|a| + t] == b[t];
      SizesShift(a, b, t + 1);
    }
  }

  lemma {:induction false} SizesConcatFrom(a: seq<Item>, b: seq<Item>, j: nat)
    requires j <= |a|
    ensures SizesFrom(a + b, j) == SizesFrom(a, j) + SizesFrom(b, 0)
    decreases |a| - j
  {
    if j == |a| {
      SizesShift(a, b, 0);
    } else {
      assert (a + b)[j] == a[j];
      SizesConcatFrom(a, b, j + 1);
    }
  }

  /** The number of items of a forest is additive. */
  lemma SizesConcat(a: seq<Item>, b: seq<Item>)
    ensures SizesFrom(a + b, 0) == SizesFrom(a, 0) + SizesFrom(b, 0)
  {
    SizesConcatFrom(a, b, 0);
  }

  /** Deleting an item leaves fewer items. */
  lemma {:induction false} DeleteSize(f: seq<Item>, p: Path)
    requires ValidIn(f, p)
    ensures SizesFrom(DeleteF(f, p), 0) < SizesFrom(f, 0)
    decreases |p|
  {
    var i := p[0];
    var x, pre, post := f[i], f[..i], f[i + 1..];
    assert SizesFrom(f, 0) == SizesFrom(pre, 0) + SizeOf(x) + SizesFrom(post, 0) by {
      assert f == pre + ([x] + post);
      SizesSplice(pre, x, post);
    }
    if |p| == 1 {
      assert DeleteF(f, p) == pre + post;
      SizesConcat(pre, post);
    } else {
      var y := x.(children := DeleteF(x.children, p[1..]));
      assert SizeOf(y) < SizeOf(x) by { DeleteSize(x.children, p[1..]); }
      assert DeleteF(f, p) == pre + ([y] + post) by { UpdateSplice(f, i, y); }
      SizesSplice(pre, y, post);
    }
  }

  /** The sizes of an item between two forests. */
  lemma SizesSplice(pre: seq<Item>, z: Item, post: seq<Item>)
    ensures SizesFrom(pre + ([z] + post), 0) == SizesFrom(pre, 0) + SizeOf(z) + SizesFrom(post, 0)
  {
    SizesConcat(pre, [z] + post);
    SizesConcat([z], post);
    assert SizesFrom([z], 0) == SizeOf(z);
  }

  /** Replacing the element at `i`, as a splice. */
  lemma UpdateSplice<T>(f: seq<T>, i: nat, y: T)
    requires i < |f|
    ensures f[i := y] == f[..i] + ([y] + f[i + 1..])
  {
    var g := f[..i] + ([y] + f[i + 1..]);
    forall k | 0 <= k < |f|
      ensures f[i := y][k] == g[k]
    {
      if k > i {
        assert g[k] == f[i + 1..][k - i - 1];
      }
    }
  }

  // ---------------------------------------------------------------------
  // Appending
  // ---------------------------------------------------------------------

  /** AppendItem leaves every existing handle valid and its row as it was. */
  lemma {:induction false} GraftKeeps(f: seq<Item>, q: Path, xs: seq<Item>, p: Path)
    requires ValidIn(f, p)
    ensures ValidIn(Graft(f, q, xs), p) && Head(AtF(Graft(f, q, xs), p)) == Head(AtF(f, p))
    decreases |p|
  {
    var g := Graft(f, q, xs);
    var i := p[0];
    if q == [] || q[0] >= |f| || q[0] != i {
      assert g[i] == f[i];
      if |p| > 1 {
        assert AtF(g, p) == AtF(g[i].children, p[1..]);
      }
    } else if |p| > 1 {
      GraftKeeps(f[i].children, q[1..], xs, p[1..]);
    }
  }

  /** AppendItem(q, x): `x` becomes the last child of `q`, reached through
      the next free child number. */
  lemma GraftNew(f: seq<Item>, q: Path, x: Item)
    requires q == [] || ValidIn(f, q)
    ensures ValidIn(Graft(f, q, [x]), q + [|KidsF(f, q)|])
    ensures AtF(Graft(f, q, [x]), q + [|KidsF(f, q)|]) == x
  {
    var g := Graft(f, q, [x]);
    GraftKids(f, q, [x]);
    ChildPath(g, q, |KidsF(f, q)|);
  }

  /** A valid child handle numbers one of the existing children. */
  lemma ChildBound(f: seq<Item>, q: Path, j: nat)
    requires ValidIn(f, q + [j])
    ensures j < |KidsF(f, q)|
  {
    ParentPath(f, q + [j]);
    assert Parent(q + [j]) == q;
  }
}
