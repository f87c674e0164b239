/** The tree list control that shows the skeleton: a hidden root item whose
    children are the top-level bones, each item carrying its bone, its
    label, its check box state and whether it is selected. An item handle
    is the path of child positions leading to it from the root; the empty
    path is the root itself. Appending a child or changing an item's data
    leaves every other handle valid. */
module TreeList {
  import opened Ean

  type Path = seq<nat>

  datatype CheckState = Unchecked | Checked | Undetermined

  datatype Item = Item(bone: Bone, text: string, state: CheckState, selected: bool, children: seq<Item>)

  datatype Control = Control(rootState: CheckState, items: seq<Item>)

  // ---------------------------------------------------------------------
  // Handles
  // ---------------------------------------------------------------------

  /** `p` leads to an item of the forest `f`. */
  predicate ValidIn(f: seq<Item>, p: Path)
    decreases |p|
  {
    |p| >= 1 && p[0] < |f| && (|p| == 1 || ValidIn(f[p[0]].children, p[1..]))
  }

  function AtF(f: seq<Item>, p: Path): Item
    requires ValidIn(f, p)
    decreases |p|
  {
    if |p| == 1 then f[p[0]] else AtF(f[p[0]].children, p[1..])
  }

  /** The children of the item at `q` (the top-level items when `q` is the
      root); no children for a handle that leads nowhere. */
  function KidsF(f: seq<Item>, q: Path): seq<Item>
    decreases |q|
  {
    if q == [] then f
    else if q[0] < |f| then KidsF(f[q[0]].children, q[1..])
    else []
  }

  /** `IsOk()`: the root or an item of the control. */
  predicate IsOk(c: Control, p: Path)
  {
    p == [] || ValidIn(c.items, p)
  }

  function Parent(p: Path): Path
    requires p != []
  {
    p[..|p| - 1]
  }

  /** The j-th child of a valid handle is a valid handle, and it is that child. */
  lemma {:induction false} ChildPath(f: seq<Item>, q: Path, j: nat)
    requires q == [] || ValidIn(f, q)
    requires j < |KidsF(f, q)|
    ensures ValidIn(f, q + [j])
    ensures AtF(f, q + [j]) == KidsF(f, q)[j]
    ensures KidsF(f, q + [j]) == KidsF(f, q)[j].children
    ensures Parent(q + [j]) == q
    decreases |q|
  {
    if q != [] {
      assert (q + [j])[1..] == q[1..] + [j];
      if |q| == 1 {
        assert q[1..] == [];
        assert KidsF(f[q[0]].children, []) == f[q[0]].children;
        assert KidsF(f[q[0]].children, [j]) == KidsF(f[q[0]].children[j].children, []);
      } else {
        ChildPath(f[q[0]].children, q[1..], j);
      }
    }
  }

  /** The children of a valid handle are those of the item it leads to. */
  lemma {:induction false} KidsAt(f: seq<Item>, p: Path)
    requires ValidIn(f, p)
    ensures KidsF(f, p) == AtF(f, p).children
    decreases |p|
  {
    if |p| > 1 {
      KidsAt(f[p[0]].children, p[1..]);
    } else {
      assert p[1..] == [];
    }
  }

  /** A handle is valid exactly when it is a child position of its parent. */
  lemma {:induction false} ParentPath(f: seq<Item>, p: Path)
    requires ValidIn(f, p)
    ensures Parent(p) == [] || ValidIn(f, Parent(p))
    ensures p[|p| - 1] < |KidsF(f, Parent(p))|
    ensures AtF(f, p) == KidsF(f, Parent(p))[p[|p| - 1]]
    decreases |p|
  {
    if |p| > 1 {
      ParentPath(f[p[0]].children, p[1..]);
      assert Parent(p[1..]) == Parent(p)[1..];
      assert Parent(p) == [p[0]] + Parent(p[1..]);
      if Parent(p[1..]) == [] {
        assert Parent(p) == [p[0]];
        assert KidsF(f, Parent(p)) == KidsF(f[p[0]].children, []);
      }
    }
  }

  // ---------------------------------------------------------------------
  // Preorder: GetFirstItem / GetNextItem
  // ---------------------------------------------------------------------

  /** The handles of `it` (at handle `p`) and of its descendants, in preorder. */
  function PathsItem(it: Item, p: Path): (ps: seq<Path>)
    decreases it
  {
    [p] + PathsFrom(it.children, p, 0)
  }

  /** The handles of the items `f[j..]`, children of the item at `prefix`,
      with their descendants, in preorder. */
  function PathsFrom(f: seq<Item>, prefix: Path, j: nat): (ps: seq<Path>)
    decreases f, |f| - j
  {
    if j >= |f| then [] else PathsItem(f[j], prefix + [j]) + PathsFrom(f, prefix, j + 1)
  }

  /** Every item of the control in the order GetFirstItem / GetNextItem
      visit them. */
  function Preorder(c: Control): seq<Path>
  {
    PathsFrom(c.items, [], 0)
  }

  function SizeOf(it: Item): (n: nat)
    decreases it
  {
    1 + SizesFrom(it.children, 0)
  }

  function SizesFrom(f: seq<Item>, j: nat): (n: nat)
    decreases f, |f| - j
  {
    if j >= |f| then 0 else SizeOf(f[j]) + SizesFrom(f, j + 1)
  }

  lemma {:induction false} PathsItemLength(it: Item, p: Path)
    ensures |PathsItem(it, p)| == SizeOf(it)
    decreases it
  {
    PathsFromLength(it.children, p, 0);
  }

  lemma {:induction false} PathsFromLength(f: seq<Item>, prefix: Path, j: nat)
    ensures |PathsFrom(f, prefix, j)| == SizesFrom(f, j)
    decreases f, |f| - j
  {
    if j < |f| {
      PathsItemLength(f[j], prefix + [j]);
      PathsFromLength(f, prefix, j + 1);
    }
  }

  predicate Distinct(ps: seq<Path>)
  {
    forall a, b :: 0 <= a < b < |ps| ==> ps[a] != ps[b]
  }

  lemma DistinctConcat(xs: seq<Path>, ys: seq<Path>)
    requires Distinct(xs) && Distinct(ys)
    requires forall a, b :: 0 <= a < |xs| && 0 <= b < |ys| ==> xs[a] != ys[b]
    ensures Distinct(xs + ys)
  {
    forall a, b | 0 <= a < b < |xs + ys|
      ensures (xs + ys)[a] != (xs + ys)[b]
    {
      if b < |xs| {
      } else if a >= |xs| {
        assert (xs + ys)[a] == ys[a - |xs|] && (xs + ys)[b] == ys[b - |xs|];
      } else {
        assert (xs + ys)[b] == ys[b - |xs|];
      }
    }
  }

  /** The handles below `p` in preorder all extend `p`, start with `p`
      itself and are pairwise different. */
  lemma {:induction false} PathsItemShape(it: Item, p: Path)
    ensures var ps := PathsItem(it, p);
      ps[0] == p && Distinct(ps) &&
      (forall k :: 0 <= k < |ps| ==> |ps[k]| >= |p| && ps[k][..|p|] == p) &&
      (forall k :: 1 <= k < |ps| ==> |ps[k]| > |p|)
    decreases it
  {
    var rest := PathsFrom(it.children, p, 0);
    PathsFromShape(it.children, p, 0);
    DistinctConcat([p], rest);
    var ps := PathsItem(it, p);
    forall k | 1 <= k < |ps|
      ensures |ps[k]| > |p| && ps[k][..|p|] == p
    {
      assert ps[k] == rest[k - 1];
    }
  }

  /** The handles of `f[j..]` and their descendants all extend `prefix` by
      a position from `j` on, and are pairwise different. */
  lemma {:induction false} PathsFromShape(f: seq<Item>, prefix: Path, j: nat)
    ensures j < |f| ==> |PathsFrom(f, prefix, j)| > 0 && PathsFrom(f, prefix, j)[0] == prefix + [j]
    ensures var ps := PathsFrom(f, prefix, j);
      Distinct(ps) &&
      forall k :: 0 <= k < |ps| ==>
        |ps[k]| > |prefix| && ps[k][..|prefix|] == prefix && j <= ps[k][|prefix|] < |f|
    decreases f, |f| - j
  {
    if j < |f| {
      var p := prefix + [j];
      var head := PathsItem(f[j], p);
      var tail := PathsFrom(f, prefix, j + 1);
      PathsItemShape(f[j], p);
      PathsFromShape(f, prefix, j + 1);
      assert PathsFrom(f, prefix, j) == head + tail;
      forall k | 0 <= k < |head|
        ensures |head[k]| > |prefix| && head[k][..|prefix|] == prefix && head[k][|prefix|] == j
      {
        assert head[k][..|p|] == p;
        assert head[k][..|prefix|] == head[k][..|p|][..|prefix|];
        assert head[k][|prefix|] == head[k][..|p|][|prefix|];
      }
      DistinctConcat(head, tail);
      var ps := PathsFrom(f, prefix, j);
      assert ps == head + tail;
      forall k | 0 <= k < |ps|
        ensures |ps[k]| > |prefix| && ps[k][..|prefix|] == prefix && j <= ps[k][|prefix|] < |f|
      {
        if k >= |head| {
          assert ps[k] == tail[k - |head|];
        }
      }
    }
  }

  /** The walk over `f[j..]` starts at `f[j]`. */
  lemma PathsFromHead(f: seq<Item>, prefix: Path, j: nat)
    requires j < |f|
    ensures |PathsFrom(f, prefix, j)| > 0 && PathsFrom(f, prefix, j)[0] == prefix + [j]
  {
    assert PathsItem(f[j], prefix + [j])[0] == prefix + [j];
  }

  /** Every handle of the preorder walk below a valid handle is valid. */
  lemma {:induction false} PathsItemValid(items: seq<Item>, it: Item, p: Path)
    requires ValidIn(items, p) && AtF(items, p) == it
    ensures forall k :: 0 <= k < |PathsItem(it, p)| ==> ValidIn(items, PathsItem(it, p)[k])
    decreases it
  {
    KidsAt(items, p);
    PathsFromValid(items, it.children, p, 0);
  }

  lemma {:induction false} PathsFromValid(items: seq<Item>, f: seq<Item>, prefix: Path, j: nat)
    requires prefix == [] || ValidIn(items, prefix)
    requires f == KidsF(items, prefix)
    ensures forall k :: 0 <= k < |PathsFrom(f, prefix, j)| ==> ValidIn(items, PathsFrom(f, prefix, j)[k])
    decreases f, |f| - j
  {
    if j < |f| {
      ChildPath(items, prefix, j);
      PathsItemValid(items, f[j], prefix + [j]);
      PathsFromValid(items, f, prefix, j + 1);
    }
  }

  /** The preorder walk visits each item of the control exactly once. */
  lemma PreorderValid(c: Control)
    ensures Distinct(Preorder(c))
    ensures forall k :: 0 <= k < |Preorder(c)| ==> ValidIn(c.items, Preorder(c)[k])
  {
    PathsFromShape(c.items, [], 0);
    PathsFromValid(c.items, c.items, [], 0);
  }

  // ---------------------------------------------------------------------
  // AppendItem and CheckItemRecursively
  // ---------------------------------------------------------------------

  /** The forest with `xs` appended to the children of the item at `q`
      (to the top level when `q` is the root). */
  function Graft(f: seq<Item>, q: Path, xs: seq<Item>): (g: seq<Item>)
    ensures |g| == |f| + (if q == [] then |xs| else 0)
    decreases |q|
  {
    if q == [] then f + xs
    else if q[0] < |f| then f[q[0] := f[q[0]].(children := Graft(f[q[0]].children, q[1..], xs))]
    else f
  }

  lemma {:induction false} GraftNothing(f: seq<Item>, q: Path)
    ensures Graft(f, q, []) == f
    decreases |q|
  {
    if q != [] && q[0] < |f| {
      GraftNothing(f[q[0]].children, q[1..]);
    } else if q == [] {
      assert f + [] == f;
    }
  }

  /** Appending twice under the same item appends both runs in order. */
  lemma {:induction false} GraftGraft(f: seq<Item>, q: Path, xs: seq<Item>, ys: seq<Item>)
    ensures Graft(Graft(f, q, xs), q, ys) == Graft(f, q, xs + ys)
    decreases |q|
  {
    if q != [] && q[0] < |f| {
      GraftGraft(f[q[0]].children, q[1..], xs, ys);
    } else if q == [] {
      assert f + xs + ys == f + (xs + ys);
    }
  }

  /** Appending under a valid item extends its children and keeps it valid. */
  lemma {:induction false} GraftKids(f: seq<Item>, q: Path, xs: seq<Item>)
    requires q == [] || ValidIn(f, q)
    ensures q == [] || ValidIn(Graft(f, q, xs), q)
    ensures KidsF(Graft(f, q, xs), q) == KidsF(f, q) + xs
    decreases |q|
  {
    if q != [] {
      if |q| == 1 {
        assert q[1..] == [];
      } else {
        GraftKids(f[q[0]].children, q[1..], xs);
      }
    }
  }

  /** Appending inside an item that was itself just appended is the same as
      appending it with those children already in place. */
  lemma {:induction false} GraftInto(f: seq<Item>, q: Path, x: Item, ys: seq<Item>)
    ensures Graft(Graft(f, q, [x]), q + [|KidsF(f, q)|], ys) == Graft(f, q, [x.(children := x.children + ys)])
    decreases |q|
  {
    var m := |KidsF(f, q)|;
    if q == [] {
      assert (q + [m])[1..] == [];
      var g := f + [x];
      assert g[m] == x;
      assert Graft(g, [m], ys) == g[m := x.(children := Graft(x.children, [], ys))];
    } else if q[0] < |f| {
      assert (q + [m])[0] == q[0] && (q + [m])[1..] == q[1..] + [m];
      GraftInto(f[q[0]].children, q[1..], x, ys);
    } else {
      assert (q + [m])[0] == q[0];
    }
  }

  /** `CheckItemRecursively(item, CHK_CHECKED)` on every item of a forest. */
  function CheckAllFrom(f: seq<Item>): (g: seq<Item>)
    ensures |g| == |f|
    ensures forall k :: 0 <= k < |f| ==> g[k].state == Checked && g[k].bone == f[k].bone
    decreases f
  {
    if f == [] then [] else [CheckAllItem(f[0])] + CheckAllFrom(f[1..])
  }

  function CheckAllItem(it: Item): (r: Item)
    ensures r.state == Checked && r.bone == it.bone && |r.children| == |it.children|
    decreases it
  {
    it.(state := Checked, children := CheckAllFrom(it.children))
  }
}
