/** The bone panel's renumbering: `recalculate_bone_tree` turns the tree
    back into a bone list with index, parent, child and sibling links,
    `get_bone_tree` walks those links, and building the tree from the
    renumbered list gives back the same tree. */
module BoneMain {
  import opened PyStr
  import opened Ean
  import opened TreeList
  import opened TreeEdit
  import opened Helpers

  // ---------------------------------------------------------------------
  // recalculate_bone_tree
  // ---------------------------------------------------------------------

  /** The bone of `it` numbered `b`, with the given parent and next-sibling
      numbers; its first child, when it has one, comes right after it. */
  function LinkedBone(it: Item, b: nat, parent: nat, sib: nat): (r: Bone)
    ensures r.name == it.bone.name && r.index == b
  {
    it.bone.(index := b, parentIndex := parent,
             childIndex := if it.children == [] then NONE else b + 1,
             siblingIndex := sib)
  }

  /** Number of the item after `f[j]` and its descendants, or NONE when
      `f[j]` is the last child. */
  function SiblingOf(f: seq<Item>, j: nat, b: nat): nat
    requires j < |f|
  {
    if j + 1 < |f| then b + SizeOf(f[j]) else NONE
  }

  /** The bones of `it` and its descendants, numbered from `b` in preorder. */
  function FlattenItem(it: Item, b: nat, parent: nat, sib: nat): seq<Bone>
    decreases it
  {
    [LinkedBone(it, b, parent, sib)] + FlattenFrom(it.children, 0, b + 1, b)
  }

  /** The bones of `f[j..]` (children of the bone numbered `parent`) and
      their descendants, numbered from `b` in preorder. */
  function FlattenFrom(f: seq<Item>, j: nat, b: nat, parent: nat): seq<Bone>
    decreases f, |f| - j
  {
    if j >= |f| then []
    else FlattenItem(f[j], b, parent, SiblingOf(f, j, b)) + FlattenFrom(f, j + 1, b + SizeOf(f[j]), parent)
  }

  /** The bone list recalculate_bone_tree produces for the tree. */
  function Flatten(c: Control): seq<Bone>
  {
    FlattenFrom(c.items, 0, 0, NONE)
  }

  /** The handles the renumbering reads for the item at `p`: its parent
      (unless that is the root), its first child and its next sibling, when
      they exist, all have a number in `m`. */
  predicate NavIn(c: Control, p: Path, m: map<Path, nat>)
    requires ValidIn(c.items, p)
  {
    var q := Parent(p);
    var last := p[|p| - 1];
    (q != [] ==> q in m) &&
    (AtF(c.items, p).children != [] ==> p + [0] in m) &&
    (last + 1 < |KidsF(c.items, q)| ==> q + [last + 1] in m)
  }

  /** The bone of the item at `p` as the second pass of
      recalculate_bone_tree writes it, given the numbers `m` of the first
      pass: the numbers of its parent (NONE under the root), first child
      and next sibling (NONE when missing). */
  function Linked(c: Control, p: Path, m: map<Path, nat>, i: nat): (r: Bone)
    requires ValidIn(c.items, p) && NavIn(c, p, m)
    ensures r.name == AtF(c.items, p).bone.name && r.index == i
  {
    var it := AtF(c.items, p);
    var q := Parent(p);
    var last := p[|p| - 1];
    it.bone.(index := i,
             parentIndex := if q != [] then m[q] else NONE,
             childIndex := if it.children != [] then m[p + [0]] else NONE,
             siblingIndex := if last + 1 < |KidsF(c.items, q)| then m[q + [last + 1]] else NONE)
  }

  /** `recalculate_bone_tree`: the first walk numbers the items in preorder,
      the second reads back, for each item, the numbers of its parent,
      first child and next sibling and collects the bones in that order.
      The new list is the control's flattening; the old and new lengths are
      returned as the source does. */
  method RecalculateBoneTree(c: Control, oldBones: seq<Bone>)
    returns (bones: seq<Bone>, oldLength: nat, newLength: nat)
    ensures bones == Flatten(c)
    ensures oldLength == |oldBones| && newLength == |bones| == |Preorder(c)|
  {
    var order := Preorder(c);
    PreorderValid(c);
    var number: map<Path, nat> := map[];
    var index := 0;
    while index < |order|
      invariant 0 <= index <= |order|
      invariant forall k :: 0 <= k < index ==> order[k] in number && number[order[k]] == k
    {
      number := number[order[index] := index];
      index := index + 1;
    }
    assert |Flatten(c)| == |order| by { FlattenMatches(c, number); }
    bones := [];
    var i := 0;
    while i < |order|
      invariant 0 <= i <= |order|
      invariant bones == Flatten(c)[..i]
    {
      FlattenAt(c, number, i);
      var p: Path := order[i];
      var it := AtF(c.items, p);
      var q: Path := Parent(p);
      var last := p[|p| - 1];
      var parentIndex := if q != [] then number[q] else NONE;
      var childIndex := if it.children != [] then number[p + [0]] else NONE;
      var siblingIndex := if last + 1 < |KidsF(c.items, q)| then number[q + [last + 1]] else NONE;
      var bone := it.bone.(index := i, parentIndex := parentIndex,
                           childIndex := childIndex, siblingIndex := siblingIndex);
      assert bone == Linked(c, p, number, i);
      bones := bones + [bone];
      i := i + 1;
    }
    assert Flatten(c)[..i] == Flatten(c);
    oldLength := |oldBones|;
    newLength := |bones|;
  }

  /** `m` numbers the handles `ps` consecutively from `b`. */
  predicate NumbersFrom(ps: seq<Path>, m: map<Path, nat>, b: nat)
  {
    forall k :: 0 <= k < |ps| ==> ps[k] in m && m[ps[k]] == b + k
  }

  /** `bs` is what the second walk writes for the handles `ps`, numbered
      from `b`. */
  predicate LinkedFrom(c: Control, ps: seq<Path>, bs: seq<Bone>, m: map<Path, nat>, b: nat)
  {
    |bs| == |ps| &&
    forall k :: 0 <= k < |ps| ==>
      ValidIn(c.items, ps[k]) && NavIn(c, ps[k], m) && bs[k] == Linked(c, ps[k], m, b + k)
  }

  lemma NumberedSplit(xs: seq<Path>, ys: seq<Path>, m: map<Path, nat>, b: nat)
    requires NumbersFrom(xs + ys, m, b)
    ensures NumbersFrom(xs, m, b) && NumbersFrom(ys, m, b + |xs|)
  {
    forall k | 0 <= k < |xs|
      ensures xs[k] in m && m[xs[k]] == b + k
    {
      assert (xs + ys)[k] == xs[k];
    }
    forall k | 0 <= k < |ys|
      ensures ys[k] in m && m[ys[k]] == b + |xs| + k
    {
      assert (xs + ys)[|xs| + k] == ys[k];
    }
  }

  lemma LinkedConcat(c: Control, xs: seq<Path>, xb: seq<Bone>, ys: seq<Path>, yb: seq<Bone>,
                     m: map<Path, nat>, b: nat)
    requires LinkedFrom(c, xs, xb, m, b) && LinkedFrom(c, ys, yb, m, b + |xs|)
    ensures LinkedFrom(c, xs + ys, xb + yb, m, b)
  {
    var ps, bs := xs + ys, xb + yb;
    forall k | 0 <= k < |ps|
      ensures ValidIn(c.items, ps[k]) && NavIn(c, ps[k], m) && bs[k] == Linked(c, ps[k], m, b + k)
    {
      if k >= |xs| {
        assert ps[k] == ys[k - |xs|] && bs[k] == yb[k - |xs|];
      } else {
        assert ps[k] == xs[k] && bs[k] == xb[k];
      }
    }
  }

  /** The two walks of recalculate_bone_tree compute the flattening: given
      the preorder numbering, the bone each item gets is its entry. */
  lemma FlattenMatches(c: Control, m: map<Path, nat>)
    requires forall k :: 0 <= k < |Preorder(c)| ==> Preorder(c)[k] in m && m[Preorder(c)[k]] == k
    ensures |Flatten(c)| == |Preorder(c)|
    ensures forall k :: 0 <= k < |Preorder(c)| ==>
      ValidIn(c.items, Preorder(c)[k]) && NavIn(c, Preorder(c)[k], m) &&
      Flatten(c)[k] == Linked(c, Preorder(c)[k], m, k)
  {
    assert NumbersFrom(Preorder(c), m, 0);
    BridgeFrom(c, c.items, [], 0, 0, NONE, m);
    assert LinkedFrom(c, Preorder(c), Flatten(c), m, 0);
  }

  /** FlattenMatches at one position of the preorder. */
  lemma FlattenAt(c: Control, m: map<Path, nat>, i: nat)
    requires forall k :: 0 <= k < |Preorder(c)| ==> Preorder(c)[k] in m && m[Preorder(c)[k]] == k
    requires i < |Preorder(c)|
    ensures i < |Flatten(c)| && ValidIn(c.items, Preorder(c)[i]) && NavIn(c, Preorder(c)[i], m)
    ensures Flatten(c)[i] == Linked(c, Preorder(c)[i], m, i)
  {
    FlattenMatches(c, m);
  }

  lemma {:induction false} BridgeItem(c: Control, it: Item, p: Path, b: nat, parent: nat, sib: nat,
                                      m: map<Path, nat>)
    requires ValidIn(c.items, p) && AtF(c.items, p) == it
    requires Parent(p) == [] ==> parent == NONE
    requires Parent(p) != [] ==> Parent(p) in m && m[Parent(p)] == parent
    requires var q, last := Parent(p), p[|p| - 1];
      if last + 1 < |KidsF(c.items, q)| then q + [last + 1] in m && m[q + [last + 1]] == sib
      else sib == NONE
    requires NumbersFrom(PathsItem(it, p), m, b)
    ensures LinkedFrom(c, PathsItem(it, p), FlattenItem(it, b, parent, sib), m, b)
    decreases it
  {
    var ps := PathsItem(it, p);
    var rest := PathsFrom(it.children, p, 0);
    assert ps == [p] + rest;
    NumberedSplit([p], rest, m, b);
    assert [p][0] == p;
    KidsAt(c.items, p);
    if it.children != [] {
      PathsFromHead(it.children, p, 0);
    }
    assert LinkedFrom(c, [p], [LinkedBone(it, b, parent, sib)], m, b);
    BridgeFrom(c, it.children, p, 0, b + 1, b, m);
    LinkedConcat(c, [p], [LinkedBone(it, b, parent, sib)], rest, FlattenFrom(it.children, 0, b + 1, b), m, b);
  }

  lemma {:induction false} BridgeFrom(c: Control, f: seq<Item>, prefix: Path, j: nat, b: nat, parent: nat,
                                      m: map<Path, nat>)
    requires prefix == [] || ValidIn(c.items, prefix)
    requires f == KidsF(c.items, prefix)
    requires prefix == [] ==> parent == NONE
    requires prefix != [] ==> prefix in m && m[prefix] == parent
    requires NumbersFrom(PathsFrom(f, prefix, j), m, b)
    ensures LinkedFrom(c, PathsFrom(f, prefix, j), FlattenFrom(f, j, b, parent), m, b)
    decreases f, |f| - j
  {
    if j < |f| {
      var p := prefix + [j];
      var head := PathsItem(f[j], p);
      var tail := PathsFrom(f, prefix, j + 1);
      assert PathsFrom(f, prefix, j) == head + tail;
      NumberedSplit(head, tail, m, b);
      ChildPath(c.items, prefix, j);
      PathsItemLength(f[j], p);
      var sib := SiblingOf(f, j, b);
      if j + 1 < |f| {
        PathsFromHead(f, prefix, j + 1);
      }
      assert p[|p| - 1] == j;
      BridgeItem(c, f[j], p, b, parent, sib, m);
      BridgeFrom(c, f, prefix, j + 1, b + SizeOf(f[j]), parent, m);
      LinkedConcat(c, head, FlattenItem(f[j], b, parent, sib),
                   tail, FlattenFrom(f, j + 1, b + SizeOf(f[j]), parent), m, b);
    }
  }

  // ---------------------------------------------------------------------
  // Properties of the renumbered list
  // ---------------------------------------------------------------------

  /** The links of `bs`, numbered from `b`: each bone carries its own
      number, its parent comes before it, its first child right after it
      and its next sibling after it, below `e`. */
  predicate LinksFrom(bs: seq<Bone>, b: nat, e: nat)
  {
    forall k :: 0 <= k < |bs| ==>
      bs[k].index == b + k &&
      (bs[k].parentIndex == NONE || bs[k].parentIndex < b + k) &&
      (bs[k].childIndex == NONE || (bs[k].childIndex == b + k + 1 && k + 1 < |bs|)) &&
      (bs[k].siblingIndex == NONE || b + k < bs[k].siblingIndex < e)
  }

  lemma LinksConcat(xs: seq<Bone>, ys: seq<Bone>, b: nat, e: nat, e': nat)
    requires LinksFrom(xs, b, e) && LinksFrom(ys, b + |xs|, e') && e' <= e
    ensures LinksFrom(xs + ys, b, e)
  {
    var bs := xs + ys;
    forall k | 0 <= k < |bs|
      ensures bs[k].index == b + k &&
        (bs[k].parentIndex == NONE || bs[k].parentIndex < b + k) &&
        (bs[k].childIndex == NONE || (bs[k].childIndex == b + k + 1 && k + 1 < |bs|)) &&
        (bs[k].siblingIndex == NONE || b + k < bs[k].siblingIndex < e)
    {
      if k >= |xs| {
        assert bs[k] == ys[k - |xs|];
      } else {
        assert bs[k] == xs[k];
      }
    }
  }

  lemma {:induction false} FlattenItemLinks(it: Item, b: nat, parent: nat, sib: nat, e: nat)
    requires parent == NONE || parent < b
    requires sib == NONE || (sib == b + SizeOf(it) && sib < e)
    requires b + SizeOf(it) <= e
    ensures |FlattenItem(it, b, parent, sib)| == SizeOf(it)
    ensures LinksFrom(FlattenItem(it, b, parent, sib), b, e)
    decreases it
  {
    FlattenFromLinks(it.children, 0, b + 1, b);
    var head := [LinkedBone(it, b, parent, sib)];
    var rest := FlattenFrom(it.children, 0, b + 1, b);
    if it.children != [] {
      assert SizesFrom(it.children, 0) >= SizeOf(it.children[0]) >= 1;
    }
    LinksConcatHead(head, rest, b, e);
  }

  /** An item's own bone, whose first child (if any) starts the run after it. */
  lemma LinksConcatHead(head: seq<Bone>, rest: seq<Bone>, b: nat, e: nat)
    requires |head| == 1 && head[0].index == b
    requires head[0].parentIndex == NONE || head[0].parentIndex < b
    requires head[0].childIndex == NONE || (head[0].childIndex == b + 1 && |rest| >= 1)
    requires head[0].siblingIndex == NONE || b < head[0].siblingIndex < e
    requires LinksFrom(rest, b + 1, b + 1 + |rest|) && b + 1 + |rest| <= e
    ensures LinksFrom(head + rest, b, e)
  {
    var bs := head + rest;
    forall k | 0 <= k < |bs|
      ensures bs[k].index == b + k &&
        (bs[k].parentIndex == NONE || bs[k].parentIndex < b + k) &&
        (bs[k].childIndex == NONE || (bs[k].childIndex == b + k + 1 && k + 1 < |bs|)) &&
        (bs[k].siblingIndex == NONE || b + k < bs[k].siblingIndex < e)
    {
      if k >= 1 {
        assert bs[k] == rest[k - 1];
      }
    }
  }

  lemma {:induction false} FlattenFromLinks(f: seq<Item>, j: nat, b: nat, parent: nat)
    requires parent == NONE || parent < b
    ensures |FlattenFrom(f, j, b, parent)| == SizesFrom(f, j)
    ensures LinksFrom(FlattenFrom(f, j, b, parent), b, b + SizesFrom(f, j))
    decreases f, |f| - j
  {
    if j < |f| {
      var sib := SiblingOf(f, j, b);
      var e := b + SizesFrom(f, j);
      if j + 1 < |f| {
        assert SizesFrom(f, j + 1) >= SizeOf(f[j + 1]) >= 1;
      }
      FlattenItemLinks(f[j], b, parent, sib, e);
      FlattenFromLinks(f, j + 1, b + SizeOf(f[j]), parent);
      LinksConcat(FlattenItem(f[j], b, parent, sib), FlattenFrom(f, j + 1, b + SizeOf(f[j]), parent), b, e, e);
    }
  }

  /** After recalculate_bone_tree every bone carries its position, a parent
      before it (or NONE), its first child right after it (or NONE) and its
      next sibling after it (or NONE): the order build_bone_tree relies on. */
  lemma FlattenLinks(c: Control)
    ensures |Flatten(c)| == |Preorder(c)|
    ensures forall k :: 0 <= k < |Flatten(c)| ==>
      Flatten(c)[k].index == k &&
      (Flatten(c)[k].parentIndex == NONE || Flatten(c)[k].parentIndex < k) &&
      (Flatten(c)[k].childIndex == NONE || Flatten(c)[k].childIndex == k + 1 < |Flatten(c)|) &&
      (Flatten(c)[k].siblingIndex == NONE || k < Flatten(c)[k].siblingIndex < |Flatten(c)|)
  {
    FlattenFromLinks(c.items, 0, 0, NONE);
    PathsFromLength(c.items, [], 0);
  }

  /** Every link of a renumbered list points forward and inside it. */
  lemma FlattenForward(c: Control)
    ensures ForwardLinks(Flatten(c))
  {
    FlattenLinks(c);
  }

  /** The run of `f[j]` splits into its own bone, its descendants' run and
      the run of its later siblings. */
  lemma FlattenFromParts(f: seq<Item>, j: nat, b: nat, parent: nat)
    requires j < |f| && (parent == NONE || parent < b)
    ensures var n, run := SizeOf(f[j]), FlattenFrom(f, j, b, parent);
      |run| == SizesFrom(f, j) == n + SizesFrom(f, j + 1) &&
      run[0] == LinkedBone(f[j], b, parent, SiblingOf(f, j, b)) &&
      run[1..n] == FlattenFrom(f[j].children, 0, b + 1, b) &&
      run[n..] == FlattenFrom(f, j + 1, b + n, parent)
  {
    var it := f[j];
    var n := SizeOf(it);
    FlattenFromLinks(it.children, 0, b + 1, b);
    FlattenFromLinks(f, j + 1, b + n, parent);
    var kids := FlattenFrom(it.children, 0, b + 1, b);
    var later := FlattenFrom(f, j + 1, b + n, parent);
    var run := FlattenFrom(f, j, b, parent);
    assert FlattenItem(it, b, parent, SiblingOf(f, j, b)) == [LinkedBone(it, b, parent, SiblingOf(f, j, b))] + kids;
    assert run == [LinkedBone(it, b, parent, SiblingOf(f, j, b))] + kids + later;
    assert |kids| == n - 1;
    assert run[1..n] == kids;
    assert run[n..] == later;
  }

  /** One call of get_bone_tree on a bone whose descendants fill
      `w[b + 1..b + n]` and whose later siblings fill `w[b + n..e]`. */
  lemma WalkStep(w: seq<Bone>, b: nat, n: nat, e: nat)
    requires ForwardLinks(w) && 1 <= n && b + n <= e <= |w|
    requires w[b].childIndex == NONE ==> n == 1
    requires w[b].childIndex != NONE ==> w[b].childIndex == b + 1 && GetBoneTree(w, b + 1) == w[b + 1..b + n]
    requires w[b].siblingIndex == NONE ==> b + n == e
    requires w[b].siblingIndex != NONE ==> w[b].siblingIndex == b + n && GetBoneTree(w, b + n) == w[b + n..e]
    ensures GetBoneTree(w, b) == w[b..e]
  {
    var kids, rest := w[b + 1..b + n], w[b + n..e];
    assert GetBoneTree(w, b) == [w[b]] + kids + rest by {
      if w[b].childIndex == NONE {
        assert kids == [];
      }
      if w[b].siblingIndex == NONE {
        assert rest == [];
      }
    }
    SliceThree(w, b, b + n, e);
  }

  /** A slice that starts at `b` is its head, then up to `m`, then the rest. */
  lemma SliceThree<T>(w: seq<T>, b: nat, m: nat, e: nat)
    requires b < m <= e <= |w|
    ensures w[b..e] == [w[b]] + w[b + 1..m] + w[m..e]
  {
    assert w[b..e] == w[b..m] + w[m..e];
    assert w[b..m] == [w[b]] + w[b + 1..m];
  }

  /** A slice of a slice is a slice. */
  lemma SubSlice<T>(w: seq<T>, b: nat, e: nat, x: nat, y: nat)
    requires b <= e <= |w| && x <= y <= e - b
    ensures w[b..e][x..y] == w[b + x..b + y]
  {
    forall i | 0 <= i < y - x
      ensures w[b..e][x..y][i] == w[b + x..b + y][i]
    {
      assert w[b..e][x..y][i] == w[b..e][x + i] == w[b + x + i];
    }
  }

  /** What a list that holds the numbered run of `f[j..]` at `w[b..e]` says
      about its bone `b`: where its two links point and which runs of the
      list they start. */
  lemma WalkFacts(w: seq<Bone>, f: seq<Item>, j: nat, b: nat, parent: nat, e: nat)
    requires |w| <= NONE
    requires j < |f| && (parent == NONE || parent < b)
    requires e == b + SizesFrom(f, j) <= |w|
    requires w[b..e] == FlattenFrom(f, j, b, parent)
    ensures var n := SizeOf(f[j]);
      b + n <= e &&
      (w[b].childIndex == NONE ==> n == 1) &&
      (w[b].childIndex != NONE ==>
         w[b].childIndex == b + 1 && f[j].children != [] &&
         b + n == b + 1 + SizesFrom(f[j].children, 0) &&
         w[b + 1..b + n] == FlattenFrom(f[j].children, 0, b + 1, b)) &&
      (w[b].siblingIndex == NONE ==> b + n == e) &&
      (w[b].siblingIndex != NONE ==>
         w[b].siblingIndex == b + n && j + 1 < |f| &&
         e == b + n + SizesFrom(f, j + 1) &&
         w[b + n..e] == FlattenFrom(f, j + 1, b + n, parent))
  {
    var n := SizeOf(f[j]);
    var run := FlattenFrom(f, j, b, parent);
    FlattenFromParts(f, j, b, parent);
    SubSlice(w, b, e, 1, n);
    SubSlice(w, b, e, n, e - b);
    assert w[b] == run[0];
    if j + 1 < |f| {
      assert SizesFrom(f, j + 1) >= SizeOf(f[j + 1]) >= 1;
    }
  }

  /** The numbered run of `f[j..]` held at `w[b..e]` is what get_bone_tree
      lists from `b`. */
  lemma {:induction false} WalkFrom(w: seq<Bone>, f: seq<Item>, j: nat, b: nat, parent: nat, e: nat)
    requires ForwardLinks(w) && |w| <= NONE
    requires j < |f| && (parent == NONE || parent < b)
    requires e == b + SizesFrom(f, j) <= |w|
    requires w[b..e] == FlattenFrom(f, j, b, parent)
    ensures GetBoneTree(w, b) == w[b..e]
    decreases e - b, 1
  {
    var n := SizeOf(f[j]);
    assert 1 <= n && b + n <= e && (w[b].childIndex == NONE ==> n == 1) &&
      (w[b].childIndex != NONE ==> w[b].childIndex == b + 1 && GetBoneTree(w, b + 1) == w[b + 1..b + n]) by {
      WalkChild(w, f, j, b, parent, e);
    }
    assert (w[b].siblingIndex == NONE ==> b + n == e) &&
      (w[b].siblingIndex != NONE ==> w[b].siblingIndex == b + n && GetBoneTree(w, b + n) == w[b + n..e]) by {
      WalkSibling(w, f, j, b, parent, e);
    }
    WalkStep(w, b, n, e);
  }

  /** The first child's call lists the bones numbered inside `f[j]`. */
  lemma {:induction false} WalkChild(w: seq<Bone>, f: seq<Item>, j: nat, b: nat, parent: nat, e: nat)
    requires ForwardLinks(w) && |w| <= NONE
    requires j < |f| && (parent == NONE || parent < b)
    requires e == b + SizesFrom(f, j) <= |w|
    requires w[b..e] == FlattenFrom(f, j, b, parent)
    ensures 1 <= SizeOf(f[j]) && b + SizeOf(f[j]) <= e
    ensures w[b].childIndex == NONE ==> SizeOf(f[j]) == 1
    ensures w[b].childIndex != NONE ==>
      w[b].childIndex == b + 1 && GetBoneTree(w, b + 1) == w[b + 1..b + SizeOf(f[j])]
    decreases e - b, 0
  {
    WalkFacts(w, f, j, b, parent, e);
    if w[b].childIndex != NONE {
      WalkFrom(w, f[j].children, 0, b + 1, b, b + SizeOf(f[j]));
    }
  }

  /** The next sibling's call lists the bones numbered after `f[j]`. */
  lemma {:induction false} WalkSibling(w: seq<Bone>, f: seq<Item>, j: nat, b: nat, parent: nat, e: nat)
    requires ForwardLinks(w) && |w| <= NONE
    requires j < |f| && (parent == NONE || parent < b)
    requires e == b + SizesFrom(f, j) <= |w|
    requires w[b..e] == FlattenFrom(f, j, b, parent)
    ensures b + SizeOf(f[j]) <= e
    ensures w[b].siblingIndex == NONE ==> b + SizeOf(f[j]) == e
    ensures w[b].siblingIndex != NONE ==>
      w[b].siblingIndex == b + SizeOf(f[j]) && GetBoneTree(w, b + SizeOf(f[j])) == w[b + SizeOf(f[j])..e]
    decreases e - b, 0
  {
    WalkFacts(w, f, j, b, parent, e);
    if w[b].siblingIndex != NONE {
      WalkFrom(w, f, j + 1, b + SizeOf(f[j]), parent, e);
    }
  }

  /** `get_bone_tree` from the first bone of a renumbered list visits every
      bone once, in index order (for up to 65535 bones, so that no real
      index reads as NONE). */
  lemma WalkFlatten(c: Control)
    requires 0 < |Flatten(c)| <= NONE
    ensures ForwardLinks(Flatten(c))
    ensures GetBoneTree(Flatten(c), 0) == Flatten(c)
  {
    FlattenForward(c);
    FlattenFromLinks(c.items, 0, 0, NONE);
    assert Flatten(c)[0..SizesFrom(c.items, 0)] == Flatten(c);
    WalkFrom(Flatten(c), c.items, 0, 0, NONE, |Flatten(c)|);
  }

  // ---------------------------------------------------------------------
  // Rebuilding the tree from the renumbered list
  // ---------------------------------------------------------------------

  /** The item build_bone_tree makes for `it` and its descendants from the
      renumbered list: same children in the same order, the renumbered bone,
      the label "{index}: {name}", not yet checked, not selected. */
  function RebuiltItem(it: Item, b: nat, parent: nat, sib: nat): (r: Item)
    ensures SameShape(r.children, it.children)
    decreases it
  {
    assert it.children[0..] == it.children;
    Item(LinkedBone(it, b, parent, sib), Label(b, it.bone.name), Unchecked, false,
         RebuiltFrom(it.children, 0, b + 1, b))
  }

  function RebuiltFrom(f: seq<Item>, j: nat, b: nat, parent: nat): (r: seq<Item>)
    ensures j <= |f| ==> SameShape(r, f[j..])
    decreases f, |f| - j
  {
    if j >= |f| then []
    else
      var x := RebuiltItem(f[j], b, parent, SiblingOf(f, j, b));
      var rest := RebuiltFrom(f, j + 1, b + SizeOf(f[j]), parent);
      ShapeCons(x, f[j], rest, f[j + 1..]);
      assert f[j..] == [f[j]] + f[j + 1..];
      [x] + rest
  }

  /** build_bone_tree on the renumbered list gives a tree of the same shape:
      every handle of the old tree is a handle of the new one. */
  function Rebuilt(c: Control): (r: seq<Item>)
    ensures SameShape(r, c.items)
  {
    assert c.items[0..] == c.items;
    RebuiltFrom(c.items, 0, 0, NONE)
  }

  /** The childless item build_bone_tree appends first for the bone of `it`. */
  function Leaf(it: Item, b: nat, parent: nat, sib: nat): Item
  {
    Item(LinkedBone(it, b, parent, sib), Label(b, it.bone.name), Unchecked, false, [])
  }

  /** The state after the pass for the bone of `it`, appended under `q`. */
  function Opened(it: Item, b: nat, parent: nat, sib: nat, st: BuildState, q: Path): BuildState
  {
    BuildState(Graft(st.items, q, [Leaf(it, b, parent, sib)]), st.handles + [q + [|KidsF(st.items, q)|]])
  }

  /** The first pass for `it`: its bone is appended under `q` as a leaf,
      whose handle becomes entry `b`; its descendants' bones follow. */
  lemma ItemOpen(it: Item, b: nat, parent: nat, sib: nat, st: BuildState, q: Path)
    requires |st.handles| == b
    requires (b == 0 && q == []) || (0 < b && parent < b && st.handles[parent] == q)
    requires q == [] || ValidIn(st.items, q)
    ensures var st1, q1 := Opened(it, b, parent, sib, st, q), q + [|KidsF(st.items, q)|];
      BuildFrom(FlattenItem(it, b, parent, sib), st) == BuildFrom(FlattenFrom(it.children, 0, b + 1, b), st1) &&
      |st1.handles| == b + 1 && st1.handles[b] == q1 &&
      ValidIn(st1.items, q1) && |KidsF(st1.items, q1)| == 0
  {
    var m := |KidsF(st.items, q)|;
    var bone := LinkedBone(it, b, parent, sib);
    var st1 := Opened(it, b, parent, sib, st, q);
    assert AppendBone(st, bone) == Some(st1);
    var kids := FlattenFrom(it.children, 0, b + 1, b);
    assert ([bone] + kids)[0] == bone && ([bone] + kids)[1..] == kids;
    GraftKids(st.items, q, [Leaf(it, b, parent, sib)]);
    ChildPath(st1.items, q, m);
  }

  /** After the descendants' passes, the leaf holds the rebuilt children and
      the handles are the preorder of `it`. */
  lemma ItemClose(it: Item, b: nat, parent: nat, sib: nat, st: BuildState, q: Path)
    ensures var st1, q1 := Opened(it, b, parent, sib, st, q), q + [|KidsF(st.items, q)|];
      var xs := RebuiltFrom(it.children, 0, b + 1, b);
      Graft(st1.items, q1, xs) == Graft(st.items, q, [RebuiltItem(it, b, parent, sib)]) &&
      st1.handles + PathsFrom(it.children, q1, 0) == st.handles + PathsItem(it, q1)
  {
    var leaf := Leaf(it, b, parent, sib);
    var xs := RebuiltFrom(it.children, 0, b + 1, b);
    GraftInto(st.items, q, leaf, xs);
    assert leaf.(children := leaf.children + xs) == RebuiltItem(it, b, parent, sib);
    var q1 := q + [|KidsF(st.items, q)|];
    ConcatAssoc(st.handles, [q1], PathsFrom(it.children, q1, 0));
  }

  lemma ConcatAssoc<T>(a: seq<T>, b: seq<T>, c: seq<T>)
    ensures (a + b) + c == a + (b + c)
  {
  }

  lemma {:induction false} BuildItemRoundTrip(it: Item, b: nat, parent: nat, sib: nat, st: BuildState, q: Path)
    requires |st.handles| == b
    requires (b == 0 && q == []) || (0 < b && parent < b && st.handles[parent] == q)
    requires q == [] || ValidIn(st.items, q)
    ensures BuildFrom(FlattenItem(it, b, parent, sib), st) ==
      Some(BuildState(Graft(st.items, q, [RebuiltItem(it, b, parent, sib)]),
                      st.handles + PathsItem(it, q + [|KidsF(st.items, q)|])))
    decreases it
  {
    ItemOpen(it, b, parent, sib, st, q);
    BuildFromRoundTrip(it.children, 0, b + 1, b, Opened(it, b, parent, sib, st, q), q + [|KidsF(st.items, q)|]);
    TargetClosed(it.children, 0, b + 1, b, Opened(it, b, parent, sib, st, q), q + [|KidsF(st.items, q)|]);
    ItemClose(it, b, parent, sib, st, q);
  }

  /** The state after the passes for `f[j]` and its descendants. */
  function Stepped(f: seq<Item>, j: nat, b: nat, parent: nat, st: BuildState, q: Path): BuildState
    requires j < |f|
  {
    BuildState(Graft(st.items, q, [RebuiltItem(f[j], b, parent, SiblingOf(f, j, b))]),
               st.handles + PathsItem(f[j], q + [j]))
  }

  /** Where the loop stands before the passes for `f[j]`: `b` bones
      appended so far, the parent's item at handle `q` with `j` children. */
  ghost predicate Frontier(st: BuildState, b: nat, parent: nat, q: Path, j: nat)
  {
    |st.handles| == b && parent < b && st.handles[parent] == q &&
    (q == [] || ValidIn(st.items, q)) && |KidsF(st.items, q)| == j
  }

  /** The state the loop reaches after the passes for `f[j..]`, one sibling
      (with its descendants) at a time. */
  ghost function TargetFrom(f: seq<Item>, j: nat, b: nat, parent: nat, st: BuildState, q: Path): BuildState
    decreases |f| - j
  {
    if j >= |f| then st
    else TargetFrom(f, j + 1, b + SizeOf(f[j]), parent, Stepped(f, j, b, parent, st, q), q)
  }

  /** That state holds the rebuilt items of `f[j..]` under `q`, and their
      handles in preorder after the earlier ones. */
  lemma {:induction false} TargetClosed(f: seq<Item>, j: nat, b: nat, parent: nat, st: BuildState, q: Path)
    ensures TargetFrom(f, j, b, parent, st, q) ==
      BuildState(Graft(st.items, q, RebuiltFrom(f, j, b, parent)), st.handles + PathsFrom(f, q, j))
    decreases |f| - j
  {
    if j >= |f| {
      GraftNothing(st.items, q);
      assert st.handles + [] == st.handles;
    } else {
      TargetClosed(f, j + 1, b + SizeOf(f[j]), parent, Stepped(f, j, b, parent, st, q), q);
      FromTurnClose(f, j, b, parent, st, q);
    }
  }

  /** The passes for `f[j]` leave `q` valid with one more child, and keep
      the handle of the parent. */
  lemma FromStep(f: seq<Item>, j: nat, b: nat, parent: nat, st: BuildState, q: Path)
    requires j < |f| && Frontier(st, b, parent, q, j)
    ensures Frontier(Stepped(f, j, b, parent, st, q), b + SizeOf(f[j]), parent, q, j + 1)
  {
    var st2 := Stepped(f, j, b, parent, st, q);
    PathsItemLength(f[j], q + [j]);
    GraftKids(st.items, q, [RebuiltItem(f[j], b, parent, SiblingOf(f, j, b))]);
    assert st2.handles[parent] == st.handles[parent];
  }

  /** The rebuilt items of `f[j..]` are that of `f[j]`, then those of
      `f[j + 1..]`, appended in two steps. */
  lemma FromCloseItems(f: seq<Item>, j: nat, b: nat, parent: nat, items: seq<Item>, q: Path)
    requires j < |f|
    ensures var r := RebuiltItem(f[j], b, parent, SiblingOf(f, j, b));
      Graft(Graft(items, q, [r]), q, RebuiltFrom(f, j + 1, b + SizeOf(f[j]), parent)) ==
      Graft(items, q, RebuiltFrom(f, j, b, parent))
  {
    var r := RebuiltItem(f[j], b, parent, SiblingOf(f, j, b));
    var rest := RebuiltFrom(f, j + 1, b + SizeOf(f[j]), parent);
    GraftGraft(items, q, [r], rest);
    assert RebuiltFrom(f, j, b, parent) == [r] + rest;
  }

  /** The handles of `f[j..]` are those of `f[j]`, then those of `f[j + 1..]`. */
  lemma FromCloseHandles(f: seq<Item>, j: nat, hs: seq<Path>, q: Path)
    requires j < |f|
    ensures (hs + PathsItem(f[j], q + [j])) + PathsFrom(f, q, j + 1) == hs + PathsFrom(f, q, j)
  {
    ConcatAssoc(hs, PathsItem(f[j], q + [j]), PathsFrom(f, q, j + 1));
  }

  lemma {:induction false} BuildFromRoundTrip(f: seq<Item>, j: nat, b: nat, parent: nat, st: BuildState, q: Path)
    requires Frontier(st, b, parent, q, j)
    ensures BuildFrom(FlattenFrom(f, j, b, parent), st) == Some(TargetFrom(f, j, b, parent, st, q))
    decreases f, |f| - j, 1
  {
    if j < |f| {
      FromHead(f, j, b, parent, st, q);
      TargetStep(f, j, b, parent, st, q);
      BuildFromRoundTrip(f, j + 1, b + SizeOf(f[j]), parent, Stepped(f, j, b, parent, st, q), q);
    } else {
      assert FlattenFrom(f, j, b, parent) == [];
      assert BuildFrom([], st) == Some(st);
      assert TargetFrom(f, j, b, parent, st, q) == st;
    }
  }

  /** One sibling's passes move the target state on by one step. */
  lemma TargetStep(f: seq<Item>, j: nat, b: nat, parent: nat, st: BuildState, q: Path)
    requires j < |f|
    ensures TargetFrom(f, j, b, parent, st, q) ==
      TargetFrom(f, j + 1, b + SizeOf(f[j]), parent, Stepped(f, j, b, parent, st, q), q)
  {
  }

  /** The passes for `f[j]` rebuild it under `q` and leave the loop where
      the passes for `f[j + 1..]` begin. */
  lemma FromHead(f: seq<Item>, j: nat, b: nat, parent: nat, st: BuildState, q: Path)
    requires j < |f| && Frontier(st, b, parent, q, j)
    ensures Frontier(Stepped(f, j, b, parent, st, q), b + SizeOf(f[j]), parent, q, j + 1)
    ensures BuildFrom(FlattenFrom(f, j, b, parent), st) ==
      BuildFrom(FlattenFrom(f, j + 1, b + SizeOf(f[j]), parent), Stepped(f, j, b, parent, st, q))
    decreases f, |f| - j, 0
  {
    BuildItemRoundTrip(f[j], b, parent, SiblingOf(f, j, b), st, q);
    FromStep(f, j, b, parent, st, q);
    FromTurnRun(f, j, b, parent, st, q);
  }

  /** The passes for `f[j..]` are those for `f[j]`, which rebuild it as
      the item round trip says, then those for `f[j + 1..]`. */
  lemma FromTurnRun(f: seq<Item>, j: nat, b: nat, parent: nat, st: BuildState, q: Path)
    requires j < |f| && |KidsF(st.items, q)| == j
    requires BuildFrom(FlattenItem(f[j], b, parent, SiblingOf(f, j, b)), st) ==
      Some(BuildState(Graft(st.items, q, [RebuiltItem(f[j], b, parent, SiblingOf(f, j, b))]),
                      st.handles + PathsItem(f[j], q + [|KidsF(st.items, q)|])))
    ensures BuildFrom(FlattenFrom(f, j, b, parent), st) ==
      BuildFrom(FlattenFrom(f, j + 1, b + SizeOf(f[j]), parent), Stepped(f, j, b, parent, st, q))
  {
    var head, tail := FlattenItem(f[j], b, parent, SiblingOf(f, j, b)), FlattenFrom(f, j + 1, b + SizeOf(f[j]), parent);
    assert FlattenFrom(f, j, b, parent) == head + tail;
    BuildFromConcat(head, tail, st);
  }

  /** What the passes for `f[j + 1..]` add after those for `f[j]` is what
      the passes for `f[j..]` add. */
  lemma FromTurnClose(f: seq<Item>, j: nat, b: nat, parent: nat, st: BuildState, q: Path)
    requires j < |f|
    ensures var st2 := Stepped(f, j, b, parent, st, q);
      BuildState(Graft(st2.items, q, RebuiltFrom(f, j + 1, b + SizeOf(f[j]), parent)), st2.handles + PathsFrom(f, q, j + 1)) ==
      BuildState(Graft(st.items, q, RebuiltFrom(f, j, b, parent)), st.handles + PathsFrom(f, q, j))
  {
    FromCloseItems(f, j, b, parent, st.items, q);
    FromCloseHandles(f, j, st.handles, q);
  }

  /** Round trip: build_bone_tree on the list recalculate_bone_tree made
      from a single-rooted tree rebuilds that tree item for item, in the
      same order, each item holding its renumbered bone; the item made for
      bone k is the k-th item of the preorder walk. */
  lemma RebuildRoundTrip(c: Control)
    requires |c.items| == 1
    ensures BuildFrom(Flatten(c), BuildState([], [])) == Some(BuildState(Rebuilt(c), Preorder(c)))
  {
    var t := c.items[0];
    var r := RebuiltItem(t, 0, NONE, NONE);
    var run := FlattenItem(t, 0, NONE, NONE);
    BuildItemRoundTrip(t, 0, NONE, NONE, BuildState([], []), []);
    var q0: Path := [];
    assert KidsF([], q0) == [];
    assert q0 + [|KidsF([], q0)|] == [0];
    assert BuildFrom(run, BuildState([], [])) == Some(BuildState(Graft([], [], [r]), [] + PathsItem(t, [0])));
    assert Graft([], [], [r]) == [r];
    assert [] + PathsItem(t, [0]) == PathsItem(t, [0]);
    assert FlattenFrom(c.items, 1, SizeOf(t), NONE) == [];
    assert Flatten(c) == run + [] == run;
    assert RebuiltFrom(c.items, 1, SizeOf(t), NONE) == [];
    assert Rebuilt(c) == [r];
    assert PathsFrom(c.items, [], 1) == [];
    assert Preorder(c) == PathsItem(t, [] + [0]) + [] == PathsItem(t, [0]);
  }
}
