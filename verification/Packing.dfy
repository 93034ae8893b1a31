/** The packed word graph: sibling blocks of bit-field nodes in one array,
    linked by relative jumps. */
module Packing {
  import opened WordTrees
  import opened Tries
  import opened WordLists
  import opened StoredWords

  /** Bit fields of a packed node: a 12-bit letter and a signed 18-bit jump. */
  type Int18 = x: int | -0x2_0000 <= x < 0x2_0000

  datatype PackedNode = PackedNode(let: Bits12, isword: bool, islast: bool, offset: Int18)

  const MAX_NODES := 0x2_0000

  /** A value stored in an 18-bit signed field. */
  function Store18(x: int): Int18 {
    (x + 0x2_0000) % 0x4_0000 - 0x2_0000
  }

  /** The jump stored for the block at `at` seen from here: the field holds first the position
      and then the difference, and is left alone if the position reads as 0. */
  function Jump(here: nat, at: nat): Int18 {
    if Store18(at) == 0 then 0 else Store18(Store18(at) - here)
  }

  /** The difference is in the range of the field, and neither it nor the stored position
      is 0, which stands for no jump. */
  predicate Fits(here: nat, at: nat) {
    -0x2_0000 <= at - here < 0x2_0000 && at != here && at % 0x4_0000 != 0
  }

  /** Storing the jump prints a warning. */
  predicate Warns(here: nat, at: nat) {
    Store18(at) != 0 && Store18(Store18(at) - here) != Store18(at) - here
  }

  /** Storing a value does not change its residue, and only a value in range is stored as
      it is. */
  lemma Store18Residue(x: int, y: int, k: int)
    requires x - y == k * 0x4_0000
    ensures Store18(x) == y <==> -0x2_0000 <= y < 0x2_0000
  {
  }

  /** Although the position is truncated before the difference is, exactly the jumps that fit
      are stored right. */
  lemma JumpExact(here: nat, at: nat)
    ensures Jump(here, at) == at - here != 0 <==> Fits(here, at)
  {
    var p := Store18(at);
    var k := (at + 0x2_0000) / 0x4_0000;
    assert at - p == k * 0x4_0000;
    if at % 0x4_0000 == 0 { Store18Residue(at, 0, at / 0x4_0000); }
    Store18Residue(p - here, at - here, -k);
  }

  /** Below 131072 there is no warning. From there to 262144 it is printed, of the jumps not
      further back than 131072, for exactly those that are right. */
  lemma WarningMisleads(here: nat, at: nat)
    ensures here < MAX_NODES && at < MAX_NODES ==> !Warns(here, at)
    ensures MAX_NODES <= at < 2 * MAX_NODES && here <= at + MAX_NODES && here != at
            ==> (Warns(here, at) <==> Fits(here, at))
  {
    if at < MAX_NODES {
      assert Store18(at) == at;
    } else if at < 2 * MAX_NODES {
      assert Store18(at) == at - 2 * MAX_NODES;
    }
  }

  /** The entry for child i of x, whose block starts at start, given where trees
      are placed; the end mark is on the last of marked entries. */
  ghost predicate Entry(a: seq<PackedNode>, x: Tree, i: nat, start: nat, place: map<Tree, nat>, marked: nat)
    requires i < |x.kids| && start + i < |a|
  {
    var e, sub := a[start + i], x.kids[i].sub;
    && e.let == Store12(x.kids[i].letter)
    && e.isword == sub.isword && e.islast == (i + 1 == marked)
    && (sub.kids == [] ==> e.offset == 0)
    && (sub.kids != [] ==> sub in place && e.offset == Jump(start + i, place[sub]))
  }

  /** The first n entries of x's block at start are written; none is marked last yet. */
  ghost predicate Written(a: seq<PackedNode>, x: Tree, start: nat, n: nat, place: map<Tree, nat>)
    requires n <= |x.kids| && start + |x.kids| <= |a|
  {
    forall i :: 0 <= i < n ==> Entry(a, x, i, start, place, 0)
  }

  /** x's block is complete: all entries written, exactly the last one marked. */
  ghost predicate Block(a: seq<PackedNode>, x: Tree, place: map<Tree, nat>)
    requires x in place
  {
    && x.kids != [] && place[x] + |x.kids| <= |a|
    && forall i :: 0 <= i < |x.kids| ==> Entry(a, x, i, place[x], place, |x.kids|)
  }

  ghost predicate Blocks(a: seq<PackedNode>, place: map<Tree, nat>) {
    forall x :: x in place ==> Block(a, x, place)
  }

  /** No two blocks overlap. */
  ghost predicate Apart(place: map<Tree, nat>) {
    forall x, y {:trigger Disjoint(place, x, y)} :: x in place && y in place && x != y ==> Disjoint(place, x, y)
  }

  ghost predicate Disjoint(place: map<Tree, nat>, x: Tree, y: Tree)
    requires x in place && y in place
  {
    place[x] + |x.kids| <= place[y] || place[y] + |y.kids| <= place[x]
  }

  /** No block reaches into [lo, hi); all end by n. */
  ghost predicate Clear(place: map<Tree, nat>, lo: int, hi: int, n: int) {
    forall x :: x in place ==>
      (place[x] + |x.kids| <= lo || hi <= place[x]) && place[x] + |x.kids| <= n
  }

  ghost function NonLeaf(s: set<Tree>): set<Tree> {
    set x | x in s && x.kids != []
  }

  /** A placed tree's subtrees are placed. */
  lemma {:induction false} PlacedClosed(a: seq<PackedNode>, place: map<Tree, nat>, x: Tree, n: nat)
    requires Blocks(a, place) && x in place && n <= |x.kids|
    ensures NonLeaf(SubtreesUpTo(x, n)) <= place.Keys
    decreases x, n
  {
    if n == 0 {
    } else {
      PlacedClosed(a, place, x, n - 1);
      var sub := x.kids[n - 1].sub;
      assert Block(a, x, place);
      assert Entry(a, x, n - 1, place[x], place, |x.kids|);
      if sub.kids != [] {
        PlacedClosed(a, place, sub, |sub.kids|);
      } else {
        assert Subtrees(sub) == {sub};
      }
    }
  }

  lemma {:induction false} KidCountMono(a: set<Tree>, b: set<Tree>)
    requires a <= b
    ensures KidCount(a) <= KidCount(b)
  {
    assert b == a + (b - a);
    KidCountUnion(a, b - a);
  }

  /** Writing outside all blocks and later placing more trees keeps the blocks. */
  lemma BlocksKept(a: seq<PackedNode>, b: seq<PackedNode>, place: map<Tree, nat>, lo: nat, hi: nat)
    requires Blocks(a, place) && Clear(place, lo, hi, |a|) && |a| == |b|
    requires forall k :: 0 <= k < |a| && !(lo <= k < hi) ==> a[k] == b[k]
    ensures Blocks(b, place)
  {
    forall x | x in place ensures Block(b, x, place) {
      assert Block(a, x, place);
      forall i | 0 <= i < |x.kids| ensures Entry(b, x, i, place[x], place, |x.kids|) {
        assert Entry(a, x, i, place[x], place, |x.kids|);
      }
    }
  }

  lemma GrowsNot(x: Tree, place: map<Tree, nat>, n: nat)
    requires x.kids == [] || x in place
    requires NonLeaf(Subtrees(x)) <= place.Keys
    ensures Grows(x, place, n, place, n)
  {
    PlacesNone(x, place, n);
  }

  /** Where appending x to n nodes places trees, and how many nodes there are then. */
  ghost function Place(x: Tree, place: map<Tree, nat>, n: nat): (map<Tree, nat>, nat)
    decreases x, |x.kids| + 1
  {
    if x.kids == [] || x in place then (place, n)
    else
      var (p, m) := PlaceKids(x, |x.kids|, place, n + |x.kids|);
      (p[x := n], m)
  }

  ghost function PlaceKids(x: Tree, i: nat, place: map<Tree, nat>, n: nat): (map<Tree, nat>, nat)
    requires i <= |x.kids|
    decreases x, i
  {
    if i == 0 then (place, n)
    else
      var (p, m) := PlaceKids(x, i - 1, place, n);
      Place(x.kids[i - 1].sub, p, m)
  }

  ghost predicate PlacesTree(x: Tree, before: map<Tree, nat>, n: nat, after: map<Tree, nat>, m: int) {
    Place(x, before, n) == (after, m)
  }

  ghost predicate PlacesKids(x: Tree, i: nat, before: map<Tree, nat>, n: nat, after: map<Tree, nat>, m: int)
    requires i <= |x.kids|
  {
    PlaceKids(x, i, before, n) == (after, m)
  }

  lemma PlacesNone(x: Tree, place: map<Tree, nat>, n: nat)
    ensures PlacesKids(x, 0, place, n, place, n)
    ensures x.kids == [] || x in place ==> PlacesTree(x, place, n, place, n)
  {
  }

  lemma PlacesNext(x: Tree, i: nat, before: map<Tree, nat>, n: nat, mid: map<Tree, nat>, m: int,
                   after: map<Tree, nat>, k: int)
    requires i < |x.kids| && 0 <= m && PlacesKids(x, i, before, n, mid, m)
    requires PlacesTree(x.kids[i].sub, mid, m, after, k)
    ensures PlacesKids(x, i + 1, before, n, after, k)
  {
  }

  lemma PlacesBlock(x: Tree, before: map<Tree, nat>, n: nat, after: map<Tree, nat>, m: int)
    requires x.kids != [] && x !in before && PlacesKids(x, |x.kids|, before, n + |x.kids|, after, m)
    ensures PlacesTree(x, before, n, after[x := n], m)
  {
  }

  /** Appending x took place and n to after and m. */
  ghost predicate Grows(x: Tree, before: map<Tree, nat>, n: int, after: map<Tree, nat>, m: int) {
    0 <= n && Extends(before, after, NonLeaf(Subtrees(x)), n) && PlacesTree(x, before, n, after, m)
  }

  /** The block positions of a whole tree. */
  ghost function Places(top: Tree): map<Tree, nat> { Place(top, map[], 0).0 }

  /** Every jump from child i of x fits. */
  ghost predicate Links(place: map<Tree, nat>, x: Tree, i: nat)
    requires x in place && i < |x.kids|
  {
    x.kids[i].sub in place ==> Fits(place[x] + i, place[x.kids[i].sub])
  }

  ghost predicate Linked(place: map<Tree, nat>) {
    forall x, i :: x in place && 0 <= i < |x.kids| ==> Links(place, x, i)
  }

  /** The key of a node of the merged graph is its block's position once placed,
      and 0 before; nothing is known of nodes whose block is being written. */
  ghost predicate KeysPlace(G: set<QTrie>, sh: map<QTrie, Tree>, place: map<Tree, nat>, open: set<Tree>)
    requires G <= sh.Keys
    reads G`key
  {
    && (forall x :: x in place ==> place[x] > 0)
    && (forall n :: n in G && sh[n] !in open ==> n.key == if sh[n] in place then place[sh[n]] else 0)
  }

  /** Only trees of u were added, their blocks all from n on. */
  ghost predicate Extends(before: map<Tree, nat>, after: map<Tree, nat>, u: set<Tree>, n: int) {
    && after.Keys == before.Keys + u
    && (forall x :: x in before ==> after[x] == before[x])
    && (forall x :: x in after && x !in before ==> after[x] >= n)
  }

  lemma ExtendsMore(a: map<Tree, nat>, b: map<Tree, nat>, c: map<Tree, nat>, u: set<Tree>, v: set<Tree>, n: int, m: int)
    requires Extends(a, b, u, n) && Extends(b, c, v, m) && n <= m
    ensures Extends(a, c, u + v, n)
  {
  }

  lemma ClearKept(a: map<Tree, nat>, b: map<Tree, nat>, u: set<Tree>, lo: int, hi: int, n: int, m: int)
    requires Clear(a, lo, hi, n) && Extends(a, b, u, n) && hi <= n <= m
    requires forall x :: x in b ==> b[x] + |x.kids| <= m
    ensures Clear(b, lo, hi, m)
  {
  }

  /** Entry i has its letter and flags, and no jump yet. */
  ghost predicate Begun(e: PackedNode, x: Tree, i: nat)
    requires i < |x.kids|
  {
    e == PackedNode(Store12(x.kids[i].letter), x.kids[i].sub.isword, false, 0)
  }

  lemma WrittenKept(a: seq<PackedNode>, b: seq<PackedNode>, x: Tree, start: nat, n: nat,
                    place: map<Tree, nat>, place': map<Tree, nat>)
    requires n <= |x.kids| && start + |x.kids| <= |a| && |a| == |b| && Written(a, x, start, n, place)
    requires forall k :: start <= k < start + n ==> a[k] == b[k]
    requires forall y :: y in place ==> y in place' && place'[y] == place[y]
    ensures Written(b, x, start, n, place')
  {
    forall i | 0 <= i < n ensures Entry(b, x, i, start, place', 0) {
      assert Entry(a, x, i, start, place, 0);
    }
  }

  lemma ChildSubtrees(x: Tree, i: nat)
    requires i < |x.kids|
    ensures x !in Subtrees(x.kids[i].sub) && Subtrees(x.kids[i].sub) <= Subtrees(x)
  {
    var sub := x.kids[i].sub;
    SubtreesDescend(x, |x.kids|);
    DescendantsAbove(x, i, |x.kids|);
    if x in Subtrees(sub) { SubtreeSize(sub, |sub.kids|, x); }
  }

  /** Everything placed or still to be placed for child i stays within all. */
  lemma ChildReady(x: Tree, i: nat, placed: set<Tree>, open: set<Tree>, all: set<Tree>, before: set<Tree>)
    requires i < |x.kids| && x.kids != [] && placed == before + NonLeaf(SubtreesUpTo(x, i) - {x})
    requires before + open + NonLeaf(Subtrees(x)) <= all
    requires Subtrees(x) !! open
    ensures placed + (open + {x}) + NonLeaf(Subtrees(x.kids[i].sub)) <= all
    ensures Subtrees(x.kids[i].sub) !! open + {x}
  {
    ChildSubtrees(x, i);
    SubtreesDescend(x, |x.kids|);
    UpToWithin(x, i, |x.kids|);
  }

  lemma {:induction false} UpToWithin(x: Tree, i: nat, n: nat)
    requires i <= n <= |x.kids|
    ensures SubtreesUpTo(x, i) <= SubtreesUpTo(x, n)
    decreases n
  {
    if i == n {
    } else {
      UpToWithin(x, i, n - 1);
    }
  }

  lemma ChildPlaced(x: Tree, i: nat, sub: Tree)
    requires i < |x.kids| && sub == x.kids[i].sub && sub.kids != []
    ensures sub in NonLeaf(SubtreesUpTo(x, i + 1) - {x})
  {
    ChildSubtrees(x, i);
    SubtreesDescend(sub, |sub.kids|);
  }

  lemma ApartGrow(place: map<Tree, nat>, x: Tree, start: nat, n: int)
    requires Apart(place) && x !in place && Clear(place, start, start + |x.kids|, n)
    ensures Apart(place[x := start])
  {
    var place' := place[x := start];
    forall y, z | y in place' && z in place' && y != z ensures Disjoint(place', y, z) {
      if y != x && z != x { assert Disjoint(place, y, z); }
    }
  }

  /** Closing x's block makes it one of the blocks. */
  lemma BlocksGrow(a: seq<PackedNode>, b: seq<PackedNode>, place: map<Tree, nat>, x: Tree, start: nat)
    requires x.kids != [] && x !in place && start + |x.kids| <= |a| && Blocks(b, place)
    requires Written(a, x, start, |x.kids|, place)
    requires var last := start + |x.kids| - 1; b == a[last := a[last].(islast := true)]
    ensures Blocks(b, place[x := start])
  {
    var place' := place[x := start];
    forall y | y in place' ensures Block(b, y, place') {
      if y == x {
        forall i | 0 <= i < |x.kids| ensures Entry(b, x, i, start, place', |x.kids|) {
          assert Entry(a, x, i, start, place, 0);
        }
      } else {
        assert Block(b, y, place);
        forall i | 0 <= i < |y.kids| ensures Entry(b, y, i, place[y], place', |y.kids|) {
          assert Entry(b, y, i, place[y], place, |y.kids|);
        }
      }
    }
  }

  // ---------- positions, as a function of the tree ----------

  /** Blocks end by n, do not overlap, and every placed tree's subtrees are placed. */
  ghost predicate Tidy(place: map<Tree, nat>, n: int) {
    && Apart(place)
    && forall x :: x in place ==>
         x.kids != [] && place[x] + |x.kids| <= n && NonLeaf(Subtrees(x)) <= place.Keys
  }

  /** Appending the trees of u keeps the positions tidy and takes as many nodes as the new
      trees have children. */
  ghost predicate Adds(before: map<Tree, nat>, n: int, after: map<Tree, nat>, m: int, u: set<Tree>) {
    && n <= m && Tidy(after, m) && Extends(before, after, u, n)
    && m - n == KidCount(after.Keys - before.Keys)
  }

  lemma {:induction false} PlaceAdds(x: Tree, place: map<Tree, nat>, n: nat)
    requires Tidy(place, n)
    ensures var (p, m) := Place(x, place, n); Adds(place, n, p, m, NonLeaf(Subtrees(x)))
    decreases x, |x.kids| + 1
  {
    if x.kids == [] || x in place {
      assert x.kids == [] ==> Subtrees(x) == {x};
      assert place.Keys - place.Keys == {};
    } else {
      var (p, m) := PlaceKids(x, |x.kids|, place, n + |x.kids|);
      PlaceKidsAdd(x, |x.kids|, place, n + |x.kids|);
      AddsBlock(x, place, n, p, m);
    }
  }

  lemma AddsBlock(x: Tree, place: map<Tree, nat>, n: nat, p: map<Tree, nat>, m: int)
    requires Tidy(place, n) && x.kids != [] && x !in place
    requires Adds(place, n + |x.kids|, p, m, NonLeaf(Subtrees(x) - {x}))
    ensures Adds(place, n, p[x := n], m, NonLeaf(Subtrees(x)))
  {
    OwnNonLeaf(x);
    assert x !in p;
    AddsTidy(x, place, n, p, m);
    AddsCount(x, place.Keys, p.Keys);
    assert p[x := n].Keys == p.Keys + {x};
    assert Extends(p, p[x := n], {x}, n);
    ExtendsMore(place, p, p[x := n], NonLeaf(Subtrees(x) - {x}), {x}, n, n);
  }

  lemma AddsTidy(x: Tree, place: map<Tree, nat>, n: nat, p: map<Tree, nat>, m: int)
    requires Tidy(place, n) && x.kids != [] && x !in p && n + |x.kids| <= m
    requires Tidy(p, m) && Extends(place, p, NonLeaf(Subtrees(x) - {x}), n + |x.kids|)
    ensures Tidy(p[x := n], m)
  {
    OwnNonLeaf(x);
    assert Clear(p, n, n + |x.kids|, m);
    ApartGrow(p, x, n, m);
  }

  lemma AddsCount(x: Tree, placed: set<Tree>, keys: set<Tree>)
    requires x !in keys && x !in placed
    ensures KidCount(keys + {x} - placed) == |x.kids| + KidCount(keys - placed)
  {
    KidCountRemove(keys + {x} - placed, x);
    assert keys + {x} - placed - {x} == keys - placed;
  }

  lemma {:induction false} PlaceKidsAdd(x: Tree, i: nat, place: map<Tree, nat>, n: nat)
    requires Tidy(place, n) && i <= |x.kids|
    ensures var (p, m) := PlaceKids(x, i, place, n); Adds(place, n, p, m, NonLeaf(SubtreesUpTo(x, i) - {x}))
    decreases x, i
  {
    if i == 0 {
      assert place.Keys - place.Keys == {};
    } else {
      var (p, m) := PlaceKids(x, i - 1, place, n);
      var (q, k) := Place(x.kids[i - 1].sub, p, m);
      PlaceKidsAdd(x, i - 1, place, n);
      PlaceAdds(x.kids[i - 1].sub, p, m);
      AddsMore(x, i - 1, place, n, p, m, q, k);
    }
  }

  lemma AddsMore(x: Tree, i: nat, a: map<Tree, nat>, n: int, b: map<Tree, nat>, m: int, c: map<Tree, nat>, k: int)
    requires i < |x.kids| && Adds(a, n, b, m, NonLeaf(SubtreesUpTo(x, i) - {x}))
    requires Adds(b, m, c, k, NonLeaf(Subtrees(x.kids[i].sub)))
    ensures Adds(a, n, c, k, NonLeaf(SubtreesUpTo(x, i + 1) - {x}))
  {
    ChildSubtrees(x, i);
    var u, v := NonLeaf(SubtreesUpTo(x, i) - {x}), NonLeaf(Subtrees(x.kids[i].sub));
    ExtendsMore(a, b, c, u, v, n, m);
    assert NonLeaf(SubtreesUpTo(x, i + 1) - {x}) == u + v;
    KidCountUnion(b.Keys - a.Keys, c.Keys - b.Keys);
    assert (b.Keys - a.Keys) + (c.Keys - b.Keys) == c.Keys - a.Keys;
  }

  /** All jumps of a graph of at most 131072 nodes fit. */
  lemma SmallLinked(top: Tree)
    requires KidCount(NonLeaf(Subtrees(top))) <= MAX_NODES
    ensures Linked(Places(top))
  {
    PlaceAdds(top, map[], 0);
    var (place, m) := Place(top, map[], 0);
    assert place.Keys - {} == place.Keys;
    assert place.Keys == NonLeaf(Subtrees(top));
    forall x, i | x in place && 0 <= i < |x.kids| && x.kids[i].sub in place
      ensures Fits(place[x] + i, place[x.kids[i].sub])
    {
      SmallFits(place, m, top, x, i);
    }
  }

  lemma SmallFits(place: map<Tree, nat>, m: int, top: Tree, x: Tree, i: nat)
    requires Tidy(place, m) && m <= MAX_NODES && place.Keys == NonLeaf(Subtrees(top))
    requires x in place && i < |x.kids| && x.kids[i].sub in place
    requires top in place && place[top] == 0
    ensures Fits(place[x] + i, place[x.kids[i].sub])
  {
    var sub := x.kids[i].sub;
    ChildSubtrees(x, i);
    SubtreesDescend(sub, |sub.kids|);
    assert sub != top && sub != x;
    assert Disjoint(place, top, sub) && Disjoint(place, x, sub);
  }

  /** Placed trees have complete blocks, apart from each other and below n;
      open trees have reserved theirs. */
  ghost predicate Layout(a: seq<PackedNode>, place: map<Tree, nat>, n: int, open: set<Tree>) {
    && 0 <= n <= |a|
    && Blocks(a, place) && Apart(place)
    && (forall x :: x in place ==> place[x] + |x.kids| <= n)
    && place.Keys !! open && n == KidCount(place.Keys + open)
  }

  /** While x's block at start is open: m of its children are placed and i of its
      entries are written. */
  ghost predicate Filling(a: seq<PackedNode>, x: Tree, start: int, m: nat, i: nat, place: map<Tree, nat>, n: int,
                          open: set<Tree>, all: set<Tree>, before: map<Tree, nat>)
    requires i <= m <= |x.kids|
  {
    && 0 <= start && start + |x.kids| <= n
    && Layout(a, place, n, open + {x})
    && Extends(before, place, NonLeaf(SubtreesUpTo(x, m) - {x}), start)
    && PlacesKids(x, m, before, start + |x.kids|, place, n)
    && Clear(place, start, start + |x.kids|, n)
    && Written(a, x, start, i, place)
    && before.Keys + open + NonLeaf(Subtrees(x)) <= all && KidCount(all) <= |a|
  }

  lemma FillingOpens(a: seq<PackedNode>, x: Tree, place: map<Tree, nat>, n: int, open: set<Tree>, all: set<Tree>)
    requires Layout(a, place, n, open) && x.kids != [] && x !in place && x !in open
    requires place.Keys + open + NonLeaf(Subtrees(x)) <= all && KidCount(all) <= |a|
    ensures Filling(a, x, n, 0, 0, place, n + |x.kids|, open, all, place)
  {
    PlacesNone(x, place, n + |x.kids|);
    SubtreesDescend(x, |x.kids|);
    var trees := place.Keys + open;
    KidCountRemove(trees + {x}, x);
    assert trees + {x} - {x} == trees && place.Keys + (open + {x}) == trees + {x};
    KidCountMono(trees + {x}, all);
  }

  lemma FillingBegins(a: seq<PackedNode>, x: Tree, start: int, i: nat, place: map<Tree, nat>, n: int,
                      open: set<Tree>, all: set<Tree>, before: map<Tree, nat>, e: PackedNode)
    requires i < |x.kids| && Filling(a, x, start, i, i, place, n, open, all, before)
    ensures Filling(a[start + i := e], x, start, i, i, place, n, open, all, before)
  {
    BlocksKept(a, a[start + i := e], place, start, start + |x.kids|);
    WrittenKept(a, a[start + i := e], x, start, i, place, place);
  }

  lemma FillingAppends(a: seq<PackedNode>, x: Tree, start: int, i: nat, place: map<Tree, nat>, n: int,
                       open: set<Tree>, all: set<Tree>, before: map<Tree, nat>,
                       b: seq<PackedNode>, place': map<Tree, nat>, n': int)
    requires i < |x.kids| && Filling(a, x, start, i, i, place, n, open, all, before)
    requires |a| == |b| && n <= n' && Layout(b, place', n', open + {x})
    requires Grows(x.kids[i].sub, place, n, place', n')
    requires forall k :: 0 <= k < n ==> a[k] == b[k]
    ensures Filling(b, x, start, i + 1, i, place', n', open, all, before)
  {
    var sub := x.kids[i].sub;
    ChildSubtrees(x, i);
    WrittenKept(a, b, x, start, i, place, place');
    PlacesNext(x, i, before, start + |x.kids|, place, n, place', n');
    ExtendsMore(before, place, place', NonLeaf(SubtreesUpTo(x, i) - {x}), NonLeaf(Subtrees(sub)), start, n);
    ClearKept(place, place', NonLeaf(Subtrees(sub)), start, start + |x.kids|, n, n');
    assert NonLeaf(SubtreesUpTo(x, i + 1) - {x}) == NonLeaf(SubtreesUpTo(x, i) - {x}) + NonLeaf(Subtrees(sub));
  }

  /** With the jump to its child's block the entry is finished. */
  lemma FillingFinishes(a: seq<PackedNode>, x: Tree, start: int, i: nat, place: map<Tree, nat>, n: int,
                        open: set<Tree>, all: set<Tree>, before: map<Tree, nat>, at: int)
    requires i < |x.kids| && Filling(a, x, start, i + 1, i, place, n, open, all, before)
    requires Begun(a[start + i], x, i) && at == ChildAt(place, x.kids[i].sub)
    ensures 0 <= at < n
    ensures var b := a[start + i := a[start + i].(offset := Jump(start + i, at))];
      Filling(b, x, start, i + 1, i + 1, place, n, open, all, before)
  {
    var sub := x.kids[i].sub;
    if sub.kids != [] {
      ChildPlaced(x, i, sub);
      assert sub in place && place[sub] + |sub.kids| <= n;
    }
    var b := a[start + i := a[start + i].(offset := Jump(start + i, at))];
    BlocksKept(a, b, place, start, start + |x.kids|);
    WrittenKept(a, b, x, start, i, place, place);
    assert Entry(b, x, i, start, place, 0);
  }

  /** What appending a tree returns: the position of its block, 0 for a leaf. */
  ghost function ChildAt(place: map<Tree, nat>, x: Tree): int {
    if x.kids == [] then 0 else if x in place then place[x] else -1
  }

  /** Marking the last entry completes the block. */
  lemma FillingCloses(a: seq<PackedNode>, x: Tree, start: int, place: map<Tree, nat>, n: int,
                      open: set<Tree>, all: set<Tree>, before: map<Tree, nat>)
    requires Filling(a, x, start, |x.kids|, |x.kids|, place, n, open, all, before)
    requires x.kids != [] && x !in before && x !in open
    ensures var last := start + |x.kids| - 1; var b := a[last := a[last].(islast := true)];
      && x !in place && Layout(b, place[x := start], n, open)
      && Grows(x, before, start, place[x := start], n)
  {
    var last := start + |x.kids| - 1;
    var b := a[last := a[last].(islast := true)];
    var place' := place[x := start];
    PlacesBlock(x, before, start, place, n);
    ClosedBlocks(a, x, start, place, n);
    ApartGrow(place, x, start, n);
    assert place'.Keys + open == place.Keys + (open + {x});
    OwnNonLeaf(x);
    assert Extends(place, place', {x}, start);
    ExtendsMore(before, place, place', NonLeaf(Subtrees(x) - {x}), {x}, start, start);
  }

  lemma OwnNonLeaf(x: Tree)
    requires x.kids != []
    ensures NonLeaf(Subtrees(x)) == NonLeaf(Subtrees(x) - {x}) + {x}
  {
    SubtreesDescend(x, |x.kids|);
  }

  lemma ClosedBlocks(a: seq<PackedNode>, x: Tree, start: int, place: map<Tree, nat>, n: int)
    requires x.kids != [] && x !in place && 0 <= start && start + |x.kids| <= n <= |a|
    requires Blocks(a, place) && Written(a, x, start, |x.kids|, place) && Clear(place, start, start + |x.kids|, n)
    ensures var last := start + |x.kids| - 1; Blocks(a[last := a[last].(islast := true)], place[x := start])
  {
    var last := start + |x.kids| - 1;
    var b := a[last := a[last].(islast := true)];
    BlocksKept(a, b, place, start, start + |x.kids|);
    BlocksGrow(a, b, place, x, start);
  }

  lemma LinkedJump(place: map<Tree, nat>, x: Tree, i: nat)
    requires Linked(place) && x in place && i < |x.kids| && x.kids[i].sub in place
    ensures Jump(place[x] + i, place[x.kids[i].sub]) == place[x.kids[i].sub] - (place[x] + i) != 0
  {
    assert Links(place, x, i);
    JumpExact(place[x] + i, place[x.kids[i].sub]);
  }

  /** What an entry of a complete block tells a reader. */
  lemma EntryRead(a: seq<PackedNode>, x: Tree, i: nat, place: map<Tree, nat>)
    requires Blocks(a, place) && Linked(place) && x in place && i < |x.kids|
    ensures place[x] + |x.kids| <= |a|
    ensures var e, kid := a[place[x] + i], x.kids[i];
            && e.let == Store12(kid.letter) && e.isword == kid.sub.isword && (e.islast <==> i + 1 == |x.kids|)
            && (kid.sub.kids == [] <==> e.offset == 0)
            && (e.offset != 0 ==> kid.sub in place && e.offset + place[x] + i == place[kid.sub])
  {
    assert Block(a, x, place);
    assert Entry(a, x, i, place[x], place, |x.kids|);
    if x.kids[i].sub in place {
      LinkedJump(place, x, i);
    }
  }

  lemma ReadNext(list: seq<Word>, t: Tree, i: nat, p: Word, r: seq<Word>)
    requires i < |t.kids|
    requires var sub, q := t.kids[i].sub, p + [t.kids[i].letter];
      r == list + StoreAll(WordsUpTo(t, i, p)) + (if sub.isword then [StoreWord(q)] else [])
         + StoreAll(WordsUpTo(sub, |sub.kids|, q))
    ensures r == list + StoreAll(WordsUpTo(t, i + 1, p))
  {
    var sub, q := t.kids[i].sub, p + [t.kids[i].letter];
    var first, own, below := WordsUpTo(t, i, p), if sub.isword then [q] else [], WordsUpTo(sub, |sub.kids|, q);
    StoreConcat(first, own);
    StoreConcat(first + own, below);
  }

  class QDawgPrivate {
    var nodes: int
    var node: array<PackedNode>
    var overflow: bool
    ghost var place: map<Tree, nat>

    /** The packed array and the keys of the merged graph agree on what is placed. */
    ghost predicate Packs(G: set<QTrie>, sh: map<QTrie, Tree>, open: set<Tree>)
      reads this, node, G`key, G`children, G`isword
    {
      && Merged(G, sh) && Layout(node[..], place, nodes, open) && KeysPlace(G, sh, place, open) && Quiet()
    }

    /** There is no warning within the range of the jump field. */
    ghost predicate Quiet()
      reads this
    {
      overflow ==> node.Length > MAX_NODES
    }

    /** The array holds the graph of the tree top: its blocks fill the array. */
    ghost predicate Valid(top: Tree)
      reads this, node
    {
      && Layout(node[..], place, nodes, {}) && Quiet()
      && place.Keys == NonLeaf(Subtrees(top)) && nodes == node.Length && place == Places(top)
      && (top.kids != [] ==> top in place && place[top] == 0)
    }

    constructor ()
      ensures nodes == 0 && node.Length == 0 && !overflow && place == map[] && fresh(node)
    {
      nodes, overflow, place := 0, false, map[];
      node := new PackedNode[0];
    }

    method StartArray(n: nat)
      modifies this
      ensures fresh(node) && node.Length == n && nodes == 0 && place == map[] && overflow == old(overflow)
    {
      nodes := 0;
      node := new PackedNode[n](_ => PackedNode(0, false, false, 0));
      place := map[];
    }

    /** The size of the array; no node has a key any more. */
    static method CountNodes(t: QTrie, ghost G: set<QTrie>, ghost sh: map<QTrie, Tree>) returns (n: int)
      requires t in G && Merged(G, sh) && LiveKeys(G, sh, NonLeaf(Subtrees(sh[t])))
      modifies G`key
      ensures n == KidCount(NonLeaf(Subtrees(sh[t]))) && LiveKeys(G, sh, {})
    {
      ghost var all, live := NonLeaf(Subtrees(sh[t])), {};
      n, live := t.CollectKeys(G, sh, all);
      assert all * Subtrees(sh[t]) == all && all - Subtrees(sh[t]) == {};
    }

    ghost predicate Fills(t: QTrie, m: nat, i: nat, G: set<QTrie>, sh: map<QTrie, Tree>,
                          open: set<Tree>, all: set<Tree>, before: map<Tree, nat>)
      requires t in G && G <= sh.Keys && i <= m <= |sh[t].kids|
      reads this, node, G`key, G`children, G`isword
    {
      && Merged(G, sh) && KeysPlace(G, sh, place, open + {sh[t]}) && Quiet()
      && Filling(node[..], sh[t], t.key, m, i, place, nodes, open, all, before)
    }

    method OpenBlock(t: QTrie, ghost G: set<QTrie>, ghost sh: map<QTrie, Tree>,
                     ghost open: set<Tree>, ghost all: set<Tree>)
      requires t in G && Packs(G, sh, open) && sh[t].kids != [] && sh[t] !in place && sh[t] !in open
      requires place.Keys + open + NonLeaf(Subtrees(sh[t])) <= all && KidCount(all) <= node.Length
      modifies this`nodes, t`key
      ensures t.key == old(nodes) && |t.children| == |sh[t].kids|
      ensures Fills(t, 0, 0, G, sh, open, all, place)
    {
      FillingOpens(node[..], sh[t], place, nodes, open, all);
      assert t.Stands(sh);
      t.key := nodes;
      nodes := nodes + |t.children|;
      assert forall n :: n in G && SameTree(n, t, sh) ==> n == t;
    }

    method BeginEntry(t: QTrie, i: nat, ghost G: set<QTrie>, ghost sh: map<QTrie, Tree>,
                      ghost open: set<Tree>, ghost all: set<Tree>, ghost before: map<Tree, nat>)
      requires t in G && G <= sh.Keys && i < |sh[t].kids| && Fills(t, i, i, G, sh, open, all, before)
      modifies node
      ensures Fills(t, i, i, G, sh, open, all, before) && Begun(node[t.key + i], sh[t], i)
      ensures forall k :: 0 <= k < t.key ==> node[k] == old(node[k])
    {
      assert t.Stands(sh);
      var s := t.children[i].p;
      assert s.Stands(sh);
      var e := PackedNode(Store12(t.children[i].letter), s.isword, false, 0);
      FillingBegins(node[..], sh[t], t.key, i, place, nodes, open, all, before, e);
      ghost var b := node[..][t.key + i := e];
      node[t.key + i] := e;
      assert node[..] == b;
    }

    /** Turns the position of the child's block into a jump from here. */
    method SetJump(here: int, at: int)
      requires 0 <= here < node.Length && 0 <= at && node[here].offset == 0
      modifies this`overflow, node
      ensures overflow <==> old(overflow) || Warns(here, at)
      ensures node[..] == old(node[..])[here := old(node[here]).(offset := Jump(here, at))]
      ensures at == 0 ==> node[here].offset == 0
      ensures node[here].offset == at - here != 0 <==> Fits(here, at)
    {
      JumpExact(here, at);
      node[here] := node[here].(offset := Store18(at));
      if node[here].offset != 0 {
        var there := node[here].offset - here;
        node[here] := node[here].(offset := Store18(there));
        overflow := overflow || node[here].offset != there;
      }
    }

    method FinishEntry(t: QTrie, i: nat, at: int, ghost G: set<QTrie>, ghost sh: map<QTrie, Tree>,
                       ghost open: set<Tree>, ghost all: set<Tree>, ghost before: map<Tree, nat>)
      requires t in G && G <= sh.Keys && i < |sh[t].kids| && Fills(t, i + 1, i, G, sh, open, all, before)
      requires Begun(node[t.key + i], sh[t], i) && at == ChildAt(place, sh[t].kids[i].sub)
      modifies this`overflow, node
      ensures Fills(t, i + 1, i + 1, G, sh, open, all, before)
      ensures forall k :: 0 <= k < t.key ==> node[k] == old(node[k])
    {
      FillingFinishes(node[..], sh[t], t.key, i, place, nodes, open, all, before, at);
      WarningMisleads(t.key + i, at);
      SetJump(t.key + i, at);
    }

    method MarkLast(last: int)
      requires 0 <= last < node.Length
      modifies node
      ensures node[..] == old(node[..])[last := old(node[last]).(islast := true)]
    {
      node[last] := node[last].(islast := true);
    }

    method CloseBlock(t: QTrie, ghost G: set<QTrie>, ghost sh: map<QTrie, Tree>,
                      ghost open: set<Tree>, ghost all: set<Tree>, ghost before: map<Tree, nat>)
      requires t in G && G <= sh.Keys && sh[t].kids != [] && sh[t] !in before && sh[t] !in open
      requires Fills(t, |sh[t].kids|, |sh[t].kids|, G, sh, open, all, before)
      modifies this`place, node
      ensures Layout(node[..], place, nodes, open) && Grows(sh[t], before, t.key, place, nodes)
      ensures forall k :: 0 <= k < t.key ==> node[k] == old(node[k])
      ensures sh[t] in place && t.key == place[sh[t]]
      ensures t.key > 0 ==> KeysPlace(G, sh, place, open)
    {
      ghost var x := sh[t];
      assert t.Stands(sh);
      FillingCloses(node[..], x, t.key, place, nodes, open, all, before);
      var last := t.key + |t.children| - 1;
      MarkLast(last);
      place := place[x := t.key];
      assert forall n :: n in G && SameTree(n, t, sh) ==> n == t;
    }

    method AppendChild(t: QTrie, i: nat, ghost G: set<QTrie>, ghost sh: map<QTrie, Tree>,
                       ghost open: set<Tree>, ghost all: set<Tree>, ghost before: map<Tree, nat>) returns (at: int)
      requires t in G && G <= sh.Keys && i < |sh[t].kids| && Fills(t, i, i, G, sh, open, all, before)
      requires Begun(node[t.key + i], sh[t], i) && Subtrees(sh[t]) !! open
      modifies this, node, G`key
      ensures node == old(node) && t.key == old(t.key)
      ensures Fills(t, i + 1, i, G, sh, open, all, before)
      ensures Begun(node[t.key + i], sh[t], i) && at == ChildAt(place, sh[t].kids[i].sub)
      ensures forall k :: 0 <= k < t.key ==> node[k] == old(node[k])
      ensures forall n :: n in G && sh[n] in open ==> n.key == old(n.key)
      decreases sh[t], 0
    {
      ghost var x, a, was, n := sh[t], node[..], place, nodes;
      assert t.Stands(sh);
      ChildReady(x, i, place.Keys, open, all, before.Keys);
      at := AppendToArray(t.children[i].p, G, sh, open + {x}, all);
      FillingAppends(a, x, t.key, i, was, n, open, all, before, node[..], place, nodes);
    }

    /** Letter, flags and the child's block. */
    method StartEntry(t: QTrie, i: nat, ghost G: set<QTrie>, ghost sh: map<QTrie, Tree>,
                      ghost open: set<Tree>, ghost all: set<Tree>, ghost before: map<Tree, nat>) returns (at: int)
      requires t in G && G <= sh.Keys && i < |sh[t].kids|
      requires Fills(t, i, i, G, sh, open, all, before) && Subtrees(sh[t]) !! open
      modifies this, node, G`key
      ensures node == old(node) && t.key == old(t.key)
      ensures Fills(t, i + 1, i, G, sh, open, all, before)
      ensures Begun(node[t.key + i], sh[t], i) && at == ChildAt(place, sh[t].kids[i].sub)
      ensures forall k :: 0 <= k < t.key ==> node[k] == old(node[k])
      ensures forall n :: n in G && sh[n] in open ==> n.key == old(n.key)
      decreases sh[t], 1
    {
      BeginEntry(t, i, G, sh, open, all, before);
      at := AppendChild(t, i, G, sh, open, all, before);
    }

    /** One turn of the loop: the child is appended before the entry's jump is known. */
    method ChildEntry(t: QTrie, i: nat, ghost G: set<QTrie>, ghost sh: map<QTrie, Tree>,
                      ghost open: set<Tree>, ghost all: set<Tree>, ghost before: map<Tree, nat>)
      requires t in G && G <= sh.Keys && i < |sh[t].kids|
      requires Fills(t, i, i, G, sh, open, all, before) && Subtrees(sh[t]) !! open
      modifies this, node, G`key
      ensures node == old(node) && t.key == old(t.key)
      ensures Fills(t, i + 1, i + 1, G, sh, open, all, before)
      ensures forall k :: 0 <= k < t.key ==> node[k] == old(node[k])
      ensures forall n :: n in G && sh[n] in open ==> n.key == old(n.key)
      decreases sh[t], 2
    {
      var at := StartEntry(t, i, G, sh, open, all, before);
      FinishEntry(t, i, at, G, sh, open, all, before);
    }

    /** The loop over the children. */
    method FillBlock(t: QTrie, ghost G: set<QTrie>, ghost sh: map<QTrie, Tree>,
                     ghost open: set<Tree>, ghost all: set<Tree>, ghost before: map<Tree, nat>)
      requires t in G && G <= sh.Keys && |t.children| == |sh[t].kids|
      requires Fills(t, 0, 0, G, sh, open, all, before) && Subtrees(sh[t]) !! open
      modifies this, node, G`key
      ensures node == old(node) && t.key == old(t.key)
      ensures Fills(t, |sh[t].kids|, |sh[t].kids|, G, sh, open, all, before)
      ensures forall k :: 0 <= k < t.key ==> node[k] == old(node[k])
      ensures forall n :: n in G && sh[n] in open ==> n.key == old(n.key)
      decreases sh[t], 3
    {
      for i := 0 to |t.children|
        invariant node == old(node) && t.key == old(t.key)
        invariant Fills(t, i, i, G, sh, open, all, before)
        invariant forall k :: 0 <= k < t.key ==> node[k] == old(node[k])
        invariant forall n :: n in G && sh[n] in open ==> n.key == old(n.key)
      {
        ChildEntry(t, i, G, sh, open, all, before);
      }
    }

    /** Reserves the block and writes its entries. */
    method FillNew(t: QTrie, ghost G: set<QTrie>, ghost sh: map<QTrie, Tree>,
                   ghost open: set<Tree>, ghost all: set<Tree>)
      requires t in G && Packs(G, sh, open) && sh[t].kids != [] && sh[t] !in place && sh[t] !in open
      requires Subtrees(sh[t]) !! open
      requires place.Keys + open + NonLeaf(Subtrees(sh[t])) <= all && KidCount(all) <= node.Length
      modifies this, node, G`key
      ensures node == old(node) && t.key == old(nodes)
      ensures Fills(t, |sh[t].kids|, |sh[t].kids|, G, sh, open, all, old(place))
      ensures forall k :: 0 <= k < old(nodes) ==> node[k] == old(node[k])
      ensures forall n :: n in G && sh[n] in open ==> n.key == old(n.key)
      decreases sh[t], 4
    {
      OpenBlock(t, G, sh, open, all);
      FillBlock(t, G, sh, open, all, old(place));
    }

    /** Reserves the block, writes its entries and marks the last one. */
    method PlaceBlock(t: QTrie, ghost G: set<QTrie>, ghost sh: map<QTrie, Tree>,
                      ghost open: set<Tree>, ghost all: set<Tree>)
      requires t in G && Packs(G, sh, open) && sh[t].kids != [] && sh[t] !in place
      requires Subtrees(sh[t]) !! open && (nodes == 0 ==> place == map[] && open == {})
      requires place.Keys + open + NonLeaf(Subtrees(sh[t])) <= all && KidCount(all) <= node.Length
      modifies this, node, G`key
      ensures node == old(node) && Layout(node[..], place, nodes, open) && Quiet() && nodes >= old(nodes)
      ensures Grows(sh[t], old(place), old(nodes), place, nodes)
      ensures forall k :: 0 <= k < old(nodes) ==> node[k] == old(node[k])
      ensures forall n :: n in G && sh[n] in open ==> n.key == old(n.key)
      ensures sh[t] in place && t.key == place[sh[t]] && t.key == old(nodes)
      ensures old(nodes) > 0 ==> KeysPlace(G, sh, place, open)
      decreases sh[t], 5
    {
      SubtreesDescend(sh[t], |sh[t].kids|);
      FillNew(t, G, sh, open, all);
      CloseBlock(t, G, sh, open, all, old(place));
    }

    /** Appends t's block and the blocks below it that are not there yet; returns
        the position of t's block, 0 if t is a leaf. */
    method AppendToArray(t: QTrie, ghost G: set<QTrie>, ghost sh: map<QTrie, Tree>,
                         ghost open: set<Tree>, ghost all: set<Tree>)
      returns (at: int)
      requires t in G && Packs(G, sh, open)
      requires Subtrees(sh[t]) !! open && (nodes == 0 ==> place == map[] && open == {})
      requires place.Keys + open + NonLeaf(Subtrees(sh[t])) <= all && KidCount(all) <= node.Length
      modifies this, node, G`key
      ensures node == old(node) && Layout(node[..], place, nodes, open) && Quiet() && nodes >= old(nodes)
      ensures Grows(sh[t], old(place), old(nodes), place, nodes)
      ensures forall k :: 0 <= k < old(nodes) ==> node[k] == old(node[k])
      ensures forall n :: n in G && sh[n] in open ==> n.key == old(n.key)
      ensures at == ChildAt(place, sh[t])
      ensures sh[t].kids != [] && sh[t] !in old(place) ==> at == old(nodes)
      ensures old(nodes) > 0 ==> KeysPlace(G, sh, place, open)
      decreases sh[t], 6
    {
      ghost var x := sh[t];
      SubtreesDescend(x, |x.kids|);
      assert t.Stands(sh);
      if t.key == 0 {
        if |t.children| == 0 {
          assert Subtrees(x) == {x};
          GrowsNot(x, place, nodes);
          return 0;
        }
        PlaceBlock(t, G, sh, open, all);
      } else {
        PlacedClosed(node[..], place, x, |x.kids|);
        GrowsNot(x, place, nodes);
      }
      at := t.key;
    }

    /** Packs into an empty array of the right size. */
    method PackGraph(t: QTrie, ghost G: set<QTrie>, ghost sh: map<QTrie, Tree>)
      requires t in G && Merged(G, sh) && LiveKeys(G, sh, {})
      requires nodes == 0 && place == map[] && !overflow && node.Length == KidCount(NonLeaf(Subtrees(sh[t])))
      modifies this, node, G`key
      ensures node == old(node) && Valid(sh[t])
    {
      ghost var all := NonLeaf(Subtrees(sh[t]));
      assert place.Keys + {} == {};
      SubtreesDescend(sh[t], |sh[t].kids|);
      var at := AppendToArray(t, G, sh, {}, all);
      assert place.Keys == all && place.Keys + {} == all;
    }

    /** Packs the merged graph of t into an array of exactly the size counted. */
    method GenerateArray(t: QTrie, ghost G: set<QTrie>, ghost sh: map<QTrie, Tree>)
      requires t in G && Merged(G, sh) && LiveKeys(G, sh, NonLeaf(Subtrees(sh[t]))) && !overflow
      modifies this, G`key
      ensures Valid(sh[t]) && fresh(node)
      ensures node.Length == KidCount(NonLeaf(Subtrees(sh[t])))
    {
      var n := CountNodes(t, G, sh);
      StartArray(n);
      PackGraph(t, G, sh);
    }

    /** The word that ends at an entry, and those below it, as they are read; p stands for the
        letters before the entry. */
    method AppendEntry(ghost list: seq<Word>, before: seq<Word>, nid: int, i: nat, ghost p: Word, s: Word,
                       ghost t: Tree, ghost top: Tree)
      returns (r: seq<Word>)
      requires Valid(top) && Linked(place) && t in place && nid == place[t]
      requires i < |t.kids| && s == StoreWord(p + [t.kids[i].letter])
      requires before == list + StoreAll(WordsUpTo(t, i, p))
      ensures r == list + StoreAll(WordsUpTo(t, i + 1, p))
      decreases t, 0
    {
      EntryRead(node[..], t, i, place);
      var e := node[nid + i];
      ghost var sub, q := t.kids[i].sub, p + [t.kids[i].letter];
      r := if e.isword then before + [s] else before;
      if e.offset != 0 {
        r := AppendAllWords(r, e.offset + nid + i, s, q, sub, top);
      } else {
        assert WordsUpTo(sub, |sub.kids|, q) == [];
      }
      assert r == before + (if e.isword then [s] else []) + StoreAll(WordsUpTo(sub, |sub.kids|, q));
      ReadNext(list, t, i, p, r);
    }

    /** Appends the words of the list at nid, as they are read; p is s as it was stored. */
    method AppendAllWords(list: seq<Word>, nid: int, s0: Word, ghost p: Word, ghost t: Tree, ghost top: Tree)
      returns (r: seq<Word>)
      requires Valid(top) && Linked(place) && t in place && nid == place[t] && s0 == StoreWord(p)
      ensures r == list + StoreAll(WordsUpTo(t, |t.kids|, p))
      decreases t, 1
    {
      r := list;
      var s: Word := s0;
      var i, next := 0, |s0|;
      assert StoreAll([]) == [] && list + [] == list;
      while true
        invariant 0 <= i < |t.kids| && r == list + StoreAll(WordsUpTo(t, i, p))
        invariant |s| >= next && s[..next] == s0
        decreases |t.kids| - i
      {
        EntryRead(node[..], t, i, place);
        s := s[..next] + [node[nid + i].let];
        StoreSnoc(p, t.kids[i].letter);
        r := AppendEntry(list, r, nid, i, p, s, t, top);
        i := i + 1;
        if node[nid + i - 1].islast { break; }
      }
    }

    method CountWords(nid: int, ghost t: Tree, ghost top: Tree) returns (n: int)
      requires Valid(top) && Linked(place) && t in place && nid == place[t]
      ensures n == CountUpTo(t, |t.kids|)
      decreases t
    {
      n := 0;
      var i := 0;
      while true
        invariant 0 <= i < |t.kids| && n == CountUpTo(t, i)
        decreases |t.kids| - i
      {
        EntryRead(node[..], t, i, place);
        var e := node[nid + i];
        if e.isword { n := n + 1; }
        if e.offset != 0 {
          var m := CountWords(e.offset + nid + i, t.kids[i].sub, top);
          n := n + m;
        }
        i := i + 1;
        if e.islast { break; }
      }
    }

    /** Is there a word path spelling s from index on, in the list at nid? */
    method Contains(s: Word, nid: int, index: nat, ghost t: Tree, ghost top: Tree) returns (b: bool)
      requires Valid(top) && Linked(place) && t in place && nid == place[t]
      ensures b <==> index < |s| && Finds(t, s[index..])
      ensures index < |s| && Sorted(t) && NarrowWord(s[index..]) && Accepts(t, s[index..]) ==> b
      ensures index < |s| && Sorted(t) && Narrow(t) ==> (b <==> Accepts(t, s[index..]))
      ensures (exists k :: index <= k < |s| && 0x1000 <= s[k]) ==> !b
      decreases t
    {
      if index < |s| {
        FindsRest(t, s, index);
      }
      var i := 0;
      while true
        invariant 0 <= i < |t.kids|
        invariant index < |s| ==> (Finds(t, s[index..]) <==> Walk(t, i, s[index..]))
        decreases |t.kids| - i
      {
        EntryRead(node[..], t, i, place);
        var n := node[nid + i];
        var c := if index < |s| then s[index] else 0;
        if c == n.let {
          if n.isword && index == |s| - 1 {
            return true;
          }
          if n.offset != 0 {
            b := Contains(s, n.offset + nid + i, index + 1, t.kids[i].sub, top);
            assert index < |s| ==> s[index..][1..] == s[index + 1..];
            return;
          }
        }
        i := i + 1;
        if n.islast { break; }
      }
      b := false;
    }
  }
}
