/** The splitter (libqtaux/qsplitter.cpp): widgets in a row with a handle between each two.
    One axis is modelled: `left` and `width` are the contents rectangle along it. */
module Splitters {
  import opened Options

  /** A layout struct with its widget. Handles have the fixed size `sizer`; widgets have a
      size between `min` and `max`. */
  datatype Item = Item(wid: int, isSplitter: bool, hidden: bool, sizer: int,
                       pos: int, size: int, min: int, max: int, id: int)

  // ---------- geometry ----------

  function Lo(x: Item): int { if x.hidden then 0 else if x.isSplitter then x.sizer else x.min }
  function Hi(x: Item): int { if x.hidden then 0 else if x.isSplitter then x.sizer else x.max }
  function Extent(x: Item): int { if x.hidden then 0 else x.size }

  function SumLo(s: seq<Item>): int { if s == [] then 0 else SumLo(s[..|s| - 1]) + Lo(s[|s| - 1]) }
  function SumHi(s: seq<Item>): int { if s == [] then 0 else SumHi(s[..|s| - 1]) + Hi(s[|s| - 1]) }
  function Sum(s: seq<Item>): int { if s == [] then 0 else Sum(s[..|s| - 1]) + Extent(s[|s| - 1]) }

  predicate Fits(x: Item) { x.hidden || Lo(x) <= x.size <= Hi(x) }

  /** The visible items stand side by side from a to b, with no gap and no overlap, each
      within its limits. */
  predicate Row(s: seq<Item>, a: int, b: int) {
    if s == [] then a == b
    else
      var x := s[|s| - 1];
      Fits(x) && (x.hidden || x.pos == b - x.size) && Row(s[..|s| - 1], a, b - Extent(x))
  }

  /** The same widgets and handles, hidden ones where they were. */
  predicate SameItem(x: Item, y: Item) {
    y.(pos := x.pos, size := x.size) == x && (x.hidden ==> x == y)
  }

  ghost predicate SameItems(s: seq<Item>, t: seq<Item>) {
    |s| == |t| && forall i {:trigger SameItem(s[i], t[i])} :: 0 <= i < |s| ==> SameItem(s[i], t[i])
  }

  lemma {:induction false} SumsConcat(s: seq<Item>, t: seq<Item>)
    ensures Sum(s + t) == Sum(s) + Sum(t)
    ensures SumLo(s + t) == SumLo(s) + SumLo(t) && SumHi(s + t) == SumHi(s) + SumHi(t)
  {
    if t == [] {
      assert s + t == s;
    } else {
      assert (s + t)[..|s + t| - 1] == s + t[..|t| - 1];
      SumsConcat(s, t[..|t| - 1]);
    }
  }

  /** A row fits between the summed limits. */
  lemma {:induction false} RowSums(s: seq<Item>, a: int, b: int)
    requires Row(s, a, b)
    ensures b == a + Sum(s) && SumLo(s) <= b - a <= SumHi(s)
  {
    if s == [] {
    } else {
      RowSums(s[..|s| - 1], a, b - Extent(s[|s| - 1]));
    }
  }

  lemma {:induction false} RowConcat(s: seq<Item>, t: seq<Item>, a: int, b: int)
    ensures Row(s + t, a, b) <==> Row(s, a, b - Sum(t)) && Row(t, b - Sum(t), b)
  {
    if t == [] {
      assert s + t == s;
    } else {
      var x := t[|t| - 1];
      assert (s + t)[..|s + t| - 1] == s + t[..|t| - 1];
      RowConcat(s, t[..|t| - 1], a, b - Extent(x));
    }
  }

  lemma SplitAt(s: seq<Item>, i: nat)
    requires i < |s|
    ensures s == s[..i] + s[i..] && s[i..] == [s[i]] + s[i + 1..]
  {
  }

  /** Where each item of a row stands. */
  lemma {:induction false} RowAt(s: seq<Item>, a: int, b: int, i: nat)
    requires Row(s, a, b) && i < |s|
    ensures Fits(s[i]) && (!s[i].hidden ==> s[i].pos == a + Sum(s[..i]))
    ensures Row(s[..i], a, a + Sum(s[..i])) && Row(s[i..], a + Sum(s[..i]), b)
  {
    SplitAt(s, i);
    SumsConcat(s[..i], s[i..]);
    RowSums(s, a, b);
    RowConcat(s[..i], s[i..], a, b);
    RowCons(s[i], s[i + 1..], a + Sum(s[..i]), b);
  }

  /** A visible widget within its limits, a visible handle of its fixed size, standing at p. */
  predicate Stands(x: Item, p: int) {
    !x.hidden ==> x.pos == p && if x.isSplitter then x.size == x.sizer else x.min <= x.size <= x.max
  }

  /** Item i stands where the visible items before it end. */
  predicate StandsAt(s: seq<Item>, a: int, i: nat)
    requires i < |s|
  {
    Stands(s[i], a + Sum(s[..i]))
  }

  ghost predicate AllStand(s: seq<Item>, a: int) {
    forall i {:trigger StandsAt(s, a, i)} :: 0 <= i < |s| ==> StandsAt(s, a, i)
  }

  lemma StandsBefore(rest: seq<Item>, x: Item, a: int, i: nat)
    requires i < |rest|
    ensures StandsAt(rest + [x], a, i) == StandsAt(rest, a, i)
  {
    assert (rest + [x])[..i] == rest[..i];
  }

  lemma StandsAtEnd(rest: seq<Item>, x: Item, a: int)
    ensures StandsAt(rest + [x], a, |rest|) == Stands(x, a + Sum(rest))
  {
    assert (rest + [x])[..|rest|] == rest;
  }

  lemma AllStandSnoc(rest: seq<Item>, x: Item, a: int)
    ensures AllStand(rest + [x], a) <==> AllStand(rest, a) && Stands(x, a + Sum(rest))
  {
    forall i | 0 <= i < |rest|
      ensures StandsAt(rest + [x], a, i) == StandsAt(rest, a, i)
    {
      StandsBefore(rest, x, a, i);
    }
    StandsAtEnd(rest, x, a);
  }

  lemma StandsLast(x: Item, b: int)
    ensures Stands(x, b - Extent(x)) <==> Fits(x) && (x.hidden || x.pos == b - x.size)
  {
  }

  /** What a row is: every visible item stands where the visible ones before it end, and the
      last of them ends at b. */
  lemma {:induction false} RowMeans(s: seq<Item>, a: int, b: int)
    ensures Row(s, a, b) <==> b == a + Sum(s) && AllStand(s, a)
  {
    if s == [] {
    } else {
      var x, rest := s[|s| - 1], s[..|s| - 1];
      assert s == rest + [x];
      RowMeans(rest, a, b - Extent(x));
      AllStandSnoc(rest, x, a);
      StandsLast(x, b);
    }
  }

  lemma RowCons(x: Item, s: seq<Item>, a: int, b: int)
    ensures Row([x] + s, a, b) <==> Fits(x) && (x.hidden || x.pos == a) && Row(s, a + Extent(x), b)
  {
    RowConcat([x], s, a, b);
    assert [x][..0] == [];
    if Row(s, a + Extent(x), b) {
      RowSums(s, a + Extent(x), b);
    }
  }

  lemma SumsCons(x: Item, s: seq<Item>)
    ensures SumLo([x] + s) == Lo(x) + SumLo(s) && SumHi([x] + s) == Hi(x) + SumHi(s)
  {
    SumsConcat([x], s);
    assert [x][..0] == [];
  }

  lemma SameConcat(s: seq<Item>, t: seq<Item>, s': seq<Item>, t': seq<Item>)
    requires SameItems(s, s') && SameItems(t, t')
    ensures SameItems(s + t, s' + t')
  {
    forall i | 0 <= i < |s + t|
      ensures SameItem((s + t)[i], (s' + t')[i])
    {
      if i < |s| {
        assert SameItem(s[i], s'[i]);
      } else {
        assert SameItem(t[i - |s|], t'[i - |s|]);
      }
    }
  }

  function Clamp(x: int, lo: int, hi: int): int {
    var m := if x < hi then x else hi;
    if lo > m then lo else m
  }

  // ---------- pushing to the right ----------

  /** The item at the front once its left edge is at pos. */
  function Pushed(x: Item, pos: int): Item {
    if x.hidden then x
    else if x.isSplitter then x.(pos := pos, size := x.sizer)
    else x.(pos := pos, size := Clamp(x.pos + x.size - pos, x.min, x.max))
  }

  /** What moveAfter makes of the items from its id on. */
  function After(s: seq<Item>, pos: int): (t: seq<Item>)
    ensures |t| == |s|
  {
    if s == [] || (!s[0].hidden && s[0].pos == pos) then s
    else [Pushed(s[0], pos)] + After(s[1..], pos + Extent(Pushed(s[0], pos)))
  }

  /** One push leaves the rest a feasible stretch: lo and hi are what the rest can take. */
  lemma PushedFits(x: Item, a: int, b: int, pos: int, lo: int, hi: int)
    requires Fits(x) && (x.hidden || x.pos == a) && lo <= b - (a + Extent(x)) <= hi
    requires Lo(x) + lo <= b - pos <= Hi(x) + hi
    ensures var y := Pushed(x, pos);
            Fits(y) && SameItem(x, y) && (y.hidden || y.pos == pos) && lo <= b - (pos + Extent(y)) <= hi
  {
  }

  /** Moving the left edge of a row to any feasible position keeps the right edge, the
      order, and every size within its limits. */
  lemma {:induction false} AfterRow(s: seq<Item>, a: int, b: int, pos: int)
    requires Row(s, a, b) && SumLo(s) <= b - pos <= SumHi(s)
    ensures Row(After(s, pos), pos, b) && SameItems(s, After(s, pos))
    decreases |s|, 1
  {
    if s == [] {
    } else if !s[0].hidden && s[0].pos == pos {
      assert s == [s[0]] + s[1..];
      RowCons(s[0], s[1..], a, b);
    } else {
      assert s == [s[0]] + s[1..];
      RowCons(s[0], s[1..], a, b);
      AfterRowStep(s[0], s[1..], a, b, pos);
    }
  }

  lemma {:induction false} AfterRowStep(x: Item, rest: seq<Item>, a: int, b: int, pos: int)
    requires Fits(x) && (x.hidden || x.pos == a) && Row(rest, a + Extent(x), b)
    requires SumLo([x] + rest) <= b - pos <= SumHi([x] + rest)
    ensures var y := Pushed(x, pos);
            var t := [y] + After(rest, pos + Extent(y));
            Row(t, pos, b) && SameItems([x] + rest, t)
    decreases |rest| + 1, 0
  {
    var y := Pushed(x, pos);
    SumsCons(x, rest);
    RowSums(rest, a + Extent(x), b);
    PushedFits(x, a, b, pos, SumLo(rest), SumHi(rest));
    AfterRow(rest, a + Extent(x), b, pos + Extent(y));
    RowCons(y, After(rest, pos + Extent(y)), pos, b);
    SameConcat([x], rest, [y], After(rest, pos + Extent(y)));
  }

  // ---------- pushing to the left ----------

  /** The item at the end once its last pixel is at pos. */
  function Pulled(x: Item, pos: int): Item {
    if x.hidden then x
    else if x.isSplitter then x.(pos := pos - x.sizer + 1, size := x.sizer)
    else
      var dd := Clamp(pos - x.pos + 1, x.min, x.max);
      x.(pos := pos - dd + 1, size := dd)
  }

  predicate Stops(x: Item, pos: int) {
    !x.hidden && !x.isSplitter && x.pos == Pulled(x, pos).pos
  }

  /** What moveBefore makes of the items up to its id: pos is the last pixel to fill. */
  function Before(s: seq<Item>, pos: int): (t: seq<Item>)
    ensures |t| == |s|
    decreases |s|, 0
  {
    if s == [] then []
    else
      var x, rest := s[|s| - 1], s[..|s| - 1];
      Behind(rest, x, pos) + [Pulled(x, pos)]
  }

  /** What is made of the items in front of x. */
  function Behind(rest: seq<Item>, x: Item, pos: int): (t: seq<Item>)
    ensures |t| == |rest|
    decreases |rest|, 1
  {
    if Stops(x, pos) then rest else Before(rest, pos - Extent(Pulled(x, pos)))
  }

  lemma RowSnoc(s: seq<Item>, x: Item, a: int, b: int)
    ensures Row(s + [x], a, b)
            <==> Fits(x) && (x.hidden || x.pos == b - x.size) && Row(s, a, b - Extent(x))
  {
    assert (s + [x])[..|s|] == s;
  }

  /** The last pixel at pos suits the items of a row that starts at a. */
  predicate Feasible(s: seq<Item>, a: int, pos: int) { SumLo(s) <= pos + 1 - a <= SumHi(s) }

  /** A row but for its last item, which ends it. */
  predicate RowThen(rest: seq<Item>, x: Item, a: int, b: int) {
    Fits(x) && (x.hidden || x.pos == b - x.size) && Row(rest, a, b - Extent(x))
  }

  lemma PulledFits(x: Item, a: int, b: int, pos: int, lo: int, hi: int)
    requires Fits(x) && (x.hidden || x.pos == b - x.size) && lo <= b - Extent(x) - a <= hi
    requires Lo(x) + lo <= pos + 1 - a <= Hi(x) + hi
    ensures var y := Pulled(x, pos);
            && Fits(y) && SameItem(x, y) && (y.hidden || y.pos == pos + 1 - y.size)
            && lo <= pos - Extent(y) + 1 - a <= hi
  {
  }

  lemma PulledFeasible(rest: seq<Item>, x: Item, a: int, b: int, pos: int)
    requires RowThen(rest, x, a, b) && Feasible(rest + [x], a, pos)
    ensures var y := Pulled(x, pos);
            && Fits(y) && SameItem(x, y) && (y.hidden || y.pos == pos + 1 - y.size)
            && Feasible(rest, a, pos - Extent(y))
            && (Stops(x, pos) ==> b - Extent(x) == pos + 1 - Extent(y))
  {
    assert (rest + [x])[..|rest|] == rest;
    RowSums(rest, a, b - Extent(x));
    PulledFits(x, a, b, pos, SumLo(rest), SumHi(rest));
  }

  lemma SnocRow(rest: seq<Item>, t: seq<Item>, x: Item, y: Item, a: int, b: int)
    requires Row(t, a, b - Extent(y)) && SameItems(rest, t)
    requires Fits(y) && SameItem(x, y) && (y.hidden || y.pos == b - y.size)
    ensures Row(t + [y], a, b) && SameItems(rest + [x], t + [y])
  {
    RowSnoc(t, y, a, b);
    SameConcat(rest, [x], t, [y]);
  }

  lemma BeforeSnoc(rest: seq<Item>, x: Item, pos: int)
    ensures Before(rest + [x], pos) == Behind(rest, x, pos) + [Pulled(x, pos)]
  {
    assert (rest + [x])[..|rest|] == rest;
  }

  lemma ItemsSame(s: seq<Item>)
    ensures SameItems(s, s)
  {
  }

  /** Moving the right edge of a row keeps its left edge, order and limits in the same way. */
  lemma {:induction false} BeforeRow(s: seq<Item>, a: int, b: int, pos: int)
    requires Row(s, a, b) && Feasible(s, a, pos)
    ensures Row(Before(s, pos), a, pos + 1) && SameItems(s, Before(s, pos))
    decreases |s|, 1
  {
    if s == [] {
    } else {
      assert s == s[..|s| - 1] + [s[|s| - 1]];
      BeforeRowThen(s[..|s| - 1], s[|s| - 1], a, b, pos);
    }
  }

  lemma {:induction false} BeforeRowThen(rest: seq<Item>, x: Item, a: int, b: int, pos: int)
    requires RowThen(rest, x, a, b) && Feasible(rest + [x], a, pos)
    ensures var t := Before(rest + [x], pos); Row(t, a, pos + 1) && SameItems(rest + [x], t)
    decreases |rest| + 1, 0
  {
    var y := Pulled(x, pos);
    PulledFeasible(rest, x, a, b, pos);
    if Stops(x, pos) {
      ItemsSame(rest);
    } else {
      BeforeRow(rest, a, b - Extent(x), pos - Extent(y));
    }
    SnocRow(rest, Behind(rest, x, pos), x, y, a, pos + 1);
    BeforeSnoc(rest, x, pos);
  }

  // ---------- no item moves that need not ----------

  /** Once an item stays where it was, so does everything to the right of it. */
  lemma {:induction false} PushStops(s: seq<Item>, pos: int, i: nat)
    requires i < |s| && !s[i].hidden && After(s, pos)[i].pos == s[i].pos
    ensures After(s, pos)[i..] == s[i..]
    decreases |s|
  {
    if i == 0 || (!s[0].hidden && s[0].pos == pos) {
    } else {
      var next := pos + Extent(Pushed(s[0], pos));
      PushStops(s[1..], next, i - 1);
      assert After(s, pos)[i..] == After(s[1..], next)[i - 1..];
    }
  }

  lemma PulledSame(x: Item, b: int)
    requires Fits(x) && (x.hidden || x.pos == b - x.size)
    ensures Pulled(x, b - 1) == x
  {
  }

  lemma BehindSame(rest: seq<Item>, x: Item, b: int)
    requires Fits(x) && (x.hidden || x.pos == b - x.size) && Before(rest, b - Extent(x) - 1) == rest
    ensures Behind(rest, x, b - 1) == rest
  {
    PulledSame(x, b);
  }

  /** A row already filled to pos is left as it is. */
  lemma {:induction false} BeforeSame(s: seq<Item>, a: int, b: int)
    requires Row(s, a, b)
    ensures Before(s, b - 1) == s
  {
    if s == [] {
    } else {
      var x, rest := s[|s| - 1], s[..|s| - 1];
      assert s == rest + [x];
      PulledSame(x, b);
      BeforeSame(rest, a, b - Extent(x));
      BehindSame(rest, x, b);
    }
  }

  /** Once an item keeps its left edge, everything to the left of it stays. */
  lemma {:induction false} PullStops(s: seq<Item>, a: int, b: int, pos: int, i: nat)
    requires Row(s, a, b) && i < |s| && !s[i].hidden && Before(s, pos)[i].pos == s[i].pos
    ensures Before(s, pos)[..i] == s[..i]
    decreases |s|
  {
    var x, rest := s[|s| - 1], s[..|s| - 1];
    var next := pos - Extent(Pulled(x, pos));
    assert s == rest + [x];
    if Stops(x, pos) {
      assert Before(s, pos)[..i] == rest[..i];
    } else if i == |s| - 1 {
      BeforeSame(rest, a, b - Extent(x));
    } else {
      PullStops(rest, a, b - Extent(x), next, i);
      assert Before(s, pos)[..i] == Before(rest, next)[..i];
    }
  }

  // ---------- the legal positions of a handle ----------

  function RangeMin(s: seq<Item>, id: nat, left: int, width: int): int
    requires id <= |s|
  {
    var b, a := SumLo(s[..id]), width - SumHi(s[id..]);
    left + if a > b then a else b
  }

  function RangeMax(s: seq<Item>, id: nat, left: int, width: int): int
    requires id <= |s|
  {
    var b, a := SumHi(s[..id]), width - SumLo(s[id..]);
    left + if a < b then a else b
  }

  /** A layout of the items of s in the contents rectangle with handle id at p. */
  ghost predicate Layout(s: seq<Item>, t: seq<Item>, left: int, width: int, id: nat, p: int) {
    id < |t| && t[id].pos == p && SameItems(s, t) && Row(t, left, left + width)
  }

  lemma {:induction false} SameLimits(s: seq<Item>, t: seq<Item>)
    requires SameItems(s, t)
    ensures SumLo(s) == SumLo(t) && SumHi(s) == SumHi(t)
  {
    if s == [] {
    } else {
      SameLimits(s[..|s| - 1], t[..|t| - 1]);
      assert SameItem(s[|s| - 1], t[|t| - 1]);
    }
  }

  /** Every layout has its handle within the range. */
  lemma LayoutInRange(s: seq<Item>, t: seq<Item>, left: int, width: int, id: nat, p: int)
    requires id < |s| && !s[id].hidden && Layout(s, t, left, width, id, p)
    ensures RangeMin(s, id, left, width) <= p <= RangeMax(s, id, left, width)
  {
    assert SameItem(s[id], t[id]);
    RowAt(t, left, left + width, id);
    RowSums(t[..id], left, p);
    RowSums(t[id..], p, left + width);
    SameLimits(s[..id], t[..id]);
    SameLimits(s[id..], t[id..]);
  }

  /** The layout a drag to p makes. */
  function Moved(s: seq<Item>, id: nat, p: int): seq<Item>
    requires id <= |s|
  {
    Before(s[..id], p - 1) + After(s[id..], p)
  }

  /** Every position in the range is reached. */
  lemma MovedIsLayout(s: seq<Item>, left: int, width: int, id: nat, p: int)
    requires id < |s| && !s[id].hidden && Row(s, left, left + width)
    requires RangeMin(s, id, left, width) <= p <= RangeMax(s, id, left, width)
    ensures Layout(s, Moved(s, id, p), left, width, id, p)
  {
    var m := left + Sum(s[..id]);
    RowAt(s, left, left + width, id);
    RowSums(s[..id], left, m);
    RowSums(s[id..], m, left + width);
    MovedParts(s[..id], s[id..], left, m, width, p);
    assert s == s[..id] + s[id..];
  }

  lemma MovedParts(s: seq<Item>, t: seq<Item>, left: int, m: int, width: int, p: int)
    requires Row(s, left, m) && Row(t, m, left + width) && t != [] && !t[0].hidden
    requires SumLo(s) <= p - left <= SumHi(s) && SumLo(t) <= left + width - p <= SumHi(t)
    ensures Layout(s + t, Before(s, p - 1) + After(t, p), left, width, |s|, p)
  {
    BeforeRow(s, left, m, p - 1);
    AfterRow(t, m, left + width, p);
    HandleAt(t, p);
    JoinLayout(s, t, Before(s, p - 1), After(t, p), left, width, p);
  }

  lemma JoinLayout(s: seq<Item>, t: seq<Item>, s': seq<Item>, t': seq<Item>, left: int, width: int, p: int)
    requires SameItems(s, s') && SameItems(t, t') && t' != [] && t'[0].pos == p
    requires Row(s', left, p) && Row(t', p, left + width)
    ensures Layout(s + t, s' + t', left, width, |s|, p)
  {
    JoinRows(s', t', left, p, left + width);
    SameConcat(s, t, s', t');
  }

  lemma JoinRows(s: seq<Item>, t: seq<Item>, a: int, m: int, b: int)
    requires Row(s, a, m) && Row(t, m, b)
    ensures Row(s + t, a, b)
  {
    RowSums(t, m, b);
    RowConcat(s, t, a, b);
  }

  lemma HandleAt(s: seq<Item>, p: int)
    requires s != [] && !s[0].hidden
    ensures After(s, p)[0].pos == p
  {
  }

  // ---------- one step of the recursions ----------

  function FromId(s: seq<Item>, id: nat, pos: int): seq<Item> {
    if id <= |s| then s[..id] + After(s[id..], pos) else s
  }

  lemma FromIdStep(s: seq<Item>, id: nat, pos: int)
    requires id < |s|
    ensures var y := Pushed(s[id], pos);
            var next := pos + Extent(y);
            if !s[id].hidden && s[id].pos == pos then FromId(s, id, pos) == s
            else FromId(s, id, pos) == FromId(s, id + 1, next)[id := y]
                 == FromId(s[id := y], id + 1, next)
  {
    var y := Pushed(s[id], pos);
    var next := pos + Extent(y);
    if !s[id].hidden && s[id].pos == pos {
      assert s == s[..id] + s[id..];
    } else {
      assert s[id..][1..] == s[id + 1..];
      FromIdSplit(s, id, y, After(s[id + 1..], next));
      assert s[id := y][id + 1..] == s[id + 1..];
    }
  }

  lemma FromIdSplit(s: seq<Item>, id: nat, y: Item, u: seq<Item>)
    requires id < |s|
    ensures s[..id] + ([y] + u) == (s[..id + 1] + u)[id := y] == s[id := y][..id + 1] + u
  {
  }

  function UpToId(s: seq<Item>, id: int, pos: int): seq<Item> {
    if 0 <= id < |s| then Before(s[..id + 1], pos) + s[id + 1..] else s
  }

  lemma UpToIdStep(s: seq<Item>, id: nat, pos: int)
    requires id < |s|
    ensures var y := Pulled(s[id], pos);
            var next := pos - Extent(y);
            if Stops(s[id], pos) then UpToId(s, id, pos) == s[id := y]
            else UpToId(s, id, pos) == UpToId(s, id - 1, next)[id := y]
                 == UpToId(s[id := y], id - 1, next)
  {
    var y := Pulled(s[id], pos);
    var next := pos - Extent(y);
    assert s[..id + 1] == s[..id] + [s[id]];
    BeforeSnoc(s[..id], s[id], pos);
    var u := if Stops(s[id], pos) then s[..id] else Before(s[..id], next);
    assert UpToId(s, id, pos) == u + [y] + s[id + 1..];
    UpToIdSplit(s, id, y, u);
    UpToIdFirst(s, id, y, next);
  }

  lemma UpToIdSplit(s: seq<Item>, id: nat, y: Item, u: seq<Item>)
    requires id < |s| && |u| == id
    ensures u + [y] + s[id + 1..] == (u + s[id..])[id := y] == u + s[id := y][id..]
    ensures u == s[..id] ==> u + s[id..] == s
  {
  }

  lemma UpToIdFirst(s: seq<Item>, id: nat, y: Item, next: int)
    requires id < |s|
    ensures UpToId(s, id - 1, next) == Before(s[..id], next) + s[id..]
    ensures UpToId(s[id := y], id - 1, next) == Before(s[..id], next) + s[id := y][id..]
  {
    assert s[id := y][..id] == s[..id];
    if id == 0 {
      assert s[..0] == [] && s == [] + s[0..] && s[0 := y] == [] + s[0 := y][0..];
    }
  }

  lemma UpToIdHandle(s: seq<Item>, id: nat, pos: int)
    requires id < |s| && s[id].isSplitter && !s[id].hidden
    ensures var dd := s[id].sizer;
            var y := s[id].(pos := pos - dd + 1, size := dd);
            UpToId(s, id, pos) == UpToId(s, id - 1, pos - dd)[id := y] == UpToId(s[id := y], id - 1, pos - dd)
  {
    var y := Pulled(s[id], pos);
    assert Extent(y) == s[id].sizer && !Stops(s[id], pos);
    UpToIdStep(s, id, pos);
  }

  lemma UpToIdKeeps(s: seq<Item>, id: nat, pos: int)
    requires id < |s|
    ensures |UpToId(s, id - 1, pos)| == |s| && UpToId(s, id - 1, pos)[id] == s[id]
  {
  }

  lemma FromIdHandle(s: seq<Item>, id: nat, pos: int)
    requires id < |s| && s[id].isSplitter && !s[id].hidden && s[id].pos != pos
    ensures var dd := s[id].sizer;
            var y := s[id].(pos := pos, size := dd);
            FromId(s, id, pos) == FromId(s, id + 1, pos + dd)[id := y] == FromId(s[id := y], id + 1, pos + dd)
  {
    FromIdStep(s, id, pos);
  }

  // ---------- the list with its current item ----------

  function Taken(s: seq<Item>, k: nat): seq<Item>
    requires k < |s|
  {
    s[..k] + s[k + 1..]
  }

  /** The pointer list of the toolkit: removal makes the next item current, or the new last
      one if the last was removed. */
  class QList {
    var items: seq<Item>
    var cur: int

    ghost predicate Valid() reads this { -1 <= cur < |items| }

    constructor ()
      ensures Valid() && items == [] && cur == -1
    {
      items, cur := [], -1;
    }

    method First() returns (s: Option<Item>)
      modifies this`cur
      ensures Valid() && cur == (if items == [] then -1 else 0)
      ensures s == (if items == [] then None else Some(items[0]))
    {
      cur := if |items| > 0 then 0 else -1;
      s := Current();
    }

    method Next() returns (s: Option<Item>)
      requires Valid() && cur >= 0
      modifies this`cur
      ensures Valid() && cur == (if old(cur) + 1 < |items| then old(cur) + 1 else -1)
      ensures s == (if cur < 0 then None else Some(items[cur]))
    {
      cur := if cur + 1 < |items| then cur + 1 else -1;
      s := Current();
    }

    method Prev() returns (s: Option<Item>)
      requires Valid() && cur >= 0
      modifies this`cur
      ensures Valid() && cur == old(cur) - 1
      ensures s == (if cur < 0 then None else Some(items[cur]))
    {
      cur := cur - 1;
      s := Current();
    }

    method Current() returns (s: Option<Item>)
      requires Valid()
      ensures s == (if cur < 0 then None else Some(items[cur]))
    {
      s := if cur < 0 then None else Some(items[cur]);
    }

    method Take() returns (s: Item)
      requires Valid() && cur >= 0
      modifies this
      ensures s == old(items[cur]) && items == Taken(old(items), old(cur))
      ensures Valid() && cur == (if old(cur) < |items| then old(cur) else |items| - 1)
    {
      s := items[cur];
      items := items[..cur] + items[cur + 1..];
      cur := if cur < |items| then cur else |items| - 1;
    }

    method Prepend(s: Item)
      modifies this
      ensures items == [s] + old(items) && cur == 0 && Valid()
    {
      items := [s] + items;
      cur := 0;
    }

    method Append(s: Item)
      modifies this
      ensures items == old(items) + [s] && cur == |items| - 1 && Valid()
    {
      items := items + [s];
      cur := |items| - 1;
    }
  }

  /** r is a layout of the items of s, widget sizes stored, with handle id as close to p as
      any layout can have it. */
  ghost predicate Dragged(s: seq<Item>, r: seq<Item>, left: int, width: int, id: nat, p: int) {
    exists q, t :: DraggedTo(s, r, left, width, id, p, q, t)
  }

  ghost predicate DraggedTo(s: seq<Item>, r: seq<Item>, left: int, width: int, id: nat, p: int,
                            q: int, t: seq<Item>)
  {
    Layout(s, t, left, width, id, q) && r == Stored(t) && Closest(s, left, width, id, p, q)
  }

  lemma DragIsLayout(s: seq<Item>, left: int, width: int, id: nat, p: int, q: int)
    requires id < |s| && !s[id].hidden && Row(s, left, left + width)
    requires q == Clamp(p, RangeMin(s, id, left, width), RangeMax(s, id, left, width))
    ensures Dragged(s, Stored(Moved(s, id, q)), left, width, id, p)
    ensures Row(Stored(Moved(s, id, q)), left, left + width)
  {
    ClampIsClosest(s, left, width, id, p);
    MovedIsLayout(s, left, width, id, q);
    StoredLayout(s, left, width, id, p, q, Moved(s, id, q));
  }

  lemma StoredLayout(s: seq<Item>, left: int, width: int, id: nat, p: int, q: int, t: seq<Item>)
    requires Layout(s, t, left, width, id, q) && Closest(s, left, width, id, p, q)
    ensures Dragged(s, Stored(t), left, width, id, p) && Row(Stored(t), left, left + width)
  {
    StoredRow(t, left, left + width);
    assert DraggedTo(s, Stored(t), left, width, id, p, q, t);
  }

  function StoredItem(x: Item): Item { if x.isSplitter then x else x.(sizer := x.size) }

  function Stored(s: seq<Item>): (t: seq<Item>) {
    seq(|s|, i requires 0 <= i < |s| => StoredItem(s[i]))
  }

  /** Storing sizes moves nothing: the row and its limits are unchanged. */
  lemma {:induction false} StoredRow(s: seq<Item>, a: int, b: int)
    ensures Row(Stored(s), a, b) <==> Row(s, a, b)
  {
    if s == [] {
    } else {
      StoredRow(s[..|s| - 1], a, b - Extent(s[|s| - 1]));
      assert Stored(s)[..|s| - 1] == Stored(s[..|s| - 1]);
    }
  }

  /** q can be reached, and no position that can be reached is closer to p. */
  ghost predicate Closest(s: seq<Item>, left: int, width: int, id: nat, p: int, q: int) {
    (exists t :: Layout(s, t, left, width, id, q))
    && forall t, r :: Layout(s, t, left, width, id, r) ==> Abs(p - q) <= Abs(p - r)
  }

  function Abs(x: int): int { if x < 0 then -x else x }

  lemma ClampIsClosest(s: seq<Item>, left: int, width: int, id: nat, p: int)
    requires id < |s| && !s[id].hidden && Row(s, left, left + width)
    ensures var lo, hi := RangeMin(s, id, left, width), RangeMax(s, id, left, width);
            var q := Clamp(p, lo, hi);
            lo <= q <= hi && Closest(s, left, width, id, p, q)
  {
    var lo, hi := RangeMin(s, id, left, width), RangeMax(s, id, left, width);
    LayoutInRange(s, s, left, width, id, s[id].pos);
    MovedIsLayout(s, left, width, id, Clamp(p, lo, hi));
    forall t, r | Layout(s, t, left, width, id, r)
      ensures lo <= r <= hi
    {
      LayoutInRange(s, t, left, width, id, r);
    }
  }

  lemma MovedInTwo(s: seq<Item>, id: nat, q: int)
    requires id < |s|
    ensures UpToId(FromId(s, id, q), id - 1, q - 1) == Moved(s, id, q)
  {
    var t := FromId(s, id, q);
    assert t[..id] == s[..id] && t[id..] == After(s[id..], q);
    if id == 0 {
      assert s[..0] == [];
    }
  }

  // ---------- shape of the list ----------

  /** Widget, handle, widget, ..., widget. */
  predicate Alternates(s: seq<Item>) {
    (s == [] || |s| % 2 == 1) && forall i :: 0 <= i < |s| ==> (s[i].isSplitter <==> i % 2 == 1)
  }

  predicate Distinct(s: seq<Item>) {
    forall i, j :: 0 <= i < j < |s| ==> s[i].wid != s[j].wid
  }

  predicate Shape(s: seq<Item>) { Alternates(s) && Distinct(s) }

  function NumberedItem(x: Item, i: int): Item { if x.isSplitter then x.(id := i) else x }

  function Numbered(s: seq<Item>): seq<Item> {
    seq(|s|, i requires 0 <= i < |s| => NumberedItem(s[i], i))
  }

  predicate Has(s: seq<Item>, wid: int) { exists i :: 0 <= i < |s| && s[i].wid == wid }

  function IndexOf(s: seq<Item>, wid: int): (k: nat)
    requires Has(s, wid)
    ensures k < |s| && s[k].wid == wid
  {
    if s[0].wid == wid then 0
    else
      assert Has(s[1..], wid) by {
        var i :| 0 <= i < |s| && s[i].wid == wid;
        assert s[1..][i - 1].wid == wid;
      }
      1 + IndexOf(s[1..], wid)
  }

  /** The list without the widget at k and one handle beside it. */
  function Without(s: seq<Item>, k: nat): seq<Item>
    requires k < |s|
  {
    if |s| == 1 then [] else if k == 0 then s[2..] else s[..k - 1] + s[k + 1..]
  }

  function Added(s: seq<Item>, w: Item, handle: Item, first: bool): seq<Item> {
    var h := handle.(id := |s|);
    if s == [] then [w] else if first then [w, h] + s else s + [h, w]
  }

  function ToFront(s: seq<Item>, k: nat): seq<Item>
    requires k < |s|
  {
    if k == 0 then s else [s[k], s[k - 1]] + s[..k - 1] + s[k + 1..]
  }

  function ToEnd(s: seq<Item>, k: nat): seq<Item>
    requires k < |s|
  {
    if k == |s| - 1 then s else s[..k] + s[k + 2..] + [s[k + 1], s[k]]
  }

  lemma FrontList(s: seq<Item>, k: nat)
    requires k < |s|
    ensures k > 0 ==> |Taken(s, k - 1)| > k - 1
                      && [s[k]] + ([s[k - 1]] + Taken(Taken(s, k - 1), k - 1)) == ToFront(s, k)
  {
    if k > 0 {
      assert Taken(Taken(s, k - 1), k - 1) == s[..k - 1] + s[k + 1..];
    }
  }

  lemma EndList(s: seq<Item>, k: nat)
    requires k < |s|
    ensures var t := Taken(s, k);
            if t == [] then ToEnd(s, k) == t + [s[k]]
            else
              var c := if k < |t| then k else |t| - 1;
              Taken(t, c) + [t[c]] + [s[k]] == ToEnd(s, k)
  {
    var t := Taken(s, k);
    if k < |t| {
      assert Taken(t, k) == s[..k] + s[k + 2..] && t[k] == s[k + 1];
    } else if t != [] {
      assert Taken(t, |t| - 1) == s[..|s| - 2] && t[|t| - 1] == s[|s| - 2];
    }
  }

  lemma WithoutList(s: seq<Item>, k: nat)
    requires k < |s| && Alternates(s)
    ensures var t, i := Taken(s, k), if k == 0 then 0 else k - 1;
            if |s| == 1 then t == Without(s, k)
            else t[i] == s[if k == 0 then 1 else k - 1] && Taken(t, i) == Without(s, k)
  {
    var t := Taken(s, k);
    if |s| > 1 {
      if k == 0 {
        assert t == s[1..];
      } else {
        assert t[k..] == s[k + 1..];
      }
    }
  }

  /** The list with a widget brought to the front, a handle behind it. */
  function FirstOf(s: seq<Item>, w: Item, handle: Item): seq<Item> {
    if Has(s, w.wid) then ToFront(s, IndexOf(s, w.wid))
    else Added(s, w, handle, true)
  }

  /** The list with a widget brought to the end, a handle before it. */
  function LastOf(s: seq<Item>, w: Item, handle: Item): seq<Item> {
    if Has(s, w.wid) then ToEnd(s, IndexOf(s, w.wid))
    else Added(s, w, handle, false)
  }

  /** A scan at cur (-1 past the end) has not met wid. */
  ghost predicate Scanned(s: seq<Item>, cur: int, wid: int) {
    -1 <= cur < |s| && forall j :: 0 <= j < (if cur < 0 then |s| else cur) ==> s[j].wid != wid
  }

  lemma Found(s: seq<Item>, k: int, wid: int)
    requires 0 <= k < |s| && s[k].wid == wid && Distinct(s) && Alternates(s)
    requires forall x :: x in s && x.isSplitter ==> x.wid != wid
    ensures Has(s, wid) && IndexOf(s, wid) == k && k % 2 == 0
  {
    assert s[k] in s;
  }

  /** Every handle knows its place in the list. */
  predicate IdsRight(s: seq<Item>) {
    forall i :: 0 <= i < |s| && s[i].isSplitter ==> s[i].id == i
  }

  lemma NumberedKeeps(s: seq<Item>)
    ensures IdsRight(Numbered(s))
    ensures Alternates(Numbered(s)) <==> Alternates(s)
    ensures Distinct(Numbered(s)) <==> Distinct(s)
  {
    assert forall i :: 0 <= i < |s| ==>
        Numbered(s)[i].wid == s[i].wid && Numbered(s)[i].isSplitter == s[i].isSplitter;
  }

  /** A new widget and handle, neither of them in the list. */
  predicate Fresh(s: seq<Item>, w: Item, handle: Item) {
    !w.isSplitter && handle.isSplitter && w.wid != handle.wid
    && forall i :: 0 <= i < |s| ==> s[i].wid != handle.wid && (s[i].isSplitter ==> s[i].wid != w.wid)
  }

  lemma WithoutKeeps(s: seq<Item>, k: nat)
    requires Alternates(s) && Distinct(s) && k < |s| && k % 2 == 0
    ensures Alternates(Without(s, k)) && Distinct(Without(s, k))
  {
  }

  /** Where the items of ToFront and ToEnd come from. */
  function FrontIndex(k: int, i: int): int {
    if i == 0 then k else if i == 1 then k - 1 else if i <= k then i - 2 else i
  }

  function EndIndex(n: int, k: int, i: int): int {
    if i < k then i else if i < n - 2 then i + 2 else if i == n - 2 then k + 1 else k
  }

  lemma FrontAt(s: seq<Item>, k: nat, i: nat)
    requires 0 < k < |s| && i < |s|
    ensures ToFront(s, k)[i] == s[FrontIndex(k, i)] && |ToFront(s, k)| == |s|
  {
  }

  lemma EndAt(s: seq<Item>, k: nat, i: nat)
    requires k < |s| - 1 && i < |s|
    ensures ToEnd(s, k)[i] == s[EndIndex(|s|, k, i)] && |ToEnd(s, k)| == |s|
  {
  }

  lemma KindAt(s: seq<Item>, i: int, j: int)
    requires Alternates(s) && 0 <= j < |s| && j % 2 == i % 2
    ensures s[j].isSplitter <==> i % 2 == 1
  {
  }

  lemma DistinctAt(s: seq<Item>, i: int, j: int)
    requires Distinct(s) && 0 <= i < |s| && 0 <= j < |s| && i != j
    ensures s[i].wid != s[j].wid
  {
  }

  lemma ToFrontAlternates(s: seq<Item>, k: nat)
    requires Alternates(s) && 0 < k < |s| && k % 2 == 0
    ensures Alternates(ToFront(s, k))
  {
    var t := ToFront(s, k);
    FrontAt(s, k, 0);
    forall i | 0 <= i < |t|
      ensures t[i].isSplitter <==> i % 2 == 1
    {
      FrontAt(s, k, i);
      KindAt(s, i, FrontIndex(k, i));
    }
  }

  lemma ToFrontDistinct(s: seq<Item>, k: nat)
    requires Distinct(s) && 0 < k < |s|
    ensures Distinct(ToFront(s, k))
  {
    var t := ToFront(s, k);
    FrontAt(s, k, 0);
    forall i, j | 0 <= i < j < |t|
      ensures t[i].wid != t[j].wid
    {
      FrontAt(s, k, i);
      FrontAt(s, k, j);
      DistinctAt(s, FrontIndex(k, i), FrontIndex(k, j));
    }
  }

  lemma ToFrontKeeps(s: seq<Item>, k: nat)
    requires Alternates(s) && Distinct(s) && k < |s| && k % 2 == 0
    ensures Alternates(ToFront(s, k)) && Distinct(ToFront(s, k)) && ToFront(s, k)[0] == s[k]
  {
    if k > 0 {
      FrontAt(s, k, 0);
      ToFrontAlternates(s, k);
      ToFrontDistinct(s, k);
    }
  }

  lemma EndParity(n: int, k: int, i: int)
    requires n % 2 == 1 && k % 2 == 0 && 0 <= k < n - 1 && 0 <= i < n
    ensures 0 <= EndIndex(n, k, i) < n && EndIndex(n, k, i) % 2 == i % 2
  {
  }

  lemma EndKind(s: seq<Item>, k: nat, i: nat)
    requires Alternates(s) && k < |s| - 1 && k % 2 == 0 && i < |s|
    ensures |ToEnd(s, k)| == |s| && (ToEnd(s, k)[i].isSplitter <==> i % 2 == 1)
  {
    EndAt(s, k, i);
    EndParity(|s|, k, i);
    KindAt(s, i, EndIndex(|s|, k, i));
  }

  lemma ToEndAlternates(s: seq<Item>, k: nat)
    requires Alternates(s) && k < |s| - 1 && k % 2 == 0
    ensures Alternates(ToEnd(s, k))
  {
    var t := ToEnd(s, k);
    EndAt(s, k, 0);
    forall i | 0 <= i < |t|
      ensures t[i].isSplitter <==> i % 2 == 1
    {
      EndKind(s, k, i);
    }
  }

  lemma ToEndDistinct(s: seq<Item>, k: nat)
    requires Distinct(s) && k < |s| - 1
    ensures Distinct(ToEnd(s, k))
  {
    var t := ToEnd(s, k);
    EndAt(s, k, 0);
    forall i, j | 0 <= i < j < |t|
      ensures t[i].wid != t[j].wid
    {
      EndAt(s, k, i);
      EndAt(s, k, j);
      DistinctAt(s, EndIndex(|s|, k, i), EndIndex(|s|, k, j));
    }
  }

  lemma ToEndKeeps(s: seq<Item>, k: nat)
    requires Alternates(s) && Distinct(s) && k < |s| && k % 2 == 0
    ensures Alternates(ToEnd(s, k)) && Distinct(ToEnd(s, k)) && ToEnd(s, k)[|s| - 1] == s[k]
  {
    if k < |s| - 1 {
      EndAt(s, k, |s| - 1);
      ToEndAlternates(s, k);
      ToEndDistinct(s, k);
    }
  }

  lemma AddedKeeps(s: seq<Item>, w: Item, handle: Item, first: bool)
    requires Shape(s) && Fresh(s, w, handle) && !Has(s, w.wid)
    ensures Shape(Added(s, w, handle, first))
    ensures !first && IdsRight(s) ==> IdsRight(Added(s, w, handle, first))
  {
    assert forall i :: 0 <= i < |s| ==> s[i].wid != w.wid;
  }

  lemma HasEven(s: seq<Item>, w: Item, handle: Item)
    requires Shape(s) && Fresh(s, w, handle) && Has(s, w.wid)
    ensures IndexOf(s, w.wid) % 2 == 0
  {
    assert !s[IndexOf(s, w.wid)].isSplitter;
  }

  lemma FirstOfKeeps(s: seq<Item>, w: Item, handle: Item)
    requires Shape(s) && Fresh(s, w, handle)
    ensures var t := Numbered(FirstOf(s, w, handle));
            Shape(t) && IdsRight(t) && t != [] && t[0].wid == w.wid
  {
    if Has(s, w.wid) {
      HasEven(s, w, handle);
      ToFrontKeeps(s, IndexOf(s, w.wid));
    } else {
      AddedKeeps(s, w, handle, true);
    }
    NumberedKeeps(FirstOf(s, w, handle));
  }

  lemma LastOfKeeps(s: seq<Item>, w: Item, handle: Item)
    requires Shape(s) && Fresh(s, w, handle)
    ensures var t := Numbered(LastOf(s, w, handle));
            Shape(t) && IdsRight(t) && t != [] && t[|t| - 1].wid == w.wid
  {
    if Has(s, w.wid) {
      HasEven(s, w, handle);
      ToEndKeeps(s, IndexOf(s, w.wid));
    } else {
      AddedKeeps(s, w, handle, false);
    }
    NumberedKeeps(LastOf(s, w, handle));
  }

  /** Appending keeps the handle ids right; prepending does so only onto at most one item,
      and leaves the numbering to the caller otherwise. */
  lemma AddedIds(s: seq<Item>, w: Item, handle: Item)
    requires Alternates(s) && IdsRight(s) && !w.isSplitter && handle.isSplitter && s != []
    ensures IdsRight(s + [handle.(id := |s|), w])
    ensures IdsRight([w, handle.(id := |s|)] + s) <==> |s| == 1
  {
    var t := [w, handle.(id := |s|)] + s;
    assert t[1].id == |s| && t[1].isSplitter;
  }

  // ---------- which handles show ----------

  function Visible(s: seq<Item>): seq<Item> {
    if s == [] then []
    else if s[|s| - 1].hidden then Visible(s[..|s| - 1])
    else Visible(s[..|s| - 1]) + [s[|s| - 1]]
  }

  /** Nothing changed but whether handles are hidden. */
  ghost predicate SameButHandles(s: seq<Item>, t: seq<Item>) {
    |s| == |t| && forall i :: 0 <= i < |s| ==>
      t[i].(hidden := s[i].hidden) == s[i] && (!s[i].isSplitter ==> s[i] == t[i])
  }

  /** How far the loop has settled visibility when it has seen i items: a handle is settled
      with the widget after it. */
  function Done(i: nat): nat { if i == 0 || i % 2 == 1 then i else i - 1 }

  ghost predicate Processed(s: seq<Item>, m: nat, first: bool) {
    m <= |s| && Alternates(Visible(s[..m])) && (first <==> Visible(s[..m]) == [])
  }

  lemma Processed0(s: seq<Item>)
    ensures Processed(s, 0, true)
  {
    assert s[..0] == [];
  }

  lemma VisibleSnoc(s: seq<Item>, x: Item)
    ensures Visible(s + [x]) == if x.hidden then Visible(s) else Visible(s) + [x]
  {
    assert (s + [x])[..|s|] == s;
  }

  /** A settled list, and a handle and widget after it. */
  lemma VisiblePair(u: seq<Item>, h: Item, w: Item)
    requires Alternates(Visible(u)) && h.isSplitter && !w.isSplitter
    requires h.hidden <==> Visible(u) == [] || w.hidden
    ensures var v := Visible(u + [h] + [w]);
            Alternates(v) && (v == [] <==> Visible(u) == [] && w.hidden)
  {
    VisibleSnoc(u, h);
    VisibleSnoc(u + [h], w);
    if !w.hidden {
      AlternatesOn(Visible(u), h, w);
    }
  }

  lemma AlternatesOn(v: seq<Item>, h: Item, w: Item)
    requires Alternates(v) && h.isSplitter && !w.isSplitter
    ensures Alternates(if v == [] then v + [w] else v + [h] + [w])
  {
  }

  lemma ProcessedStep(s: seq<Item>, t: seq<Item>, i: nat, first: bool)
    requires i < |s| && Alternates(s) && i % 2 == 0 && Processed(s, Done(i), first)
    requires t == if i == 0 then s else s[i - 1 := s[i - 1].(hidden := first || s[i].hidden)]
    ensures Processed(t, i + 1, first && s[i].hidden)
  {
    if i == 0 {
      assert t[..1] == [] + [t[0]] && s[..0] == [];
      VisibleSnoc([], t[0]);
    } else {
      assert t[..i + 1] == s[..i - 1] + [t[i - 1]] + [t[i]];
      VisiblePair(s[..i - 1], t[i - 1], t[i]);
    }
  }

  /** No widget before i is visible. */
  predicate NoWidget(s: seq<Item>, i: int) {
    forall k :: 0 <= k < i && k < |s| && !s[k].isSplitter ==> s[k].hidden
  }

  /** Each handle with its next widget before n is hidden exactly when that widget is, or
      when it would come first. */
  predicate Settled(s: seq<Item>, n: int) {
    forall j :: 0 <= j && j + 1 < n && j + 1 < |s| && s[j].isSplitter ==>
      (s[j].hidden <==> s[j + 1].hidden || NoWidget(s, j))
  }

  lemma NoWidgetSame(s: seq<Item>, t: seq<Item>, j: int)
    requires SameButHandles(s, t)
    ensures NoWidget(s, j) <==> NoWidget(t, j)
  {
    forall k | 0 <= k < |s|
      ensures s[k].isSplitter == t[k].isSplitter && (!s[k].isSplitter ==> s[k] == t[k])
    {
    }
  }

  lemma SettledStep(s: seq<Item>, t: seq<Item>, i: nat, first: bool)
    requires i < |s| && Alternates(s) && i % 2 == 0
    requires Settled(s, i) && (first <==> NoWidget(s, i))
    requires t == if i == 0 then s else s[i - 1 := s[i - 1].(hidden := first || s[i].hidden)]
    ensures Settled(t, i + 1) && (first && s[i].hidden <==> NoWidget(t, i + 1))
  {
    assert SameButHandles(s, t);
    NoWidgetSame(s, t, i + 1);
    forall j | 0 <= j && j + 1 < i + 1 && t[j].isSplitter
      ensures t[j].hidden <==> t[j + 1].hidden || NoWidget(t, j)
    {
      NoWidgetSame(s, t, j);
      if j == i - 1 {
        assert NoWidget(s, i) <==> NoWidget(s, i - 1);
      }
    }
  }

  ghost predicate Underway(s0: seq<Item>, s: seq<Item>, i: nat, first: bool) {
    SameButHandles(s0, s) && Alternates(s) && Processed(s, Done(i), first)
    && Settled(s, i) && (first <==> NoWidget(s, i))
  }

  lemma UnderwayHandle(s0: seq<Item>, s: seq<Item>, i: nat, first: bool)
    requires i < |s| && Underway(s0, s, i, first) && s[i].isSplitter
    ensures Underway(s0, s, i + 1, first)
  {
    assert NoWidget(s, i + 1) <==> NoWidget(s, i);
  }

  lemma UnderwayStep(s0: seq<Item>, s: seq<Item>, i: nat, first: bool)
    requires i < |s| && Underway(s0, s, i, first)
    ensures s[i].isSplitter ==> Underway(s0, s, i + 1, first)
    ensures !s[i].isSplitter ==>
              var t := if i == 0 then s else s[i - 1 := s[i - 1].(hidden := first || s[i].hidden)];
              Underway(s0, t, i + 1, first && s[i].hidden)
  {
    if !s[i].isSplitter {
      var t := if i == 0 then s else s[i - 1 := s[i - 1].(hidden := first || s[i].hidden)];
      ProcessedStep(s, t, i, first);
      SettledStep(s, t, i, first);
    } else {
      UnderwayHandle(s0, s, i, first);
    }
  }

  function Handles(s: seq<Item>): nat {
    if s == [] then 0 else Handles(s[..|s| - 1]) + if s[|s| - 1].isSplitter then 1 else 0
  }

  /** An alternating list has one handle fewer than widgets. */
  lemma {:induction false} OneHandleFewer(s: seq<Item>)
    requires Alternates(s)
    ensures s == [] || |s| - Handles(s) == Handles(s) + 1
  {
    if |s| < 2 {
    } else {
      var n := |s|;
      assert s[..n - 1][..n - 2] == s[..n - 2];
      OneHandleFewer(s[..n - 2]);
    }
  }

  class QSplitter {
    const list: QList
    var left: int
    var width: int

    constructor (left: int, width: int)
      ensures fresh(list) && list.items == [] && this.left == left && this.width == width
    {
      list := new QList();
      this.left := left;
      this.width := width;
    }

    method SetG(id: nat, p: int, s: int)
      requires id < |list.items|
      modifies list`items
      ensures list.items == old(list.items)[id := old(list.items)[id].(pos := p, size := s)]
    {
      list.items := list.items[id := list.items[id].(pos := p, size := s)];
    }

    method MoveAfter(pos: int, id: nat, upLeft: bool)
      modifies list`items
      ensures list.items == FromId(old(list.items), id, pos)
      decreases |list.items| - id, 1
    {
      if id >= |list.items| {
        return;
      }
      FromIdStep(list.items, id, pos);
      var w := list.items[id];
      if w.hidden {
        MoveAfter(pos, id + 1, upLeft);
      } else if w.pos == pos {
        return;
      } else if w.isSplitter {
        MoveHandleAfter(pos, id, upLeft);
      } else {
        var right := w.pos + w.size - 1;
        var dd := right - pos + 1;
        dd := Clamp(dd, w.min, w.max);
        var newRight := pos + dd - 1;
        SetG(id, pos, dd);
        MoveAfter(newRight + 1, id + 1, upLeft);
      }
    }

    /** A handle moves before or after the items it pushes, for the look of it. */
    method MoveHandleAfter(pos: int, id: nat, upLeft: bool)
      requires id < |list.items| && list.items[id].isSplitter && !list.items[id].hidden
      requires list.items[id].pos != pos
      modifies list`items
      ensures list.items == FromId(old(list.items), id, pos)
      decreases |list.items| - id, 0
    {
      FromIdHandle(list.items, id, pos);
      var dd := list.items[id].sizer;
      if upLeft {
        SetG(id, pos, dd);
        MoveAfter(pos + dd, id + 1, upLeft);
      } else {
        MoveAfter(pos + dd, id + 1, upLeft);
        SetG(id, pos, dd);
      }
    }

    method MoveBefore(pos: int, id: int, upLeft: bool)
      requires id < |list.items|
      modifies list`items
      ensures list.items == UpToId(old(list.items), id, pos)
      decreases id, 1
    {
      if id < 0 {
        return;
      }
      UpToIdStep(list.items, id, pos);
      var w := list.items[id];
      if w.hidden {
        MoveBefore(pos, id - 1, upLeft);
      } else if w.isSplitter {
        MoveHandleBefore(pos, id, upLeft);
      } else {
        var left := w.pos;
        var dd := pos - left + 1;
        dd := Clamp(dd, w.min, w.max);
        var newLeft := pos - dd + 1;
        SetG(id, newLeft, dd);
        if left != newLeft {
          MoveBefore(newLeft - 1, id - 1, upLeft);
        }
      }
    }

    method MoveHandleBefore(pos: int, id: nat, upLeft: bool)
      requires id < |list.items| && list.items[id].isSplitter && !list.items[id].hidden
      modifies list`items
      ensures list.items == UpToId(old(list.items), id, pos)
      decreases id, 0
    {
      UpToIdHandle(list.items, id, pos);
      var dd := list.items[id].sizer;
      ghost var s := list.items;
      ghost var y := s[id].(pos := pos - dd + 1, size := dd);
      if upLeft {
        SetG(id, pos - dd + 1, dd);
        assert list.items == s[id := y];
        MoveBefore(pos - dd, id - 1, upLeft);
      } else {
        MoveBefore(pos - dd, id - 1, upLeft);
        ghost var t := list.items;
        UpToIdKeeps(s, id, pos - dd);
        SetG(id, pos - dd + 1, dd);
        assert list.items == t[id := y];
      }
    }

    /** The two summing loops of getRange. */
    method AddLimits(from: nat, to: nat) returns (lo: int, hi: int)
      requires from <= to <= |list.items|
      ensures lo == SumLo(list.items[from..to]) && hi == SumHi(list.items[from..to])
    {
      lo, hi := 0, 0;
      for i := from to to
        invariant lo == SumLo(list.items[from..i]) && hi == SumHi(list.items[from..i])
      {
        var s := list.items[i];
        assert list.items[from..i + 1][..i - from] == list.items[from..i];
        if s.hidden {
        } else if s.isSplitter {
          lo := lo + s.sizer;
          hi := hi + s.sizer;
        } else {
          lo := lo + s.min;
          hi := hi + s.max;
        }
      }
    }

    /** The range of the handle id; an id out of range leaves the caller's 0 and 0. */
    method GetRange(id: int) returns (min: int, max: int)
      ensures if 0 <= id < |list.items|
              then min == RangeMin(list.items, id, left, width) && max == RangeMax(list.items, id, left, width)
              else min == max == 0
    {
      var minB, maxB, minA, maxA := 0, 0, 0, 0;
      min, max := 0, 0;
      var n := |list.items|;
      if id < 0 || id >= n {
        return;
      }
      minB, maxB := AddLimits(0, id);
      minA, maxA := AddLimits(id, n);
      assert list.items[id..n] == list.items[id..];
      assert list.items[0..id] == list.items[..id];
      min := left + if minB > width - maxA then minB else width - maxA;
      max := left + if maxB < width - minA then maxB else width - minA;
    }

    method AdjustPos(p: int, id: int) returns (q: int)
      ensures 0 <= id < |list.items| ==>
                q == Clamp(p, RangeMin(list.items, id, left, width), RangeMax(list.items, id, left, width))
      ensures !(0 <= id < |list.items|) ==> q == 0
    {
      var min, max := GetRange(id);
      q := Clamp(p, min, max);
    }

    method StoreSizes()
      modifies list`items
      ensures list.items == Stored(old(list.items))
      ensures forall i :: 0 <= i < |list.items| ==>
                list.items[i].sizer == (if list.items[i].isSplitter then old(list.items)[i].sizer
                                        else old(list.items)[i].size)
    {
      for i := 0 to |list.items|
        invariant |list.items| == |old(list.items)|
        invariant forall j :: 0 <= j < i ==> list.items[j] == StoredItem(old(list.items)[j])
        invariant forall j :: i <= j < |list.items| ==> list.items[j] == old(list.items)[j]
      {
        var s := list.items[i];
        if !s.isSplitter {
          list.items := list.items[i := s.(sizer := s.size)];
        }
      }
    }

    /** The two pushes, in either order of painting, and the new sizes. */
    method MoveTo(q: int, id: nat)
      requires id < |list.items|
      modifies list`items
      ensures list.items == Stored(Moved(old(list.items), id, q))
    {
      MovedInTwo(list.items, id, q);
      var oldP := list.items[id].pos;
      var upLeft := q < oldP;
      MoveAfter(q, id, upLeft);
      MoveBefore(q - 1, id - 1, upLeft);
      StoreSizes();
    }

    /** Dragging a visible handle: the result is a layout of the same items with the handle
        at the legal position closest to p. */
    method MoveSplitter(p: int, id: nat)
      requires id < |list.items| && list.items[id].isSplitter && !list.items[id].hidden
      requires Row(list.items, left, left + width)
      modifies list`items
      ensures Dragged(old(list.items), list.items, left, width, id, p)
      ensures Row(list.items, left, left + width)
    {
      var q := AdjustPos(p, id);
      DragIsLayout(list.items, left, width, id, p, q);
      MoveTo(q, id);
    }

    // ---------- the list of items ----------

    method RecalcId()
      modifies list`items
      ensures list.items == Numbered(old(list.items))
    {
      for i := 0 to |list.items|
        invariant |list.items| == |old(list.items)|
        invariant forall j :: 0 <= j < i ==> list.items[j] == NumberedItem(old(list.items)[j], j)
        invariant forall j :: i <= j < |list.items| ==> list.items[j] == old(list.items)[j]
      {
        var s := list.items[i];
        if s.isSplitter {
          list.items := list.items[i := s.(id := i)];
        }
      }
    }

    /** Adds a widget, and a handle between it and the others if there are any. */
    method AddWidget(w: Item, handle: Item, first: bool)
      requires Shape(list.items) && Fresh(list.items, w, handle) && !Has(list.items, w.wid)
      modifies list
      ensures list.items == Added(old(list.items), w, handle, first)
      ensures Shape(list.items)
      ensures !first && old(IdsRight(list.items)) ==> IdsRight(list.items)
    {
      AddedKeeps(list.items, w, handle, first);
      if |list.items| > 0 {
        var newHandle := handle.(id := |list.items|);
        if first {
          list.Prepend(newHandle);
        } else {
          list.Append(newHandle);
        }
      }
      if first {
        list.Prepend(w);
      } else {
        list.Append(w);
      }
    }

    /** The two removals of childEvent: the struct at k, and p if it is a handle. */
    method RemoveAt(k: nat, p: Option<Item>)
      requires k < |list.items| && Alternates(list.items) && Distinct(list.items) && k % 2 == 0
      requires k >= 1 ==> p == Some(list.items[k - 1])
      requires k == 0 ==> p == if |list.items| > 1 then Some(list.items[1]) else None
      modifies list
      ensures list.items == Without(old(list.items), k)
    {
      ghost var s := list.items;
      WithoutList(s, k);
      RemoveRef(list.items[k].wid);
      if p.Some? && p.value.isSplitter {
        RemoveRef(p.value.wid);
      }
    }

    /** A child has gone: its layout struct goes, with the handle before it, or after it if
        it was the first. */
    method ChildRemoved(c: int)
      requires Shape(list.items)
      requires forall x :: x in list.items && x.isSplitter ==> x.wid != c
      modifies list
      ensures Shape(list.items) && (old(IdsRight(list.items)) ==> IdsRight(list.items))
      ensures list.items == (if Has(old(list.items), c)
                             then Numbered(Without(old(list.items), IndexOf(old(list.items), c)))
                             else old(list.items))
    {
      var p := None;
      if |list.items| > 1 {
        p := Some(list.items[1]);
      }
      var s := list.First();
      while s.Some?
        invariant list.Valid() && list.items == old(list.items)
        invariant s == if list.cur < 0 then None else Some(list.items[list.cur])
        invariant Scanned(list.items, list.cur, c)
        invariant list.cur >= 1 ==> p == Some(list.items[list.cur - 1])
        invariant list.cur == 0 ==> p == if |list.items| > 1 then Some(list.items[1]) else None
        decreases if list.cur < 0 then 0 else |list.items| - list.cur
      {
        if s.value.wid == c {
          Found(list.items, list.cur, c);
          WithoutKeeps(list.items, list.cur);
          RemoveAt(list.cur, p);
          NumberedKeeps(list.items);
          RecalcId();
          return;
        }
        p := s;
        s := list.Next();
      }
    }

    /** Removes the struct of a widget from the list. */
    method RemoveRef(wid: int)
      requires Distinct(list.items)
      modifies list
      ensures Distinct(list.items)
      ensures forall i :: 0 <= i < |old(list.items)| && old(list.items)[i].wid == wid ==>
                list.items == Taken(old(list.items), i)
    {
      for i := 0 to |list.items|
        invariant list.items == old(list.items)
        invariant forall j :: 0 <= j < i ==> list.items[j].wid != wid
      {
        if list.items[i].wid == wid {
          list.cur := i;
          var _ := list.Take();
          return;
        }
      }
    }

    /** The current widget s and the handle before it go to the front. */
    method BringFirst(s: Item)
      requires list.Valid() && list.cur >= 0 && s == list.items[list.cur]
      modifies list
      ensures list.items == ToFront(old(list.items), old(list.cur))
    {
      FrontList(list.items, list.cur);
      var p := list.Prev();
      if p.Some? {
        var _ := list.Take();
        var _ := list.Take();
        list.Prepend(p.value);
        list.Prepend(s);
      }
    }

    /** The current widget s and the handle after it (before it, if it is the last) go to
        the end. */
    method BringLast(s: Item)
      requires list.Valid() && list.cur >= 0 && s == list.items[list.cur]
      modifies list
      ensures list.items == ToEnd(old(list.items), old(list.cur))
    {
      EndList(list.items, list.cur);
      var _ := list.Take();
      var p := list.Current();
      if p.Some? {
        var _ := list.Take();
        list.Append(p.value);
      }
      list.Append(s);
    }

    method MoveToFirst(w: Item, handle: Item)
      requires Shape(list.items) && Fresh(list.items, w, handle)
      modifies list
      ensures list.items == Numbered(FirstOf(old(list.items), w, handle))
      ensures Shape(list.items) && IdsRight(list.items) && list.items[0].wid == w.wid
    {
      FirstOfKeeps(list.items, w, handle);
      var found := false;
      var s := list.First();
      while s.Some?
        invariant list.Valid() && list.items == old(list.items) && !found
        invariant s == if list.cur < 0 then None else Some(list.items[list.cur])
        invariant Scanned(list.items, list.cur, w.wid)
        decreases if list.cur < 0 then 0 else |list.items| - list.cur
      {
        if s.value.wid == w.wid {
          Found(list.items, list.cur, w.wid);
          found := true;
          BringFirst(s.value);
          break;
        }
        s := list.Next();
      }
      if !found {
        AddWidget(w, handle, true);
      }
      RecalcId();
    }

    method MoveToLast(w: Item, handle: Item)
      requires Shape(list.items) && Fresh(list.items, w, handle)
      modifies list
      ensures list.items == Numbered(LastOf(old(list.items), w, handle))
      ensures Shape(list.items) && IdsRight(list.items) && list.items[|list.items| - 1].wid == w.wid
    {
      LastOfKeeps(list.items, w, handle);
      var found := false;
      var s := list.First();
      while s.Some?
        invariant list.Valid() && list.items == old(list.items) && !found
        invariant s == if list.cur < 0 then None else Some(list.items[list.cur])
        invariant Scanned(list.items, list.cur, w.wid)
        decreases if list.cur < 0 then 0 else |list.items| - list.cur
      {
        if s.value.wid == w.wid {
          Found(list.items, list.cur, w.wid);
          found := true;
          BringLast(s.value);
          break;
        }
        s := list.Next();
      }
      if !found {
        AddWidget(w, handle, false);
      }
      RecalcId();
    }

    /** The body of the loop. */
    method ShowHandle(ghost s0: seq<Item>, i: nat, first: bool) returns (first': bool)
      requires i < |list.items| && Underway(s0, list.items, i, first)
      modifies list`items
      ensures Underway(s0, list.items, i + 1, first')
    {
      UnderwayStep(s0, list.items, i, first);
      first' := first;
      var s := list.items[i];
      if !s.isSplitter {
        if i > 0 && list.items[i - 1].isSplitter {
          list.items := list.items[i - 1 := list.items[i - 1].(hidden := first || s.hidden)];
        }
        if !s.hidden {
          first' := false;
        }
      }
    }

    /** The visibility loop of recalc: a handle shows exactly when the widget after it does
        and some widget before it does. */
    method RecalcVisibility()
      requires Alternates(list.items)
      modifies list`items
      ensures SameButHandles(old(list.items), list.items)
      ensures Alternates(list.items) && Alternates(Visible(list.items))
      ensures Settled(list.items, |list.items|)
    {
      var n := |list.items|;
      var first := true;
      Processed0(list.items);
      for i := 0 to n
        invariant Underway(old(list.items), list.items, i, first) && n == |list.items|
      {
        first := ShowHandle(old(list.items), i, first);
      }
      assert list.items[..Done(n)] == list.items;
    }
  }
}
