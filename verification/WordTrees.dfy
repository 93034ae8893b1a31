/** Word trees: the value every later representation of the word list stands for.
    A QTrie object, the merged graph of QTrie objects and the packed node array
    are each related to one of these trees. */
module WordTrees {

  /** A QChar: one 16-bit code unit. */
  type Letter = x: int | 0 <= x < 0x1_0000
  type Word = seq<Letter>

  datatype Edge = Edge(letter: Letter, sub: Tree)
  datatype Tree = Node(isword: bool, kids: seq<Edge>)

  const EMPTY := Node(false, [])

  /** The language of a tree: the words spelled by its paths to word nodes. */
  ghost predicate Accepts(t: Tree, w: Word)
    decreases |w|
  {
    if w == [] then t.isword
    else exists i :: 0 <= i < |t.kids| && t.kids[i].letter == w[0] && Accepts(t.kids[i].sub, w[1..])
  }

  ghost predicate Increasing(kids: seq<Edge>) {
    forall i, j :: 0 <= i < j < |kids| ==> kids[i].letter < kids[j].letter
  }

  /** Children are in strictly increasing letter order, at every level. */
  ghost predicate Sorted(t: Tree) {
    Increasing(t.kids) && forall i :: 0 <= i < |t.kids| ==> Sorted(t.kids[i].sub)
  }

  /** Every leaf below the root is a word. */
  ghost predicate Trim(t: Tree) {
    forall i :: 0 <= i < |t.kids| ==>
      Trim(t.kids[i].sub) && (t.kids[i].sub.kids == [] ==> t.kids[i].sub.isword)
  }

  /** Every letter in the tree fits the 12-bit letter field of a packed node. */
  ghost predicate Narrow(t: Tree) {
    forall i :: 0 <= i < |t.kids| ==> t.kids[i].letter < 0x1000 && Narrow(t.kids[i].sub)
  }

  /** The place of letter c among the children: where it is, or where it belongs. */
  function Position(kids: seq<Edge>, c: Letter): (i: nat)
    ensures i <= |kids|
    ensures forall j :: 0 <= j < i ==> kids[j].letter < c
    ensures i < |kids| ==> c <= kids[i].letter
  {
    if kids == [] || c <= kids[0].letter then 0 else 1 + Position(kids[1..], c)
  }

  function Insert(t: Tree, w: Word): Tree
    decreases |w|
  {
    if w == [] then t.(isword := true)
    else
      var i := Position(t.kids, w[0]);
      if i < |t.kids| && t.kids[i].letter == w[0] then
        t.(kids := t.kids[i := Edge(w[0], Insert(t.kids[i].sub, w[1..]))])
      else
        t.(kids := t.kids[..i] + [Edge(w[0], Insert(EMPTY, w[1..]))] + t.kids[i..])
  }

  function InsertAll(t: Tree, words: seq<Word>): Tree {
    if words == [] then t else Insert(InsertAll(t, words[..|words| - 1]), words[|words| - 1])
  }

  // ---------- insertion adds exactly one word ----------

  lemma AcceptsAt(t: Tree, i: nat, v: Word)
    requires Increasing(t.kids) && i < |t.kids| && v != [] && v[0] == t.kids[i].letter
    ensures Accepts(t, v) <==> Accepts(t.kids[i].sub, v[1..])
  {
    if Accepts(t, v) {
      var j :| 0 <= j < |t.kids| && t.kids[j].letter == v[0] && Accepts(t.kids[j].sub, v[1..]);
      if j < i {
        assert false;
      } else if i < j {
        assert false;
      }
    }
  }

  ghost predicate Present(t: Tree, c: Letter) {
    var i := Position(t.kids, c);
    i < |t.kids| && t.kids[i].letter == c
  }

  /** The child list after insertion: letter w[0] sits at its position with the
      rest of the word below it; every other child is an old one, in order. */
  ghost predicate Grown(t: Tree, w: Word, i: nat, r: Tree)
    requires w != []
  {
    && i <= |t.kids| && i < |r.kids| && r.isword == t.isword
    && r.kids[i].letter == w[0]
    && |r.kids| == |t.kids| + (if Present(t, w[0]) then 0 else 1)
    && (forall j :: 0 <= j < i ==> r.kids[j] == t.kids[j])
    && (forall j :: i < j < |r.kids| ==> r.kids[j] == t.kids[if Present(t, w[0]) then j else j - 1])
  }

  lemma GrownIncreasing(t: Tree, w: Word, i: nat, r: Tree)
    requires Increasing(t.kids) && w != [] && i == Position(t.kids, w[0]) && Grown(t, w, i, r)
    ensures Increasing(r.kids)
  {
    var present := Present(t, w[0]);
    forall j | 0 <= j < |r.kids| && j != i
      ensures j < i ==> r.kids[j].letter < w[0]
      ensures j > i ==> w[0] < r.kids[j].letter
    {
      if j > i {
        var k := if present then j else j - 1;
        assert r.kids[j] == t.kids[k];
        if i < k { assert t.kids[i].letter < t.kids[k].letter; }
      }
    }
    forall j, k | 0 <= j < k < |r.kids| ensures r.kids[j].letter < r.kids[k].letter {
    }
  }

  lemma GrownPresent(t: Tree, w: Word, i: nat, u: Tree)
    requires w != [] && i == Position(t.kids, w[0]) && Present(t, w[0])
    ensures Grown(t, w, i, t.(kids := t.kids[i := Edge(w[0], u)]))
  {
  }

  lemma GrownNew(t: Tree, w: Word, i: nat, u: Tree)
    requires w != [] && i == Position(t.kids, w[0]) && !Present(t, w[0])
    ensures Grown(t, w, i, t.(kids := t.kids[..i] + [Edge(w[0], u)] + t.kids[i..]))
  {
  }

  lemma InsertKids(t: Tree, w: Word)
    requires Increasing(t.kids) && w != []
    ensures Grown(t, w, Position(t.kids, w[0]), Insert(t, w))
    ensures Increasing(Insert(t, w).kids)
    ensures Insert(t, w).kids[Position(t.kids, w[0])].sub
         == Insert(if Present(t, w[0]) then t.kids[Position(t.kids, w[0])].sub else EMPTY, w[1..])
  {
    var i := Position(t.kids, w[0]);
    if Present(t, w[0]) {
      GrownPresent(t, w, i, Insert(t.kids[i].sub, w[1..]));
    } else {
      GrownNew(t, w, i, Insert(EMPTY, w[1..]));
    }
    GrownIncreasing(t, w, i, Insert(t, w));
  }

  lemma {:induction false} InsertAccepts(t: Tree, w: Word, v: Word)
    requires Sorted(t)
    ensures Accepts(Insert(t, w), v) <==> v == w || Accepts(t, v)
    decreases |w|
  {
    if w == [] {
      if v != [] {
        assert Insert(t, w).kids == t.kids;
      }
    } else {
      InsertKids(t, w);
      var i, r := Position(t.kids, w[0]), Insert(t, w);
      if v != [] {
        if v[0] == w[0] {
          AcceptsAt(r, i, v);
          if Present(t, w[0]) {
            InsertAccepts(t.kids[i].sub, w[1..], v[1..]);
            AcceptsAt(t, i, v);
          } else {
            InsertAccepts(EMPTY, w[1..], v[1..]);
            assert !Accepts(EMPTY, v[1..]);
            AbsentLetter(t, i, v);
          }
          assert v == [v[0]] + v[1..] && w == [w[0]] + w[1..];
        } else {
          OtherLetter(t, w, i, r, v);
        }
      }
    }
  }

  lemma AbsentLetter(t: Tree, i: nat, v: Word)
    requires Increasing(t.kids) && v != [] && i == Position(t.kids, v[0])
    requires i == |t.kids| || t.kids[i].letter != v[0]
    ensures !Accepts(t, v)
  {
    forall j | 0 <= j < |t.kids| ensures t.kids[j].letter != v[0] {
      if i < j { assert t.kids[i].letter < t.kids[j].letter; }
    }
  }

  lemma OtherLetter(t: Tree, w: Word, i: nat, r: Tree, v: Word)
    requires w != [] && v != [] && v[0] != w[0] && Grown(t, w, i, r)
    requires Present(t, w[0]) ==> i < |t.kids| && t.kids[i].letter == w[0]
    ensures Accepts(r, v) <==> Accepts(t, v)
  {
    if Accepts(t, v) {
      var j :| 0 <= j < |t.kids| && t.kids[j].letter == v[0] && Accepts(t.kids[j].sub, v[1..]);
      var k := if Present(t, w[0]) || j < i then j else j + 1;
      assert r.kids[k] == t.kids[j];
    }
    if Accepts(r, v) {
      var k :| 0 <= k < |r.kids| && r.kids[k].letter == v[0] && Accepts(r.kids[k].sub, v[1..]);
      assert k != i;
      var j := if Present(t, w[0]) || k < i then k else k - 1;
      assert r.kids[k] == t.kids[j];
    }
  }

  /** A subtree as it may stand below a sorted trim tree. */
  ghost predicate Proper(t: Tree) {
    Sorted(t) && Trim(t) && (t.kids == [] ==> t.isword)
  }

  lemma ProperKids(t: Tree)
    ensures Sorted(t) && Trim(t)
            <==> Increasing(t.kids) && forall i :: 0 <= i < |t.kids| ==> Proper(t.kids[i].sub)
  {
  }

  lemma GrownProper(t: Tree, w: Word, i: nat, r: Tree)
    requires w != [] && Grown(t, w, i, r) && Proper(r.kids[i].sub) && Increasing(r.kids)
    requires Present(t, w[0]) ==> i == Position(t.kids, w[0])
    requires forall j :: 0 <= j < |t.kids| ==> Proper(t.kids[j].sub)
    ensures Sorted(r) && Trim(r)
  {
    forall j | 0 <= j < |r.kids|
      ensures Proper(r.kids[j].sub)
    {
      if j < i {
        assert r.kids[j] == t.kids[j];
      } else if j > i {
        assert r.kids[j] == t.kids[if Present(t, w[0]) then j else j - 1];
      }
    }
    ProperKids(r);
  }

  lemma {:induction false} InsertKeepsOrder(t: Tree, w: Word)
    requires Sorted(t) && Trim(t)
    ensures Sorted(Insert(t, w)) && Trim(Insert(t, w))
    ensures Insert(t, w).kids == [] ==> Insert(t, w).isword
    ensures Insert(t, w).kids == [] <==> t.kids == [] && w == []
    decreases |w|
  {
    if w == [] {
    } else {
      ProperKids(t);
      InsertKids(t, w);
      var i := Position(t.kids, w[0]);
      InsertKeepsOrder(if Present(t, w[0]) then t.kids[i].sub else EMPTY, w[1..]);
      GrownProper(t, w, i, Insert(t, w));
    }
  }

  ghost predicate NoLetters(words: seq<Word>) {
    forall i :: 0 <= i < |words| ==> words[i] == []
  }

  lemma LastWord(words: seq<Word>)
    requires words != []
    ensures var init, last := words[..|words| - 1], words[|words| - 1];
      && words == init + [last]
      && (NoLetters(words) <==> NoLetters(init) && last == [])
  {
  }

  /** The tree built from a list: sorted, trim, and accepting exactly the list. */
  lemma {:induction false} InsertAllAccepts(words: seq<Word>)
    ensures var t := InsertAll(EMPTY, words);
      && Sorted(t) && Trim(t)
      && (forall v :: Accepts(t, v) <==> v in words)
      && (t.kids == [] <==> NoLetters(words))
      && (t.kids == [] && words != [] ==> t.isword)
  {
    var t := InsertAll(EMPTY, words);
    if words == [] {
      forall v ensures !Accepts(t, v) { }
    } else {
      var init, last := words[..|words| - 1], words[|words| - 1];
      InsertAllAccepts(init);
      LastWord(words);
      InsertKeepsOrder(InsertAll(EMPTY, init), last);
      forall v ensures Accepts(t, v) <==> v in words {
        InsertAccepts(InsertAll(EMPTY, init), last, v);
      }
    }
  }

  // ---------- sorted trim trees are determined by their language ----------

  /** A tree accepts some word unless it is the bare non-word leaf. */
  lemma {:induction false} SomeWord(t: Tree) returns (w: Word)
    requires Trim(t) && (t.kids == [] ==> t.isword)
    ensures Accepts(t, w)
  {
    if t.isword {
      w := [];
    } else {
      var v := SomeWord(t.kids[0].sub);
      w := [t.kids[0].letter] + v;
      assert w[1..] == v;
    }
  }

  ghost predicate SameLanguage(a: Tree, b: Tree) {
    forall w: Word :: Accepts(a, w) <==> Accepts(b, w)
  }

  ghost predicate HasLetter(kids: seq<Edge>, c: Letter) {
    exists i :: 0 <= i < |kids| && kids[i].letter == c
  }

  ghost predicate SubsetOfLetters(a: seq<Edge>, b: seq<Edge>) {
    forall c {:trigger HasLetter(a, c)} :: HasLetter(a, c) ==> HasLetter(b, c)
  }

  lemma SameLetters(a: Tree, b: Tree)
    requires Sorted(a) && Trim(a) && SameLanguage(a, b)
    ensures SubsetOfLetters(a.kids, b.kids)
  {
    forall c | HasLetter(a.kids, c) ensures HasLetter(b.kids, c) {
      var i :| 0 <= i < |a.kids| && a.kids[i].letter == c;
      var v := SomeWord(a.kids[i].sub);
      var w := [a.kids[i].letter] + v;
      assert w[1..] == v;
      AcceptsAt(a, i, w);
      assert Accepts(b, w);
    }
  }

  /** If the lists agree before m, then a's letter at m cannot precede b's. */
  lemma NextLetter(a: seq<Edge>, b: seq<Edge>, m: nat)
    requires Increasing(a) && Increasing(b) && m < |a| && m <= |b|
    requires forall k :: 0 <= k < m ==> a[k].letter == b[k].letter
    requires SubsetOfLetters(a, b)
    ensures m < |b| && b[m].letter <= a[m].letter
  {
    assert HasLetter(a, a[m].letter);
    var j :| 0 <= j < |b| && b[j].letter == a[m].letter;
    assert m <= j;
  }

  lemma AlignedNext(a: seq<Edge>, b: seq<Edge>, m: nat)
    requires Increasing(a) && Increasing(b) && m < |a| && m <= |b|
    requires SubsetOfLetters(a, b) && SubsetOfLetters(b, a)
    requires forall k :: 0 <= k < m ==> a[k].letter == b[k].letter
    ensures m < |b| && a[m].letter == b[m].letter
  {
    NextLetter(a, b, m);
    NextLetter(b, a, m);
  }

  /** Two strictly increasing lists with the same letters are aligned. */
  lemma {:induction false} Aligned(a: seq<Edge>, b: seq<Edge>, n: nat)
    requires Increasing(a) && Increasing(b) && n <= |a|
    requires SubsetOfLetters(a, b) && SubsetOfLetters(b, a)
    ensures n <= |b| && forall k :: 0 <= k < n ==> a[k].letter == b[k].letter
  {
    if n == 0 {
    } else {
      Aligned(a, b, n - 1);
      AlignedNext(a, b, n - 1);
    }
  }

  /** Extensionality: the language determines the tree, node for node. */
  lemma {:induction false} LanguageDeterminesTree(a: Tree, b: Tree)
    requires Sorted(a) && Trim(a) && Sorted(b) && Trim(b) && SameLanguage(a, b)
    ensures a == b
    decreases a
  {
    assert Accepts(a, []) <==> Accepts(b, []);
    SameLetters(a, b);
    SameLetters(b, a);
    Aligned(a.kids, b.kids, |a.kids|);
    Aligned(b.kids, a.kids, |b.kids|);
    forall i | 0 <= i < |a.kids| ensures a.kids[i] == b.kids[i] {
      forall v: Word ensures Accepts(a.kids[i].sub, v) <==> Accepts(b.kids[i].sub, v) {
        var w := [a.kids[i].letter] + v;
        assert w[1..] == v;
        AcceptsAt(a, i, w);
        AcceptsAt(b, i, w);
      }
      LanguageDeterminesTree(a.kids[i].sub, b.kids[i].sub);
    }
  }

  // ---------- subtrees by path ----------

  /** p spells a path from the root. */
  predicate HasPath(t: Tree, p: Word) {
    p == [] ||
    var i := Position(t.kids, p[0]);
    i < |t.kids| && t.kids[i].letter == p[0] && HasPath(t.kids[i].sub, p[1..])
  }

  /** The subtree at the end of path p. */
  function At(t: Tree, p: Word): Tree
    requires HasPath(t, p)
  {
    if p == [] then t else At(t.kids[Position(t.kids, p[0])].sub, p[1..])
  }

  /** t with the subtree at p replaced by u. */
  function Update(t: Tree, p: Word, u: Tree): Tree
    requires HasPath(t, p)
  {
    if p == [] then u
    else
      var i := Position(t.kids, p[0]);
      t.(kids := t.kids[i := Edge(p[0], Update(t.kids[i].sub, p[1..], u))])
  }

  /** The child list after findAdd, with an empty node below a new letter. */
  function AddEdge(t: Tree, c: Letter): Tree {
    var i := Position(t.kids, c);
    if i < |t.kids| && t.kids[i].letter == c then t
    else t.(kids := t.kids[..i] + [Edge(c, EMPTY)] + t.kids[i..])
  }

  lemma PositionOf(kids: seq<Edge>, c: Letter, i: nat)
    requires Increasing(kids) && i < |kids| && kids[i].letter == c
    ensures Position(kids, c) == i
  {
    var k := Position(kids, c);
    if i < k { assert false; }
    if k < i { assert false; }
  }

  lemma {:induction false} AtSorted(t: Tree, p: Word)
    requires Sorted(t) && HasPath(t, p)
    ensures Sorted(At(t, p))
  {
    if p == [] {
    } else {
      AtSorted(t.kids[Position(t.kids, p[0])].sub, p[1..]);
    }
  }

  /** One more letter leads to that letter's child. */
  lemma {:induction false} AtStep(t: Tree, p: Word, i: nat)
    requires Sorted(t) && HasPath(t, p) && i < |At(t, p).kids|
    ensures var q := p + [At(t, p).kids[i].letter]; HasPath(t, q) && At(t, q) == At(t, p).kids[i].sub
  {
    var c := At(t, p).kids[i].letter;
    if p == [] {
      PositionOf(t.kids, c, i);
      assert ([] + [c])[1..] == [];
    } else {
      AtStep(t.kids[Position(t.kids, p[0])].sub, p[1..], i);
      assert (p + [c])[1..] == p[1..] + [c];
    }
  }

  /** Every path through p takes one of p's children next. */
  lemma {:induction false} PathThrough(t: Tree, p: Word, q: Word) returns (i: nat)
    requires HasPath(t, p) && HasPath(t, q) && p < q
    ensures i < |At(t, p).kids| && At(t, p).kids[i].letter == q[|p|]
  {
    if p == [] {
      i := Position(t.kids, q[0]);
    } else {
      i := PathThrough(t.kids[Position(t.kids, p[0])].sub, p[1..], q[1..]);
    }
  }

  lemma {:induction false} PathPrefix(t: Tree, p: Word, q: Word)
    requires HasPath(t, q) && p <= q
    ensures HasPath(t, p)
  {
    if p == [] {
    } else {
      PathPrefix(t.kids[Position(t.kids, p[0])].sub, p[1..], q[1..]);
    }
  }

  /** What a single node shows: its word flag and its letters. */
  ghost predicate SameNode(a: Tree, b: Tree) {
    a.isword == b.isword && |a.kids| == |b.kids|
    && forall i :: 0 <= i < |a.kids| ==> a.kids[i].letter == b.kids[i].letter
  }

  /** Replacing the subtree at p leaves every node not below p as it was. */
  lemma {:induction false} UpdateElsewhere(t: Tree, p: Word, u: Tree, q: Word)
    requires HasPath(t, p) && HasPath(t, q) && !(p <= q)
    ensures HasPath(Update(t, p, u), q) && SameNode(At(Update(t, p, u), q), At(t, q))
  {
    var i := Position(t.kids, p[0]);
    var r := Update(t, p, u);
    SameLettersSamePosition(t.kids, r.kids);
    if q != [] && q[0] == p[0] {
      assert p == [p[0]] + p[1..] && q == [q[0]] + q[1..];
      assert !(p[1..] <= q[1..]);
      UpdateElsewhere(t.kids[i].sub, p[1..], u, q[1..]);
    } else if q != [] {
      var j := Position(t.kids, q[0]);
      assert r.kids[j] == t.kids[j];
    }
  }

  lemma SameLettersSamePosition(a: seq<Edge>, b: seq<Edge>)
    requires |a| == |b| && forall i :: 0 <= i < |a| ==> a[i].letter == b[i].letter
    ensures forall c :: Position(a, c) == Position(b, c)
  {
    if a == [] {
    } else {
      SameLettersSamePosition(a[1..], b[1..]);
      forall c ensures Position(a, c) == Position(b, c) {
        assert Position(a[1..], c) == Position(b[1..], c);
      }
    }
  }

  /** Below p the result is the replacement. */
  lemma {:induction false} UpdateBelow(t: Tree, p: Word, u: Tree, q: Word)
    requires HasPath(t, p) && p <= q
    ensures HasPath(Update(t, p, u), q) <==> HasPath(u, q[|p|..])
    ensures HasPath(u, q[|p|..]) ==> At(Update(t, p, u), q) == At(u, q[|p|..])
  {
    if p == [] {
      assert q[0..] == q;
    } else {
      var r := Update(t, p, u);
      SameLettersSamePosition(t.kids, r.kids);
      UpdateBelow(t.kids[Position(t.kids, p[0])].sub, p[1..], u, q[1..]);
      assert q[1..][|p| - 1..] == q[|p|..];
    }
  }

  lemma ReplacedPosition(kids: seq<Edge>, i: nat, e: Edge)
    requires i < |kids| && e.letter == kids[i].letter
    ensures Position(kids[i := e], e.letter) == Position(kids, e.letter)
  {
    SameLettersSamePosition(kids, kids[i := e]);
  }

  lemma JoinTail(p: Word, q: Word)
    requires p != []
    ensures p + q != [] && (p + q)[0] == p[0] && (p + q)[1..] == p[1..] + q
  {
  }

  /** A replacement inside a replacement is one replacement. */
  lemma {:induction false} UpdateTwice(t: Tree, p: Word, u: Tree, q: Word, v: Tree)
    requires HasPath(t, p) && HasPath(u, q)
    ensures HasPath(Update(t, p, u), p + q)
    ensures Update(Update(t, p, u), p + q, v) == Update(t, p, Update(u, q, v))
  {
    if p == [] {
      assert p + q == q;
    } else {
      var c, i := p[0], Position(t.kids, p[0]);
      var a := Update(t.kids[i].sub, p[1..], u);
      UpdateTwice(t.kids[i].sub, p[1..], u, q, v);
      ReplacedPosition(t.kids, i, Edge(c, a));
      JoinTail(p, q);
      var b := Update(a, p[1..] + q, v);
      assert t.kids[i := Edge(c, a)][i := Edge(c, b)] == t.kids[i := Edge(c, b)];
    }
  }

  lemma {:induction false} UpdateSorted(t: Tree, p: Word, u: Tree)
    requires Sorted(t) && Sorted(u) && HasPath(t, p)
    ensures Sorted(Update(t, p, u))
  {
    if p == [] {
    } else {
      UpdateSorted(t.kids[Position(t.kids, p[0])].sub, p[1..], u);
    }
  }

  lemma AddEdgeSorted(t: Tree, c: Letter)
    requires Sorted(t)
    ensures Sorted(AddEdge(t, c))
  {
    var i, r := Position(t.kids, c), AddEdge(t, c);
    if !Present(t, c) {
      GrownIncreasing(t, [c], i, r);
      forall j | 0 <= j < |r.kids| ensures Sorted(r.kids[j].sub) {
        if j < i {
          assert r.kids[j] == t.kids[j];
        } else if j > i {
          assert r.kids[j] == t.kids[j - 1];
        }
      }
    }
  }

  lemma SpliceReplaced(kids: seq<Edge>, i: nat, a: Edge, b: Edge)
    requires i <= |kids|
    ensures var e := kids[..i] + [a] + kids[i..];
            i < |e| && e[i] == a && e[i := b] == kids[..i] + [b] + kids[i..]
  {
  }

  lemma EdgeThenRest(t: Tree, w: Word)
    requires w != []
    ensures var i, e := Position(t.kids, w[0]), AddEdge(t, w[0]);
      && i < |e.kids| && e.kids[i].letter == w[0]
      && Insert(t, w) == e.(kids := e.kids[i := Edge(w[0], Insert(e.kids[i].sub, w[1..]))])
  {
    var i, c := Position(t.kids, w[0]), w[0];
    if !Present(t, c) {
      SpliceReplaced(t.kids, i, Edge(c, EMPTY), Edge(c, Insert(EMPTY, w[1..])));
    }
  }

  /** Inserting a word below p is adding its first letter and inserting the rest
      one level down. */
  lemma InsertByEdge(t: Tree, p: Word, w: Word)
    requires Sorted(t) && HasPath(t, p) && w != []
    ensures var u, q := Update(t, p, AddEdge(At(t, p), w[0])), p + [w[0]];
      && HasPath(u, q)
      && Update(u, q, Insert(At(u, q), w[1..])) == Update(t, p, Insert(At(t, p), w))
  {
    var a, c := At(t, p), w[0];
    var e, i := AddEdge(a, c), Position(a.kids, c);
    EdgeThenRest(a, w);
    AtSorted(t, p);
    AddEdgeSorted(a, c);
    PositionOf(e.kids, c, i);
    ChildPath(e, i);
    var x := Insert(e.kids[i].sub, w[1..]);
    UpdateTwice(t, p, e, [c], x);
    UpdateBelow(t, p, e, p + [c]);
    assert (p + [c])[|p|..] == [c];
  }

  lemma ChildPath(e: Tree, i: nat)
    requires i < |e.kids| && i == Position(e.kids, e.kids[i].letter)
    ensures var c := e.kids[i].letter;
      && HasPath(e, [c]) && At(e, [c]) == e.kids[i].sub
      && forall x :: Update(e, [c], x) == e.(kids := e.kids[i := Edge(c, x)])
  {
    var c := e.kids[i].letter;
    assert [c][1..] == [];
  }

  /** Replacing a subtree by itself changes nothing. */
  lemma {:induction false} UpdateSame(t: Tree, p: Word)
    requires HasPath(t, p)
    ensures Update(t, p, At(t, p)) == t
  {
    if p == [] {
    } else {
      UpdateSame(t.kids[Position(t.kids, p[0])].sub, p[1..]);
    }
  }

  /** At or below the replaced node, paths go on in the old subtree. */
  lemma PathBelow(t: Tree, p: Word, q: Word)
    requires HasPath(t, p) && HasPath(t, q) && p <= q
    ensures HasPath(At(t, p), q[|p|..]) && At(t, q) == At(At(t, p), q[|p|..])
  {
    UpdateBelow(t, p, At(t, p), q);
    UpdateSame(t, p);
  }

  /** Marking the node at p as a word: every other node shows what it showed. */
  lemma MarkElsewhere(t: Tree, p: Word, q: Word)
    requires HasPath(t, p) && HasPath(t, q)
    ensures var r := Update(t, p, At(t, p).(isword := true));
      && HasPath(r, q)
      && SameNode(At(r, q), if p == q then At(t, p).(isword := true) else At(t, q))
  {
    var u := At(t, p).(isword := true);
    if p <= q {
      UpdateBelow(t, p, u, q);
      PathBelow(t, p, q);
      assert q == p + q[|p|..];
    } else {
      UpdateElsewhere(t, p, u, q);
    }
  }

  lemma EdgesKept(a: Tree, c: Letter, q: Word)
    requires Sorted(a) && HasPath(a, q) && q != [] && !Present(a, c)
    ensures q != [c] && HasPath(AddEdge(a, c), q) && At(AddEdge(a, c), q) == At(a, q)
  {
    var i, j := Position(a.kids, c), Position(a.kids, q[0]);
    var e := AddEdge(a, c);
    AddEdgeSorted(a, c);
    var k := if j < i then j else j + 1;
    assert e.kids[k] == a.kids[j];
    PositionOf(e.kids, q[0], k);
  }

  lemma AddEdgeBelow(t: Tree, p: Word, c: Letter, q: Word)
    requires Sorted(t) && HasPath(t, p) && HasPath(t, q) && !Present(At(t, p), c) && p <= q
    ensures var r := Update(t, p, AddEdge(At(t, p), c));
      && q != p + [c] && HasPath(r, q)
      && SameNode(At(r, q), if p == q then AddEdge(At(t, p), c) else At(t, q))
  {
    var a, rest := At(t, p), q[|p|..];
    PathBelow(t, p, q);
    UpdateBelow(t, p, AddEdge(a, c), q);
    AtSorted(t, p);
    assert q == p + rest;
    if rest != [] {
      EdgesKept(a, c, rest);
    }
  }

  /** Adding a letter below p: every node but p shows what it showed. */
  lemma AddEdgeElsewhere(t: Tree, p: Word, c: Letter, q: Word)
    requires Sorted(t) && HasPath(t, p) && HasPath(t, q) && !Present(At(t, p), c)
    ensures var r := Update(t, p, AddEdge(At(t, p), c));
      && q != p + [c] && HasPath(r, q)
      && SameNode(At(r, q), if p == q then AddEdge(At(t, p), c) else At(t, q))
  {
    if p <= q {
      AddEdgeBelow(t, p, c, q);
    } else {
      UpdateElsewhere(t, p, AddEdge(At(t, p), c), q);
    }
  }

  /** The new node itself is an empty leaf. */
  lemma AddEdgeHere(t: Tree, p: Word, c: Letter)
    requires Sorted(t) && HasPath(t, p) && !Present(At(t, p), c)
    ensures var r := Update(t, p, AddEdge(At(t, p), c)); HasPath(r, p + [c]) && At(r, p + [c]) == EMPTY
  {
    var a := At(t, p);
    var e, i := AddEdge(a, c), Position(a.kids, c);
    AtSorted(t, p);
    AddEdgeSorted(a, c);
    PositionOf(e.kids, c, i);
    ChildPath(e, i);
    UpdateBelow(t, p, e, p + [c]);
    assert (p + [c])[|p|..] == [c];
  }

  /** r is t with an empty node below p for the new letter c. */
  ghost predicate GrownAt(t: Tree, p: Word, c: Letter, r: Tree)
    requires HasPath(t, p)
  {
    && Sorted(r)
    && HasPath(r, p + [c]) && At(r, p + [c]) == EMPTY
    && forall q :: HasPath(t, q) ==>
         && q != p + [c] && HasPath(r, q)
         && SameNode(At(r, q), if p == q then AddEdge(At(t, p), c) else At(t, q))
  }

  lemma GrowsAt(t: Tree, p: Word, c: Letter)
    requires Sorted(t) && HasPath(t, p) && !Present(At(t, p), c)
    ensures GrownAt(t, p, c, Update(t, p, AddEdge(At(t, p), c)))
  {
    AtSorted(t, p);
    AddEdgeSorted(At(t, p), c);
    UpdateSorted(t, p, AddEdge(At(t, p), c));
    AddEdgeHere(t, p, c);
    var r := Update(t, p, AddEdge(At(t, p), c));
    forall q | HasPath(t, q)
      ensures && q != p + [c] && HasPath(r, q)
              && SameNode(At(r, q), if p == q then AddEdge(At(t, p), c) else At(t, q))
    {
      AddEdgeElsewhere(t, p, c, q);
    }
  }

  // ---------- keys: equal trees have equal keys ----------

  /** A value stored in a 32-bit int. */
  function Wrap32(x: int): int {
    (x + 0x8000_0000) % 0x1_0000_0000 - 0x8000_0000
  }

  const INT_MIN := -0x8000_0000

  /** What is stored is the only number of the same residue that fits 32 bits. */
  lemma WrapExact(x: int)
    ensures -2147483648 <= Wrap32(x) <= 2147483647 && (Wrap32(x) - x) % 4294967296 == 0
    ensures Wrap32(x) == x <==> -2147483648 <= x <= 2147483647
  {
  }

  /** Nodes strictly below t, over its first i children. */
  function DescendantsUpTo(t: Tree, i: nat): nat
    requires i <= |t.kids|
    decreases t, 0, i
  {
    if i == 0 then |t.kids| else DescendantsUpTo(t, i - 1) + Descendants(t.kids[i - 1].sub)
  }

  function Descendants(t: Tree): nat
    decreases t, 1
  {
    DescendantsUpTo(t, |t.kids|)
  }

  function DepthUpTo(t: Tree, i: nat): int
    requires i <= |t.kids|
    decreases t, 0, i
  {
    if i == 0 then INT_MIN
    else
      var d := Depth(t.kids[i - 1].sub) + 1;
      if d > DepthUpTo(t, i - 1) then d else DepthUpTo(t, i - 1)
  }

  function Depth(t: Tree): int
    decreases t, 1
  {
    DepthUpTo(t, |t.kids|)
  }

  /** A leaf's depth is the least int, and a parent is one deeper than its deepest child. */
  lemma {:induction false} DepthAbove(t: Tree, n: nat)
    requires n <= |t.kids|
    ensures n == 0 ==> DepthUpTo(t, n) == -2147483648
    ensures forall i :: 0 <= i < n ==> Depth(t.kids[i].sub) + 1 <= DepthUpTo(t, n)
    ensures n > 0 ==> DepthUpTo(t, n) == -2147483648
                      || exists i :: 0 <= i < n && DepthUpTo(t, n) == Depth(t.kids[i].sub) + 1
    decreases n
  {
    if n == 0 {
    } else {
      DepthAbove(t, n - 1);
    }
  }

  function HashUpTo(t: Tree, i: nat): int
    requires i <= |t.kids|
    decreases t, 0, i
  {
    if i == 0 then 0
    else Wrap32(HashUpTo(t, i - 1) * 64 + t.kids[i - 1].letter + KeyOf(t.kids[i - 1].sub) * 5)
  }

  /** The hash key of a tree; 0 is kept for leaves. */
  function KeyOf(t: Tree): int
    decreases t, 1
  {
    if Descendants(t) == 0 then HashUpTo(t, |t.kids|)
    else
      var k := Wrap32(HashUpTo(t, |t.kids|) + Descendants(t) + Depth(t) * 256 + |t.kids| * 65536);
      if k == 0 then 1 else k
  }

  lemma {:induction false} DescendantsAtLeast(t: Tree, i: nat)
    requires i <= |t.kids|
    ensures DescendantsUpTo(t, i) >= |t.kids|
    decreases i
  {
    if i == 0 {
    } else {
      DescendantsAtLeast(t, i - 1);
    }
  }

  /** Key 0 means leaf, and only that. */
  lemma KeyZeroIsLeaf(t: Tree)
    ensures KeyOf(t) == 0 <==> t.kids == []
  {
    DescendantsAtLeast(t, |t.kids|);
  }

  // ---------- proper subtrees are smaller ----------

  lemma {:induction false} AtSize(t: Tree, p: Word)
    requires HasPath(t, p)
    ensures p != [] ==> Descendants(At(t, p)) < Descendants(t)
  {
    if p == [] {
    } else {
      var i := Position(t.kids, p[0]);
      AtSize(t.kids[i].sub, p[1..]);
      DescendantsAbove(t, i, |t.kids|);
    }
  }

  lemma {:induction false} DescendantsAbove(t: Tree, i: nat, n: nat)
    requires i < n <= |t.kids|
    ensures Descendants(t.kids[i].sub) < DescendantsUpTo(t, n)
    decreases n
  {
    if i == n - 1 {
      DescendantsAtLeast(t, n - 1);
    } else {
      DescendantsAbove(t, i, n - 1);
    }
  }

  // ---------- the set of subtrees and the packed nodes they need ----------

  ghost function SubtreesUpTo(t: Tree, i: nat): set<Tree>
    requires i <= |t.kids|
    decreases t, 0, i
  {
    if i == 0 then {t} else SubtreesUpTo(t, i - 1) + Subtrees(t.kids[i - 1].sub)
  }

  ghost function Subtrees(t: Tree): set<Tree>
    decreases t, 1
  {
    SubtreesUpTo(t, |t.kids|)
  }

  /** One packed node for every child of every tree in s. */
  ghost function KidCount(s: set<Tree>): nat {
    if s == {} then 0 else var t :| t in s; |t.kids| + KidCount(s - {t})
  }

  lemma {:induction false} KidCountRemove(s: set<Tree>, t: Tree)
    requires t in s
    ensures KidCount(s) == |t.kids| + KidCount(s - {t})
    decreases |s|
  {
    var u :| u in s && KidCount(s) == |u.kids| + KidCount(s - {u});
    if u != t {
      KidCountRemove(s - {u}, t);
      KidCountRemove(s - {t}, u);
      assert s - {u} - {t} == s - {t} - {u};
    }
  }

  lemma {:induction false} KidCountUnion(a: set<Tree>, b: set<Tree>)
    requires a !! b
    ensures KidCount(a + b) == KidCount(a) + KidCount(b)
  {
    if a == {} {
      assert a + b == b;
    } else {
      var t :| t in a;
      KidCountRemove(a, t);
      KidCountRemove(a + b, t);
      assert (a + b) - {t} == (a - {t}) + b;
      KidCountUnion(a - {t}, b);
    }
  }

  lemma CountOwn(live: set<Tree>, t: Tree)
    ensures KidCount(live * {t}) == if t in live then |t.kids| else 0
  {
    if t in live {
      assert live * {t} == {t};
      KidCountRemove({t}, t);
    } else {
      assert live * {t} == {};
    }
  }

  lemma CountChild(live: set<Tree>, left: set<Tree>, t: Tree, i: nat)
    requires i < |t.kids| && left == live - SubtreesUpTo(t, i)
    ensures KidCount(live * SubtreesUpTo(t, i + 1))
         == KidCount(live * SubtreesUpTo(t, i)) + KidCount(left * Subtrees(t.kids[i].sub))
    ensures live - SubtreesUpTo(t, i + 1) == left - Subtrees(t.kids[i].sub)
  {
    var a, b := SubtreesUpTo(t, i), Subtrees(t.kids[i].sub);
    assert live * (a + b) == live * a + left * b;
    KidCountUnion(live * a, left * b);
  }

  lemma {:induction false} SubtreesDescend(t: Tree, i: nat)
    requires i <= |t.kids|
    ensures t in SubtreesUpTo(t, i)
    ensures forall j :: 0 <= j < i ==> Subtrees(t.kids[j].sub) <= SubtreesUpTo(t, i)
    decreases i
  {
    if i == 0 {
    } else {
      SubtreesDescend(t, i - 1);
    }
  }

  /** Every subtree of t other than t has fewer descendants. */
  lemma {:induction false} SubtreeSize(t: Tree, i: nat, u: Tree)
    requires i <= |t.kids| && u in SubtreesUpTo(t, i)
    ensures u == t || Descendants(u) < Descendants(t)
    decreases t, i
  {
    if i == 0 {
    } else {
      var s := t.kids[i - 1].sub;
      DescendantsAbove(t, i - 1, |t.kids|);
      if u in Subtrees(s) { SubtreeSize(s, |s.kids|, u); } else { SubtreeSize(t, i - 1, u); }
    }
  }

  lemma {:induction false} AtTrim(t: Tree, p: Word)
    requires Trim(t) && HasPath(t, p)
    ensures Trim(At(t, p)) && (p != [] && At(t, p).kids == [] ==> At(t, p).isword)
  {
    if p == [] {
    } else {
      AtTrim(t.kids[Position(t.kids, p[0])].sub, p[1..]);
    }
  }

  lemma {:induction false} AtInSubtrees(t: Tree, p: Word)
    requires HasPath(t, p)
    ensures At(t, p) in Subtrees(t)
  {
    SubtreesDescend(t, |t.kids|);
    if p != [] { AtInSubtrees(t.kids[Position(t.kids, p[0])].sub, p[1..]); }
  }

  /** Letters fit the packed field exactly when those of all the words do. */
  ghost predicate NarrowWord(w: Word) {
    forall k :: 0 <= k < |w| ==> w[k] < 0x1000
  }

  lemma {:induction false} InsertNarrow(t: Tree, w: Word)
    requires Sorted(t) && Narrow(t) && NarrowWord(w)
    ensures Narrow(Insert(t, w))
    decreases |w|
  {
    if w == [] {
    } else {
      InsertKids(t, w);
      var i, r := Position(t.kids, w[0]), Insert(t, w);
      InsertNarrow(if Present(t, w[0]) then t.kids[i].sub else EMPTY, w[1..]);
      forall j | 0 <= j < |r.kids| ensures r.kids[j].letter < 0x1000 && Narrow(r.kids[j].sub) {
        if j < i { assert r.kids[j] == t.kids[j]; }
      }
    }
  }

  lemma {:induction false} AcceptedNarrow(t: Tree, w: Word)
    requires Narrow(t) && Accepts(t, w)
    ensures NarrowWord(w)
    decreases |w|
  {
    if w == [] {
    } else {
      var i :| 0 <= i < |t.kids| && t.kids[i].letter == w[0] && Accepts(t.kids[i].sub, w[1..]);
      AcceptedNarrow(t.kids[i].sub, w[1..]);
      assert w == [w[0]] + w[1..];
    }
  }

  ghost predicate AllNarrow(words: seq<Word>) {
    forall i :: 0 <= i < |words| ==> NarrowWord(words[i])
  }

  /** The tree's letters fit the packed field exactly when those of all words do. */
  lemma {:induction false} NarrowIffWords(words: seq<Word>)
    ensures Narrow(InsertAll(EMPTY, words)) <==> AllNarrow(words)
  {
    InsertAllAccepts(words);
    if Narrow(InsertAll(EMPTY, words)) {
      forall i | 0 <= i < |words| ensures NarrowWord(words[i]) {
        assert words[i] in words;
        AcceptedNarrow(InsertAll(EMPTY, words), words[i]);
      }
    }
    if AllNarrow(words) && words != [] {
      var init := words[..|words| - 1];
      NarrowIffWords(init);
      InsertAllAccepts(init);
      InsertNarrow(InsertAll(EMPTY, init), words[|words| - 1]);
    }
  }
}
