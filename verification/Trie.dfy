/** QTrie: the temporary trie, a heap of nodes whose child pointers are rewritten
    in place when equal subtrees are merged. */
module Tries {
  import opened WordTrees

  datatype TriePtr = TriePtr(letter: Letter, p: QTrie)

  /** Insertion of one pointer, and the sort of a child list by letter. */
  function InsertPtr(x: TriePtr, s: seq<TriePtr>): seq<TriePtr> {
    if s == [] || x.letter <= s[0].letter then [x] + s else [s[0]] + InsertPtr(x, s[1..])
  }

  function SortPtrs(s: seq<TriePtr>): seq<TriePtr> {
    if s == [] then [] else InsertPtr(s[0], SortPtrs(s[1..]))
  }

  ghost predicate Matches(s: seq<TriePtr>, kids: seq<Edge>) {
    |s| == |kids| && forall i :: 0 <= i < |s| ==> s[i].letter == kids[i].letter
  }

  lemma {:induction false} SortOfSorted(s: seq<TriePtr>, kids: seq<Edge>)
    requires Matches(s, kids) && Increasing(kids)
    ensures SortPtrs(s) == s
  {
    if s == [] {
    } else {
      SortOfSorted(s[1..], kids[1..]);
      if |s| > 1 { assert kids[0].letter < kids[1].letter; }
      assert s == [s[0]] + s[1..];
    }
  }

  lemma {:induction false} InsertPtrAt(x: TriePtr, s: seq<TriePtr>, kids: seq<Edge>)
    requires Matches(s, kids)
    ensures var i := Position(kids, x.letter); InsertPtr(x, s) == s[..i] + [x] + s[i..]
  {
    if s == [] || x.letter <= kids[0].letter {
    } else {
      InsertPtrAt(x, s[1..], kids[1..]);
    }
  }

  /** Prepending and sorting puts a new child at its position. */
  lemma SortedSplice(x: TriePtr, s: seq<TriePtr>, t: Tree)
    requires Matches(s, t.kids) && Increasing(t.kids) && !Present(t, x.letter)
    ensures forall a :: a in SortPtrs([x] + s) <==> a == x || a in s
    ensures Matches(SortPtrs([x] + s), AddEdge(t, x.letter).kids)
  {
    SortOfSorted(s, t.kids);
    InsertPtrAt(x, s, t.kids);
    assert ([x] + s)[1..] == s;
    SpliceMatches(s, t.kids, Position(t.kids, x.letter), x, Edge(x.letter, EMPTY));
    SpliceElements(s, Position(t.kids, x.letter), x);
  }

  function Splice<T>(s: seq<T>, i: nat, x: T): seq<T>
    requires i <= |s|
  {
    s[..i] + [x] + s[i..]
  }

  lemma SpliceElements<T>(s: seq<T>, i: nat, x: T)
    requires i <= |s|
    ensures forall a :: a in Splice(s, i, x) <==> a == x || a in s
  {
    assert s == s[..i] + s[i..];
  }

  lemma SpliceMatches(s: seq<TriePtr>, kids: seq<Edge>, i: nat, x: TriePtr, e: Edge)
    requires Matches(s, kids) && i <= |s| && x.letter == e.letter
    ensures Matches(Splice(s, i, x), Splice(kids, i, e))
  {
  }

  /** S is the set of nodes of a trie for T: the path from the root names a node,
      and every node shows what T shows at its path. */
  ghost predicate TrieOf(S: set<QTrie>, T: Tree)
    reads S`children, S`isword
  {
    && Sorted(T)
    && (forall m, n :: m in S && n in S && m.path == n.path ==> m == n)
    && (forall n :: n in S ==> HasPath(T, n.path))
    && (forall n :: n in S ==> n.Shows(At(T, n.path), S))
  }

  // ---------- the finished trie: every node with the word tree it stands for ----------

  /** Every node's fields agree with its word tree, and links lead to the right trees. */
  ghost predicate Graph(sh: map<QTrie, Tree>)
    reads sh.Keys`children, sh.Keys`isword
  {
    forall n :: n in sh ==> n.Stands(sh)
  }

  /** The links as they are before any merging. */
  ghost predicate Holds(links: map<QTrie, seq<TriePtr>>)
    reads links.Keys`children
  {
    forall n :: n in links ==> n.children == links[n]
  }

  /** The links form the tree: each leads to the child's tree, one letter further. */
  ghost predicate LinkTree(links: map<QTrie, seq<TriePtr>>, sh: map<QTrie, Tree>) {
    && links.Keys == sh.Keys
    && forall n :: n in sh ==>
         && Matches(links[n], sh[n].kids)
         && forall i :: 0 <= i < |links[n]| ==>
              && links[n][i].p in sh && sh[links[n][i].p] == sh[n].kids[i].sub
              && links[n][i].p.path == n.path + [links[n][i].letter]
  }

  /** Paths name nodes, and every node is reached through its ancestors' letters. */
  ghost predicate Laid(sh: map<QTrie, Tree>) {
    && (forall m, n {:trigger SamePlace(m, n)} :: m in sh && n in sh && SamePlace(m, n) ==> m == n)
    && (forall n {:trigger Sorted(sh[n])} :: n in sh ==> Sorted(sh[n]))
    && (forall m, n {:trigger LeadsTo(m, n, sh)} :: m in sh && n in sh ==> LeadsTo(m, n, sh))
  }

  ghost predicate SamePlace(m: QTrie, n: QTrie) {
    m.path == n.path
  }

  ghost predicate LeadsTo(m: QTrie, n: QTrie, sh: map<QTrie, Tree>)
    requires m in sh
  {
    m.path < n.path ==> HasLetter(sh[m].kids, n.path[|m.path|])
  }

  /** From p downwards the links still form the original tree. */
  ghost predicate TreeBelow(sh: map<QTrie, Tree>, p: Word)
    reads Below(sh, p)`children
  {
    forall n :: n in Below(sh, p) ==> forall a :: a in n.children ==> a.p.path == n.path + [a.letter]
  }

  /** The nodes at or below path p. */
  ghost function Below(sh: map<QTrie, Tree>, p: Word): set<QTrie> {
    set n | n in sh && p <= n.path
  }

  /** The nodes below p through one of its first i children. */
  ghost function BelowFirst(sh: map<QTrie, Tree>, p: Word, kids: seq<Edge>, i: nat): set<QTrie>
    requires i <= |kids|
  {
    set n | n in sh && p < n.path && exists j :: 0 <= j < i && kids[j].letter == n.path[|p|]
  }

  lemma BelowChild(sh: map<QTrie, Tree>, p: Word, kids: seq<Edge>, i: nat)
    requires i < |kids| && Increasing(kids)
    ensures var c := Below(sh, p + [kids[i].letter]);
      && BelowFirst(sh, p, kids, i + 1) == BelowFirst(sh, p, kids, i) + c
      && BelowFirst(sh, p, kids, i) !! c && c <= Below(sh, p)
      && forall n :: n in c ==> n.path != p
  {
    forall n | n in sh
      ensures p + [kids[i].letter] <= n.path <==> p < n.path && n.path[|p|] == kids[i].letter
    {
    }
  }

  lemma AllBelow(sh: map<QTrie, Tree>, m: QTrie)
    requires Laid(sh) && m in sh
    ensures BelowFirst(sh, m.path, sh[m].kids, |sh[m].kids|) == Below(sh, m.path) - {m}
  {
    forall n | n in Below(sh, m.path) - {m} ensures n in BelowFirst(sh, m.path, sh[m].kids, |sh[m].kids|) {
      assert !SamePlace(m, n) && LeadsTo(m, n, sh);
    }
  }

  /** Nothing lies below a leaf. */
  lemma LeafAlone(sh: map<QTrie, Tree>, m: QTrie)
    requires Laid(sh) && m in sh && sh[m].kids == []
    ensures Below(sh, m.path) == {m}
  {
    forall n | n in Below(sh, m.path) ensures n == m {
      assert SamePlace(m, n) || LeadsTo(m, n, sh);
    }
  }

  /** A finished trie: what the later phases rely on. */
  lemma TrieIsLaid(S: set<QTrie>, T: Tree) returns (sh: map<QTrie, Tree>, links: map<QTrie, seq<TriePtr>>)
    requires TrieOf(S, T) && Trim(T) && (T.kids == [] ==> T.isword)
    ensures sh == map n | n in S :: At(T, n.path)
    ensures Laid(sh) && Graph(sh) && TreeBelow(sh, []) && Holds(links) && LinkTree(links, sh)
    ensures forall n :: n in sh ==> Trim(sh[n]) && sh[n] in Subtrees(T) && (sh[n].kids == [] ==> sh[n].isword)
  {
    sh := map n | n in S :: At(T, n.path);
    links := map n | n in S :: n.children;
    SubtreesShown(S, T, sh);
    LinksShown(S, T, sh, links);
    forall m, n | m in sh && n in sh ensures LeadsTo(m, n, sh) {
      if m.path < n.path { var i := PathThrough(T, m.path, n.path); }
    }
  }

  lemma SubtreesShown(S: set<QTrie>, T: Tree, sh: map<QTrie, Tree>)
    requires TrieOf(S, T) && Trim(T) && (T.kids == [] ==> T.isword)
    requires sh == map n | n in S :: At(T, n.path)
    ensures forall n :: n in sh ==>
              Sorted(sh[n]) && Trim(sh[n]) && sh[n] in Subtrees(T) && (sh[n].kids == [] ==> sh[n].isword)
  {
    forall n | n in sh
      ensures Sorted(sh[n]) && Trim(sh[n]) && sh[n] in Subtrees(T) && (sh[n].kids == [] ==> sh[n].isword)
    {
      AtSorted(T, n.path);
      AtTrim(T, n.path);
      AtInSubtrees(T, n.path);
    }
  }

  lemma LinksShown(S: set<QTrie>, T: Tree, sh: map<QTrie, Tree>, links: map<QTrie, seq<TriePtr>>)
    requires TrieOf(S, T) && sh == map n | n in S :: At(T, n.path)
    requires links == map n | n in S :: n.children
    ensures Graph(sh) && Holds(links) && LinkTree(links, sh) && TreeBelow(sh, [])
  {
    forall n, i | n in sh && 0 <= i < |n.children|
      ensures && n.children[i].p in sh && sh[n.children[i].p] == sh[n].kids[i].sub
              && n.children[i].p.path == n.path + [n.children[i].letter]
    {
      assert n.children[i] in n.children;
      AtStep(T, n.path, i);
    }
  }

  /** Leaders of the same tree are the same node. */
  lemma LeaderUnique(clubs: map<int, seq<QTrie>>, sh: map<QTrie, Tree>, m: QTrie, n: QTrie)
    requires IsLeader(clubs, sh, m) && IsLeader(clubs, sh, n) && sh[m] == sh[n]
    ensures m == n
  {
    var club := clubs[KeyOf(sh[m])];
    var i :| 0 <= i < |club| && FirstAt(club, sh, i, m);
    var j :| 0 <= j < |club| && FirstAt(club, sh, j, n);
    if i < j { assert club[i] == m; } else if j < i { assert club[j] == n; }
  }

  lemma OtherChildren(sh: map<QTrie, Tree>, p: Word, kids: seq<Edge>, i: nat)
    requires Increasing(kids) && i < |kids|
    ensures forall j :: i < j < |kids| ==> Below(sh, p + [kids[j].letter]) !! Below(sh, p + [kids[i].letter])
  {
    forall j, n | i < j < |kids| && n in sh && p + [kids[j].letter] <= n.path
      ensures !(p + [kids[i].letter] <= n.path)
    {
      assert n.path[|p|] == kids[j].letter;
    }
  }

  /** l is the first node of its club that stands for its tree. */
  ghost predicate IsLeader(clubs: map<int, seq<QTrie>>, sh: map<QTrie, Tree>, l: QTrie) {
    && l in sh && KeyOf(sh[l]) in clubs
    && exists i :: 0 <= i < |clubs[KeyOf(sh[l])]| && FirstAt(clubs[KeyOf(sh[l])], sh, i, l)
  }

  ghost predicate FirstAt(club: seq<QTrie>, sh: map<QTrie, Tree>, i: nat, l: QTrie)
    requires l in sh && i < |club|
  {
    club[i] == l && forall j :: 0 <= j < i ==> club[j] in sh && sh[club[j]] != sh[l]
  }

  /** Every node has its key and is filed; every leaf is a word. */
  ghost predicate Clubbed(directory: TrieClubDirectory, sh: map<QTrie, Tree>)
    reads directory, sh.Keys`key
  {
    && directory.Valid(sh) && directory.filed == sh.Keys
    && forall n :: n in sh ==> n.key == KeyOf(sh[n]) && (sh[n].kids == [] ==> sh[n].isword)
  }

  /** The merged graph: closed under links, one node for every tree. */
  ghost predicate Merged(G: set<QTrie>, sh: map<QTrie, Tree>)
    reads G`children, G`isword
  {
    && G <= sh.Keys
    && (forall n :: n in G ==> n.Stands(sh) && forall i :: 0 <= i < |n.children| ==> n.children[i].p in G)
    && (forall m, n {:trigger SameTree(m, n, sh)} :: m in G && n in G && SameTree(m, n, sh) ==> m == n)
  }

  ghost predicate SameTree(m: QTrie, n: QTrie, sh: map<QTrie, Tree>)
    requires m in sh && n in sh
  {
    sh[m] == sh[n]
  }

  /** The nodes with a key are those whose trees are still live. */
  ghost predicate LiveKeys(G: set<QTrie>, sh: map<QTrie, Tree>, live: set<Tree>)
    requires G <= sh.Keys
    reads G`key
  {
    forall n :: n in G ==> (n.key != 0 <==> sh[n] in live)
  }

  /** The clubs: for every key, the nodes with that key, the latest first. */
  class TrieClubDirectory {
    var clubs: map<int, seq<QTrie>>
    ghost var filed: set<QTrie>

    /** Exactly the filed nodes are listed, each under the key of its tree. */
    ghost predicate Valid(sh: map<QTrie, Tree>)
      reads this
    {
      && filed <= sh.Keys
      && (forall k :: k in clubs ==> forall m :: m in clubs[k] ==> m in filed && KeyOf(sh[m]) == k)
      && (forall m :: m in filed ==> KeyOf(sh[m]) in clubs && m in clubs[KeyOf(sh[m])])
    }

    constructor ()
      ensures clubs == map[] && filed == {}
    {
      clubs, filed := map[], {};
    }

    method Prepend(k: int, n: QTrie, ghost sh: map<QTrie, Tree>)
      requires Valid(sh) && n in sh && KeyOf(sh[n]) == k
      modifies this
      ensures Valid(sh) && filed == old(filed) + {n}
    {
      if k !in clubs {
        clubs := clubs[k := []];
      }
      clubs := clubs[k := [n] + clubs[k]];
      filed := filed + {n};
    }
  }

  class QTrie {
    ghost const path: Word
    var children: seq<TriePtr>
    var isword: bool
    var maxdepth: int
    var decendants: int
    var key: int

    /** The node's own fields agree with t, and its links lead one letter down. */
    ghost predicate Shows(t: Tree, S: set<QTrie>)
      reads this`children, this`isword
    {
      && isword == t.isword && Matches(children, t.kids)
      && forall a :: a in children ==> a.p in S && a.p.path == path + [a.letter]
    }

    ghost predicate Stands(sh: map<QTrie, Tree>)
      requires this in sh
      reads this`children, this`isword
    {
      && isword == sh[this].isword && Matches(children, sh[this].kids)
      && forall i :: 0 <= i < |children| ==> children[i].p in sh && sh[children[i].p] == sh[this].kids[i].sub
    }

    /** Only the word flag and the letters of t matter. */
    lemma ShowsSame(t: Tree, u: Tree, S: set<QTrie>)
      requires Shows(t, S) && SameNode(t, u)
      ensures Shows(u, S)
    {
    }

    constructor (ghost path: Word)
      ensures this.path == path && children == [] && !isword && key == 0
    {
      this.path := path;
      children, isword, maxdepth, decendants, key := [], false, 0, 0, 0;
    }

    /** A letter already present changes nothing. */
    lemma ChildIsThere(c: Letter, i: nat, S: set<QTrie>, T: Tree)
      requires this in S && TrieOf(S, T) && Increasing(At(T, path).kids)
      requires i < |children| && children[i].letter == c
      ensures children[i].p in S && children[i].p.path == path + [c]
      ensures Update(T, path, AddEdge(At(T, path), c)) == T
    {
      PositionOf(At(T, path).kids, c, i);
      UpdateSame(T, path);
      assert children[i] in children;
    }

    lemma ShowsMore(t: Tree, S: set<QTrie>, S': set<QTrie>)
      requires Shows(t, S) && S <= S'
      ensures Shows(t, S')
    {
    }

    lemma OneMore(n: QTrie, S: set<QTrie>, T: Tree)
      requires Sorted(T) && (forall k, m :: k in S && m in S && k.path == m.path ==> k == m)
      requires forall m :: m in S ==> HasPath(T, m.path) && m.Shows(At(T, m.path), S + {n}) && m.path != n.path
      requires HasPath(T, n.path) && At(T, n.path) == EMPTY && n.children == [] && !n.isword
      ensures TrieOf(S + {n}, T)
    {
      assert n.Shows(EMPTY, S + {n});
    }

    /** The trie after a child was added: only this node shows anything new. */
    lemma Grows(x: TriePtr, S: set<QTrie>, T: Tree, T': Tree)
      requires this in S && (forall m, n :: m in S && n in S && m.path == n.path ==> m == n)
      requires forall n :: n in S ==> HasPath(T, n.path)
      requires forall n :: n in S && n != this ==> n.Shows(At(T, n.path), S)
      requires Shows(AddEdge(At(T, path), x.letter), S + {x.p})
      requires x.p !in S && x.p.path == path + [x.letter] && x.p.children == [] && !x.p.isword
      requires GrownAt(T, path, x.letter, T')
      ensures TrieOf(S + {x.p}, T')
    {
      var S' := S + {x.p};
      forall n | n in S ensures HasPath(T', n.path) && n.Shows(At(T', n.path), S') && n.path != x.p.path {
        assert HasPath(T, n.path);
        if n == this {
          ShowsSame(AddEdge(At(T, path), x.letter), At(T', path), S');
        } else {
          n.ShowsMore(At(T, n.path), S, S');
          n.ShowsSame(At(T, n.path), At(T', n.path), S');
        }
      }
      OneMore(x.p, S, T');
    }

    method PrependAndSort(x: TriePtr, ghost t: Tree)
      requires Matches(children, t.kids) && Increasing(t.kids) && !Present(t, x.letter)
      modifies this`children
      ensures Matches(children, AddEdge(t, x.letter).kids)
      ensures forall a :: a in children <==> a == x || a in old(children)
    {
      SortedSplice(x, children, t);
      children := SortPtrs([x] + children);
    }

    /** A fresh child is prepended and the list sorted again. */
    method AddChild(x: TriePtr, ghost S: set<QTrie>, ghost T: Tree, ghost T': Tree)
      requires this in S && TrieOf(S, T) && Increasing(At(T, path).kids) && !Present(At(T, path), x.letter)
      requires x.p !in S && x.p.path == path + [x.letter] && x.p.children == [] && !x.p.isword
      requires GrownAt(T, path, x.letter, T')
      modifies this
      ensures TrieOf(S + {x.p}, T')
    {
      ghost var here := At(T, path);
      PrependAndSort(x, here);
      assert Shows(AddEdge(here, x.letter), S + {x.p});
      assert forall n :: n in S && n != this ==> n.Shows(At(T, n.path), S);
      Grows(x, S, T, T');
    }

    /** Returns the child for letter c, adding an empty one if there is none. */
    method FindAdd(c: Letter, ghost S: set<QTrie>, ghost T: Tree) returns (t: QTrie, ghost S': set<QTrie>)
      requires this in S && TrieOf(S, T)
      modifies this
      ensures S <= S' && fresh(S' - S) && t in S' && t.path == path + [c]
      ensures TrieOf(S', Update(T, path, AddEdge(At(T, path), c)))
    {
      AtSorted(T, path);
      for i := 0 to |children|
        invariant forall j :: 0 <= j < i ==> children[j].letter != c
      {
        if children[i].letter == c {
          ChildIsThere(c, i, S, T);
          return children[i].p, S;
        }
      }
      t := new QTrie(path + [c]);
      S' := S + {t};
      GrowsAt(T, path, c);
      AddChild(TriePtr(c, t), S, T, Update(T, path, AddEdge(At(T, path), c)));
    }

    /** The node is the end of a word. */
    method MarkWord(ghost S: set<QTrie>, ghost T: Tree)
      requires this in S && TrieOf(S, T)
      modifies this
      ensures TrieOf(S, Update(T, path, Insert(At(T, path), [])))
    {
      ghost var T' := Update(T, path, Insert(At(T, path), []));
      AtSorted(T, path);
      UpdateSorted(T, path, Insert(At(T, path), []));
      isword := true;
      forall n | n in S ensures HasPath(T', n.path) && n.Shows(At(T', n.path), S) {
        MarkElsewhere(T, path, n.path);
      }
    }

    /** Inserting below a path, one letter further. */
    static lemma InsertByLetter(T: Tree, p: Word, s: Word, index: nat)
      requires Sorted(T) && HasPath(T, p) && index < |s| && p == s[..index]
      ensures s[..index + 1] == p + [s[index]]
      ensures var u, q := Update(T, p, AddEdge(At(T, p), s[index])), p + [s[index]];
        && HasPath(u, q)
        && Update(u, q, Insert(At(u, q), s[index + 1..])) == Update(T, p, Insert(At(T, p), s[index..]))
    {
      assert s[index..][0] == s[index] && s[index..][1..] == s[index + 1..];
      InsertByEdge(T, p, s[index..]);
    }

    method InsertRest(s: Word, index: nat, ghost S: set<QTrie>, ghost T: Tree) returns (ghost S': set<QTrie>)
      requires this in S && TrieOf(S, T) && index < |s| && path == s[..index]
      modifies S
      ensures S <= S' && fresh(S' - S)
      ensures TrieOf(S', Update(T, path, Insert(At(T, path), s[index..])))
      decreases |s| - index, 0
    {
      InsertByLetter(T, path, s, index);
      var t, S1 := FindAdd(s[index], S, T);
      S' := t.InsertWord(s, index + 1, S1, Update(T, path, AddEdge(At(T, path), s[index])));
    }

    /** Adds the rest of the word s from this node, which its first letters reach. */
    method InsertWord(s: Word, index: nat, ghost S: set<QTrie>, ghost T: Tree) returns (ghost S': set<QTrie>)
      requires this in S && TrieOf(S, T) && index <= |s| && path == s[..index]
      modifies S
      ensures S <= S' && fresh(S' - S)
      ensures TrieOf(S', Update(T, path, Insert(At(T, path), s[index..])))
      decreases |s| - index, 1
    {
      if index == |s| {
        MarkWord(S, T);
        S' := S;
      } else {
        S' := InsertRest(s, index, S, T);
      }
    }

    ghost predicate Summed(t: Tree, i: nat)
      requires i <= |t.kids|
      reads this`key, this`maxdepth, this`decendants
    {
      decendants == DescendantsUpTo(t, i) && maxdepth == DepthUpTo(t, i) && key == HashUpTo(t, i)
    }

    ghost predicate Keyed(t: Tree)
      reads this`key, this`maxdepth, this`decendants
    {
      key == KeyOf(t) && maxdepth == Depth(t) && decendants == Descendants(t)
    }

    method StartKey(ghost t: Tree)
      requires |children| == |t.kids|
      modifies this`key, this`decendants, this`maxdepth
      ensures Summed(t, 0)
    {
      maxdepth := INT_MIN;
      decendants := |children|;
      key := 0;
    }

    method AddChildKey(s: QTrie, l: Letter, ghost t: Tree, ghost i: nat)
      requires i < |t.kids| && t.kids[i].letter == l && s != this && s.Keyed(t.kids[i].sub) && Summed(t, i)
      modifies this`key, this`decendants, this`maxdepth
      ensures Summed(t, i + 1)
    {
      key := Wrap32(key * 64 + l + s.key * 5);
      decendants := decendants + s.decendants;
      if s.maxdepth + 1 > maxdepth {
        maxdepth := s.maxdepth + 1;
      }
    }

    method FinishKey(ghost t: Tree)
      requires |children| == |t.kids| && Summed(t, |t.kids|)
      modifies this`key
      ensures Keyed(t)
    {
      if decendants != 0 {
        key := Wrap32(key + decendants + maxdepth * 256 + |children| * 65536);
        if key == 0 { key := key + 1; }
      }
    }

    ghost predicate ChildrenFiled(directory: TrieClubDirectory, sh: map<QTrie, Tree>, i: nat, before: set<QTrie>)
      requires this in sh && i <= |sh[this].kids|
      reads sh.Keys`key, directory
    {
      var done := BelowFirst(sh, path, sh[this].kids, i);
      && directory.Valid(sh) && directory.filed == before + done
      && forall n :: n in done ==> n.key == KeyOf(sh[n])
    }

    /** The state after the first i children: their subtrees keyed and filed. */
    ghost predicate ChildrenDone(directory: TrieClubDirectory, sh: map<QTrie, Tree>, i: nat, before: set<QTrie>)
      requires this in sh && i <= |sh[this].kids|
      reads sh.Keys`key, sh.Keys`maxdepth, sh.Keys`decendants, directory
    {
      Summed(sh[this], i) && ChildrenFiled(directory, sh, i, before)
    }

    method FileUnderKey(directory: TrieClubDirectory, ghost sh: map<QTrie, Tree>, ghost before: set<QTrie>)
      requires this in sh && |children| == |sh[this].kids| && ChildrenDone(directory, sh, |sh[this].kids|, before)
      requires BelowFirst(sh, path, sh[this].kids, |sh[this].kids|) == Below(sh, path) - {this}
      modifies this`key, directory
      ensures directory.Valid(sh) && directory.filed == before + Below(sh, path)
      ensures Keyed(sh[this]) && forall n :: n in Below(sh, path) ==> n.key == KeyOf(sh[n])
    {
      FinishKey(sh[this]);
      directory.Prepend(key, this, sh);
    }

    /** Keys and files everything below child i. */
    method KeyChild(directory: TrieClubDirectory, i: nat, ghost links: map<QTrie, seq<TriePtr>>,
                    ghost sh: map<QTrie, Tree>, ghost before: set<QTrie>)
      requires this in sh && Laid(sh) && Holds(links) && LinkTree(links, sh)
      requires i < |sh[this].kids| && ChildrenDone(directory, sh, i, before)
      modifies Below(sh, path)`key, Below(sh, path)`maxdepth, Below(sh, path)`decendants, directory
      ensures Summed(sh[this], i) && ChildrenFiled(directory, sh, i + 1, before)
      ensures i < |children| && children[i].letter == sh[this].kids[i].letter
      ensures children[i].p != this && children[i].p.Keyed(sh[this].kids[i].sub)
      decreases sh[this], 0
    {
      assert Sorted(sh[this]) && children == links[this];
      BelowChild(sh, path, sh[this].kids, i);
      children[i].p.DistributeKeys(directory, links, sh);
    }

    method DistributeChild(directory: TrieClubDirectory, i: nat, ghost links: map<QTrie, seq<TriePtr>>,
                           ghost sh: map<QTrie, Tree>, ghost before: set<QTrie>)
      requires this in sh && Laid(sh) && Holds(links) && LinkTree(links, sh)
      requires i < |sh[this].kids| && ChildrenDone(directory, sh, i, before)
      modifies Below(sh, path)`key, Below(sh, path)`maxdepth, Below(sh, path)`decendants, directory
      ensures ChildrenDone(directory, sh, i + 1, before)
      decreases sh[this], 1
    {
      KeyChild(directory, i, links, sh, before);
      AddChildKey(children[i].p, children[i].letter, sh[this], i);
    }

    /** The loop over the children, adding up this node's key on the way. */
    method DistributeChildren(directory: TrieClubDirectory, ghost links: map<QTrie, seq<TriePtr>>,
                              ghost sh: map<QTrie, Tree>)
      requires this in sh && Laid(sh) && Holds(links) && LinkTree(links, sh) && directory.Valid(sh)
      modifies Below(sh, path)`key, Below(sh, path)`maxdepth, Below(sh, path)`decendants, directory
      ensures ChildrenDone(directory, sh, |sh[this].kids|, old(directory.filed))
      decreases sh[this], 2
    {
      assert children == links[this];
      StartKey(sh[this]);
      assert BelowFirst(sh, path, sh[this].kids, 0) == {};
      for i := 0 to |children|
        invariant Holds(links)
        invariant ChildrenDone(directory, sh, i, old(directory.filed))
      {
        DistributeChild(directory, i, links, sh, old(directory.filed));
      }
    }

    /** Computes this subtree's keys and files each of its nodes under its key. */
    method DistributeKeys(directory: TrieClubDirectory, ghost links: map<QTrie, seq<TriePtr>>,
                          ghost sh: map<QTrie, Tree>)
      requires this in sh && Laid(sh) && Holds(links) && LinkTree(links, sh) && directory.Valid(sh)
      modifies Below(sh, path)`key, Below(sh, path)`maxdepth, Below(sh, path)`decendants, directory
      ensures directory.Valid(sh) && directory.filed == old(directory.filed) + Below(sh, path)
      ensures Keyed(sh[this]) && forall n :: n in Below(sh, path) ==> n.key == KeyOf(sh[n])
      decreases sh[this], 3
    {
      DistributeChildren(directory, links, sh);
      AllBelow(sh, this);
      FileUnderKey(directory, sh, old(directory.filed));
    }

    /** Do both nodes stand for the same tree? */
    method Equal(o: QTrie, ghost sh: map<QTrie, Tree>) returns (b: bool)
      requires this in sh && o in sh && Graph(sh)
      ensures b <==> sh[this] == sh[o]
      decreases Descendants(sh[this]) + Descendants(sh[o])
    {
      assert Stands(sh) && o.Stands(sh);
      if o == this { return true; }
      if isword != o.isword || |children| != |o.children| { return false; }
      for i := 0 to |children|
        invariant forall j :: 0 <= j < i ==> sh[this].kids[j] == sh[o].kids[j]
      {
        DescendantsAbove(sh[this], i, |children|);
        DescendantsAbove(sh[o], i, |children|);
        if o.children[i].letter != children[i].letter { return false; }
        var same := o.children[i].p.Equal(children[i].p, sh);
        if !same { return false; }
      }
      return true;
    }

    /** All links lead to leaders. */
    ghost predicate Canonical(clubs: map<int, seq<QTrie>>, sh: map<QTrie, Tree>)
      reads this`children
    {
      forall a :: a in children ==> IsLeader(clubs, sh, a.p)
    }

    ghost predicate ChildUntouched(sh: map<QTrie, Tree>, j: nat)
      requires this in sh && j < |children| && j < |sh[this].kids|
      reads this`children, Below(sh, path + [sh[this].kids[j].letter])`children
    {
      var p := path + [sh[this].kids[j].letter];
      children[j].p.path == p && TreeBelow(sh, p)
    }

    /** The first m children's subtrees are merged, this node's links to the first
        k of them lead to leaders, and from child m on the links are untouched. */
    ghost predicate ChildrenMerged(clubs: map<int, seq<QTrie>>, sh: map<QTrie, Tree>, m: nat, k: nat)
      requires this in sh && k <= m <= |sh[this].kids|
      reads sh.Keys`children
    {
      && |children| == |sh[this].kids|
      && (forall n :: n in BelowFirst(sh, path, sh[this].kids, m) ==> n.Canonical(clubs, sh))
      && (forall j :: 0 <= j < k ==> IsLeader(clubs, sh, children[j].p))
      && (forall j :: m <= j < |children| ==> ChildUntouched(sh, j))
    }

    lemma TreesBelow(sh: map<QTrie, Tree>)
      requires this in sh && Stands(sh) && TreeBelow(sh, path)
      ensures forall j :: 0 <= j < |children| ==> ChildUntouched(sh, j)
    {
      forall j | 0 <= j < |children| ensures ChildUntouched(sh, j) {
        assert children[j] in children;
      }
    }

    lemma AllCanonical(clubs: map<int, seq<QTrie>>, sh: map<QTrie, Tree>)
      requires this in sh && ChildrenMerged(clubs, sh, |sh[this].kids|, |sh[this].kids|)
      requires BelowFirst(sh, path, sh[this].kids, |sh[this].kids|) == Below(sh, path) - {this}
      ensures forall n :: n in Below(sh, path) ==> n.Canonical(clubs, sh)
    {
    }

    lemma ThisNotBelow(sh: map<QTrie, Tree>, p: Word, c: Letter)
      requires p == path
      ensures this !in Below(sh, p + [c])
    {
    }

    method SetChild(i: nat, t: QTrie, ghost clubs: map<int, seq<QTrie>>, ghost sh: map<QTrie, Tree>)
      requires this in sh && Graph(sh) && i < |sh[this].kids| && ChildrenMerged(clubs, sh, i + 1, i)
      requires IsLeader(clubs, sh, t) && sh[t] == sh[this].kids[i].sub
      modifies this`children
      ensures Graph(sh) && ChildrenMerged(clubs, sh, i + 1, i + 1)
    {
      assert Stands(sh);
      children := children[i := TriePtr(children[i].letter, t)];
      forall n | n in sh ensures n.Stands(sh) { }
      forall j | i < j < |children| ensures ChildUntouched(sh, j) {
        ThisNotBelow(sh, path, sh[this].kids[j].letter);
        assert old(ChildUntouched(sh, j));
      }
      forall n | n in BelowFirst(sh, path, sh[this].kids, i + 1) ensures n.Canonical(clubs, sh) {
        assert n != this;
      }
    }

    method MergeChild(directory: TrieClubDirectory, i: nat, ghost sh: map<QTrie, Tree>) returns (t: QTrie)
      requires this in sh && Laid(sh) && Graph(sh) && Clubbed(directory, sh)
      requires i < |sh[this].kids| && ChildrenMerged(directory.clubs, sh, i, i)
      modifies Below(sh, path)`children
      ensures Graph(sh) && ChildrenMerged(directory.clubs, sh, i + 1, i)
      ensures IsLeader(directory.clubs, sh, t) && sh[t] == sh[this].kids[i].sub
      decreases sh[this], 0
    {
      assert Sorted(sh[this]) && Stands(sh) && ChildUntouched(sh, i);
      BelowChild(sh, path, sh[this].kids, i);
      OtherChildren(sh, path, sh[this].kids, i);
      assert this !in Below(sh, path + [sh[this].kids[i].letter]);
      t := children[i].p.ClubLeader(directory, sh);
      forall j | i < j < |children| ensures ChildUntouched(sh, j) {
        assert old(ChildUntouched(sh, j));
      }
    }

    method RelinkChild(directory: TrieClubDirectory, i: nat, ghost sh: map<QTrie, Tree>)
      requires this in sh && Laid(sh) && Graph(sh) && Clubbed(directory, sh)
      requires i < |sh[this].kids| && ChildrenMerged(directory.clubs, sh, i, i)
      modifies Below(sh, path)`children
      ensures Graph(sh) && ChildrenMerged(directory.clubs, sh, i + 1, i + 1)
      decreases sh[this], 1
    {
      var t := MergeChild(directory, i, sh);
      SetChild(i, t, directory.clubs, sh);
    }

    method MergeChildren(directory: TrieClubDirectory, ghost sh: map<QTrie, Tree>)
      requires this in sh && Laid(sh) && Graph(sh) && TreeBelow(sh, path) && Clubbed(directory, sh)
      modifies Below(sh, path)`children
      ensures Graph(sh) && ChildrenMerged(directory.clubs, sh, |sh[this].kids|, |sh[this].kids|)
      decreases sh[this], 2
    {
      assert Stands(sh);
      TreesBelow(sh);
      for i := 0 to |children|
        invariant |children| == |sh[this].kids|
        invariant Graph(sh) && ChildrenMerged(directory.clubs, sh, i, i)
      {
        RelinkChild(directory, i, sh);
      }
    }

    /** The leader of a leaf, which has nothing below it. */
    method LeafLeader(directory: TrieClubDirectory, ghost sh: map<QTrie, Tree>) returns (l: QTrie)
      requires this in sh && Laid(sh) && Graph(sh) && Clubbed(directory, sh) && key == 0 && sh[this].kids == []
      ensures forall n :: n in Below(sh, path) ==> n.Canonical(directory.clubs, sh)
      ensures IsLeader(directory.clubs, sh, l) && sh[l] == sh[this]
    {
      assert Stands(sh);
      l := directory.clubs[0][0];
      KeyZeroIsLeaf(sh[l]);
      assert FirstAt(directory.clubs[0], sh, 0, l);
      LeafAlone(sh, this);
    }

    method FindInClub(directory: TrieClubDirectory, ghost sh: map<QTrie, Tree>) returns (l: QTrie)
      requires this in sh && Graph(sh) && Clubbed(directory, sh)
      ensures IsLeader(directory.clubs, sh, l) && sh[l] == sh[this]
    {
      var club := directory.clubs[key];
      l := this;
      ghost var at := 0;
      for i := 0 to |club|
        invariant forall j :: 0 <= j < i ==> sh[club[j]] != sh[this]
      {
        var same := club[i].Equal(this, sh);
        if same {
          l, at := club[i], i;
          break;
        }
      }
      assert FirstAt(directory.clubs[KeyOf(sh[l])], sh, at, l);
    }

    /** Merges equal subtrees below this node and returns the node to use in its place. */
    method ClubLeader(directory: TrieClubDirectory, ghost sh: map<QTrie, Tree>) returns (l: QTrie)
      requires this in sh && Laid(sh) && Graph(sh) && TreeBelow(sh, path) && Clubbed(directory, sh)
      modifies Below(sh, path)`children
      ensures Graph(sh)
      ensures forall n :: n in Below(sh, path) ==> n.Canonical(directory.clubs, sh)
      ensures IsLeader(directory.clubs, sh, l) && sh[l] == sh[this]
      decreases sh[this], 3
    {
      KeyZeroIsLeaf(sh[this]);
      if key == 0 {
        l := LeafLeader(directory, sh);
        return;
      }
      AllBelow(sh, this);
      MergeChildren(directory, sh);
      AllCanonical(directory.clubs, sh);
      l := FindInClub(directory, sh);
    }

    /** This node's own key. */
    method CollectOwn(ghost G: set<QTrie>, ghost sh: map<QTrie, Tree>, ghost live: set<Tree>)
      returns (n: int, ghost live': set<Tree>)
      requires this in G && Merged(G, sh) && LiveKeys(G, sh, live)
      modifies G`key
      ensures live' == live - SubtreesUpTo(sh[this], 0) && LiveKeys(G, sh, live')
      ensures n == KidCount(live * SubtreesUpTo(sh[this], 0))
    {
      assert Stands(sh);
      n, live' := 0, live - {sh[this]};
      assert forall m :: m in G && SameTree(m, this, sh) ==> m == this;
      if key != 0 {
        key := 0;
        n := |children|;
      }
      CountOwn(live, sh[this]);
    }

    /** The body of the loop over the children. */
    method CollectChild(ghost G: set<QTrie>, ghost sh: map<QTrie, Tree>, ghost live: set<Tree>,
                        ghost before: set<Tree>, i: nat, n: int)
      returns (n': int, ghost live': set<Tree>)
      requires this in G && Merged(G, sh) && i < |children|
      requires before == live - SubtreesUpTo(sh[this], i) && LiveKeys(G, sh, before)
      requires n == KidCount(live * SubtreesUpTo(sh[this], i))
      modifies G`key
      ensures i < |sh[this].kids| && live' == live - SubtreesUpTo(sh[this], i + 1) && LiveKeys(G, sh, live')
      ensures n' == KidCount(live * SubtreesUpTo(sh[this], i + 1))
      decreases sh[this], 0
    {
      assert Stands(sh);
      var m;
      m, live' := children[i].p.CollectKeys(G, sh, before);
      n' := n + m;
      CountChild(live, before, sh[this], i);
    }

    /** Clears the keys of the merged graph from here on and counts the packed
        nodes it needs, every shared node once. */
    method CollectKeys(ghost G: set<QTrie>, ghost sh: map<QTrie, Tree>, ghost live: set<Tree>)
      returns (n: int, ghost live': set<Tree>)
      requires this in G && Merged(G, sh) && LiveKeys(G, sh, live)
      modifies G`key
      ensures live' == live - Subtrees(sh[this]) && LiveKeys(G, sh, live')
      ensures n == KidCount(live * Subtrees(sh[this]))
      decreases sh[this], 1
    {
      assert Stands(sh);
      n, live' := CollectOwn(G, sh, live);
      for i := 0 to |children|
        invariant live' == live - SubtreesUpTo(sh[this], i) && LiveKeys(G, sh, live')
        invariant n == KidCount(live * SubtreesUpTo(sh[this], i))
      {
        n, live' := CollectChild(G, sh, live, live', i, n);
      }
    }
  }
}
