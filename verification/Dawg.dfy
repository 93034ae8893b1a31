/** QDawg: built from a word list through trie, merged graph and packed array;
    then asked for words, counted and listed. */
module Dawgs {
  import opened WordTrees
  import opened WordLists
  import opened Tries
  import opened Packing
  import opened StoredWords

  /** Packed nodes needed for a word list: the children of every distinct subtree. */
  ghost function PackedSize(words: seq<Word>): nat {
    KidCount(NonLeaf(Subtrees(InsertAll(EMPTY, words))))
  }

  /** The jumps between the blocks of the list's graph fit the bit field. */
  ghost predicate AllJumpsFit(list: seq<Word>) {
    Linked(Places(InsertAll(EMPTY, list)))
  }

  lemma SmallListsFit(list: seq<Word>)
    requires PackedSize(list) <= MAX_NODES
    ensures AllJumpsFit(list)
  {
    SmallLinked(InsertAll(EMPTY, list));
  }

  lemma InsertNext(list: seq<Word>, i: nat)
    requires i < |list|
    ensures InsertAll(EMPTY, list[..i + 1]) == Insert(InsertAll(EMPTY, list[..i]), list[i])
  {
    assert list[..i + 1][..i] == list[..i];
  }

  /** Inserting a word at the root. */
  method InsertTop(t: QTrie, w: Word, ghost S: set<QTrie>, ghost T: Tree) returns (ghost S': set<QTrie>)
    requires t in S && t.path == [] && TrieOf(S, T)
    modifies S
    ensures S <= S' && fresh(S' - S) && TrieOf(S', Insert(T, w))
  {
    assert w[0..] == w;
    S' := t.InsertWord(w, 0, S, T);
  }

  method BuildTrie(list: seq<Word>) returns (t: QTrie, ghost S: set<QTrie>)
    ensures fresh(S) && t in S && t.path == [] && TrieOf(S, InsertAll(EMPTY, list))
  {
    t := new QTrie([]);
    S := {t};
    ghost var T := EMPTY;
    for i := 0 to |list|
      invariant fresh(S) && t in S && t.path == [] && T == InsertAll(EMPTY, list[..i]) && TrieOf(S, T)
    {
      S := InsertTop(t, list[i], S, T);
      InsertNext(list, i);
      T := Insert(T, list[i]);
    }
    assert list[..|list|] == list;
  }

  /** Every node stands for what the tree has at its path. */
  ghost predicate Spelled(sh: map<QTrie, Tree>, T: Tree) {
    forall n {:trigger OnPath(sh, T, n)} :: n in sh ==> OnPath(sh, T, n)
  }

  ghost predicate OnPath(sh: map<QTrie, Tree>, T: Tree, n: QTrie)
    requires n in sh
  {
    HasPath(T, n.path) && sh[n] == At(T, n.path)
  }

  lemma EverythingBelowRoot(sh: map<QTrie, Tree>)
    ensures Below(sh, []) == sh.Keys
  {
  }

  method KeyTrie(t: QTrie, ghost links: map<QTrie, seq<TriePtr>>, ghost sh: map<QTrie, Tree>)
    returns (directory: TrieClubDirectory)
    requires t in sh && t.path == [] && Laid(sh) && Holds(links) && LinkTree(links, sh)
    requires Graph(sh) && TreeBelow(sh, [])
    requires forall n :: n in sh && sh[n].kids == [] ==> sh[n].isword
    modifies sh.Keys`key, sh.Keys`maxdepth, sh.Keys`decendants
    ensures fresh(directory) && Clubbed(directory, sh) && Graph(sh) && TreeBelow(sh, [])
  {
    directory := new TrieClubDirectory();
    EverythingBelowRoot(sh);
    t.DistributeKeys(directory, links, sh);
  }

  /** Only the root stands for the whole tree. */
  lemma RootLeads(t: QTrie, l: QTrie, T: Tree, sh: map<QTrie, Tree>)
    requires Laid(sh) && t in sh && l in sh && t.path == []
    requires HasPath(T, l.path) && sh[l] == At(T, l.path) && sh[l] == T
    ensures l == t
  {
    AtSize(T, l.path);
    assert SamePlace(t, l);
  }

  /** The leader of the root is the root. */
  method LeadRoot(t: QTrie, directory: TrieClubDirectory, ghost sh: map<QTrie, Tree>, ghost T: Tree)
    requires t in sh && t.path == [] && sh[t] == T
    requires Laid(sh) && Graph(sh) && TreeBelow(sh, []) && Clubbed(directory, sh)
    requires Spelled(sh, T)
    modifies sh.Keys`children
    ensures Graph(sh) && IsLeader(directory.clubs, sh, t)
    ensures forall n :: n in sh ==> n.Canonical(directory.clubs, sh)
  {
    EverythingBelowRoot(sh);
    var l := t.ClubLeader(directory, sh);
    assert OnPath(sh, T, l);
    RootLeads(t, l, T, sh);
  }

  /** Keys, clubs and leaders of a laid trie. */
  method LeadTrie(t: QTrie, ghost links: map<QTrie, seq<TriePtr>>, ghost sh: map<QTrie, Tree>, ghost T: Tree)
    returns (ghost clubs: map<int, seq<QTrie>>)
    requires t in sh && t.path == [] && sh[t] == T
    requires Laid(sh) && Graph(sh) && TreeBelow(sh, []) && Holds(links) && LinkTree(links, sh)
    requires Spelled(sh, T)
    requires forall n :: n in sh && sh[n].kids == [] ==> sh[n].isword
    modifies sh.Keys
    ensures Graph(sh) && IsLeader(clubs, sh, t)
    ensures forall n :: n in sh ==> n.Canonical(clubs, sh) && n.key == KeyOf(sh[n])
  {
    var directory := KeyTrie(t, links, sh);
    LeadRoot(t, directory, sh, T);
    clubs := directory.clubs;
  }

  ghost function Leaders(clubs: map<int, seq<QTrie>>, sh: map<QTrie, Tree>): set<QTrie> {
    set n | n in sh && IsLeader(clubs, sh, n)
  }

  lemma LeadersMerged(clubs: map<int, seq<QTrie>>, sh: map<QTrie, Tree>)
    requires Graph(sh) && forall n :: n in sh ==> n.Canonical(clubs, sh)
    ensures Merged(Leaders(clubs, sh), sh)
  {
    var G := Leaders(clubs, sh);
    forall m, n | m in G && n in G && SameTree(m, n, sh) ensures m == n {
      LeaderUnique(clubs, sh, m, n);
    }
    forall n, i | n in G && 0 <= i < |n.children| ensures n.children[i].p in G {
      assert n.children[i] in n.children;
    }
  }

  lemma LeadersLive(clubs: map<int, seq<QTrie>>, sh: map<QTrie, Tree>, T: Tree)
    requires forall n :: n in sh ==> n.key == KeyOf(sh[n]) && sh[n] in Subtrees(T)
    ensures LiveKeys(Leaders(clubs, sh), sh, NonLeaf(Subtrees(T)))
  {
    forall n | n in sh ensures n.key != 0 <==> sh[n] in NonLeaf(Subtrees(T)) {
      KeyZeroIsLeaf(sh[n]);
    }
  }

  /** Merging equal subtrees: the root stays its own leader, the leaders form a
      graph with one node per tree, and the packed size is still to be counted. */
  method MergeTrie(t: QTrie, ghost S: set<QTrie>, ghost T: Tree)
    returns (ghost G: set<QTrie>, ghost sh: map<QTrie, Tree>)
    requires t in S && t.path == [] && TrieOf(S, T) && Trim(T) && (T.kids == [] ==> T.isword)
    modifies S
    ensures G <= S && t in G && Merged(G, sh) && sh[t] == T && LiveKeys(G, sh, NonLeaf(Subtrees(T)))
    ensures forall n :: n in G ==> sh[n] == At(T, n.path)
  {
    ghost var links;
    sh, links := TrieIsLaid(S, T);
    ghost var clubs := LeadTrie(t, links, sh, T);
    G := Leaders(clubs, sh);
    LeadersMerged(clubs, sh);
    LeadersLive(clubs, sh, T);
  }

  /** Minimality: nodes of the merged graph with the same suffixes are the same node. */
  lemma MergedIsMinimal(G: set<QTrie>, sh: map<QTrie, Tree>, T: Tree, m: QTrie, n: QTrie)
    requires Merged(G, sh) && Sorted(T) && Trim(T) && m in G && n in G
    requires HasPath(T, m.path) && HasPath(T, n.path) && sh[m] == At(T, m.path) && sh[n] == At(T, n.path)
    requires SameLanguage(sh[m], sh[n])
    ensures m == n
  {
    AtSorted(T, m.path);
    AtSorted(T, n.path);
    AtTrim(T, m.path);
    AtTrim(T, n.path);
    LanguageDeterminesTree(sh[m], sh[n]);
    assert SameTree(m, n, sh);
  }

  method PackGraph(t: QTrie, ghost G: set<QTrie>, ghost sh: map<QTrie, Tree>) returns (p: QDawgPrivate)
    requires t in G && Merged(G, sh) && LiveKeys(G, sh, NonLeaf(Subtrees(sh[t])))
    modifies G`key
    ensures fresh(p) && fresh(p.node) && p.Valid(sh[t])
    ensures p.node.Length == KidCount(NonLeaf(Subtrees(sh[t])))
  {
    p := new QDawgPrivate();
    p.GenerateArray(t, G, sh);
  }

  method PackTrie(t: QTrie, ghost S: set<QTrie>, ghost T: Tree) returns (p: QDawgPrivate)
    requires t in S && t.path == [] && TrieOf(S, T) && Trim(T) && (T.kids == [] ==> T.isword)
    modifies S
    ensures fresh(p) && fresh(p.node) && p.Valid(T) && p.node.Length == KidCount(NonLeaf(Subtrees(T)))
  {
    ghost var G, sh;
    G, sh := MergeTrie(t, S, T);
    p := PackGraph(t, G, sh);
  }

  /** Trie, merging and packing of a non-empty list. */
  method PackWords(list: seq<Word>, ghost T: Tree) returns (p: QDawgPrivate)
    requires list != [] && T == InsertAll(EMPTY, list)
    ensures fresh(p) && fresh(p.node) && p.Valid(T) && p.node.Length == KidCount(NonLeaf(Subtrees(T)))
  {
    InsertAllAccepts(list);
    var t;
    ghost var S;
    t, S := BuildTrie(list);
    p := PackTrie(t, S, T);
  }

  /** No packed nodes are needed exactly for a tree without children. */
  lemma PackedSizeZero(t: Tree)
    ensures KidCount(NonLeaf(Subtrees(t))) == 0 <==> t.kids == []
  {
    SubtreesDescend(t, |t.kids|);
    if t.kids == [] {
      assert NonLeaf(Subtrees(t)) == {};
    } else {
      KidCountRemove(NonLeaf(Subtrees(t)), t);
    }
  }

  /** w is how a non-empty word of t is read. */
  ghost predicate Reads(t: Tree, w: Word) {
    exists v: Word :: v != [] && Accepts(t, v) && StoreWord(v) == w
  }

  lemma ReadsNarrow(t: Tree, w: Word)
    requires Narrow(t)
    ensures Reads(t, w) <==> w != [] && Accepts(t, w)
  {
    if Reads(t, w) {
      var v: Word :| v != [] && Accepts(t, v) && StoreWord(v) == w;
      AcceptedNarrow(t, v);
      StoredNarrow(v);
    }
    if w != [] && Accepts(t, w) {
      AcceptedNarrow(t, w);
      StoredNarrow(w);
    }
  }

  lemma ReadsListed(t: Tree, w: Word)
    ensures w in StoreAll(AllWords(t)) <==> Reads(t, w)
  {
    StoreAllMember(AllWords(t), w);
    if Reads(t, w) {
      var v: Word :| v != [] && Accepts(t, v) && StoreWord(v) == w;
      WordListed(t, v);
    }
    if v :| v in AllWords(t) && StoreWord(v) == w {
      WordListed(t, v);
    }
  }

  /** Rebuilding from what is listed of t, if there was a graph, and more words. */
  lemma RebuiltAccepts(had: bool, t: Tree, all: seq<Word>, words: seq<Word>, w: Word)
    requires all == (if had then StoreAll(AllWords(t)) else []) && w != []
    ensures Accepts(InsertAll(EMPTY, all + words), w) <==> (had && Reads(t, w)) || w in words
    ensures Narrow(t) ==> (Reads(t, w) <==> Accepts(t, w))
  {
    InsertAllAccepts(all + words);
    ReadsListed(t, w);
    if Narrow(t) {
      ReadsNarrow(t, w);
    }
  }

  class QDawg {
    var d: QDawgPrivate?
    ghost var top: Tree

    ghost predicate Valid()
      reads this, d, if d != null then {d.node} else {}
    {
      d != null ==> d.Valid(top) && Sorted(top)
    }

    constructor ()
      ensures Valid() && d == null
    {
      d := null;
      top := EMPTY;
    }

    method CreateFromWords(list: seq<Word>)
      modifies this
      ensures Valid() && top == InsertAll(EMPTY, list)
      ensures d == null <==> list == []
      ensures d != null ==> fresh(d) && fresh(d.node) && d.node.Length == PackedSize(list)
      ensures d != null ==> (d.node.Length == 0 <==> NoLetters(list))
      ensures d != null ==> (Linked(d.place) <==> AllJumpsFit(list)) && (d.overflow ==> PackedSize(list) > MAX_NODES)
    {
      top := InsertAll(EMPTY, list);
      InsertAllAccepts(list);
      if |list| == 0 {
        d := null;
        return;
      }
      d := PackWords(list, top);
      PackedSizeZero(top);
    }

    /** Is s in the graph? The packed array must not be empty. */
    method Contains(s: Word) returns (b: bool)
      requires Valid() && (d != null ==> 0 < d.node.Length && Linked(d.place))
      ensures b <==> d != null && Finds(top, s)
      ensures d != null && s != [] && NarrowWord(s) && Accepts(top, s) ==> b
      ensures d != null && Narrow(top) ==> (b <==> s != [] && Accepts(top, s))
      ensures !NarrowWord(s) ==> !b
    {
      if d == null { return false; }
      PackedSizeZero(top);
      b := d.Contains(s, 0, 0, top, top);
      assert s[0..] == s;
    }

    method CountWords() returns (n: int)
      requires Valid() && (d != null ==> 0 < d.node.Length && Linked(d.place))
      ensures n == if d == null then 0 else CountUpTo(top, |top.kids|)
    {
      if d == null { return 0; }
      PackedSizeZero(top);
      n := d.CountWords(0, top, top);
    }

    method AllWords() returns (r: seq<Word>)
      requires Valid() && (d != null ==> 0 < d.node.Length && Linked(d.place))
      ensures r == if d == null then [] else StoreAll(WordLists.AllWords(top))
    {
      if d == null { return []; }
      PackedSizeZero(top);
      r := d.AppendAllWords([], 0, [], [], top, top);
      assert [] + StoreAll(WordLists.AllWords(top)) == StoreAll(WordLists.AllWords(top));
    }

    /** Adding words rebuilds the graph from its own words, as they are read, and the new ones. */
    method AddWords(words: seq<Word>)
      requires Valid() && (d != null ==> 0 < d.node.Length && Linked(d.place))
      modifies this
      ensures Valid()
      ensures forall w: Word :: w != [] ==>
                (Accepts(top, w) <==> (old(d) != null && Reads(old(top), w)) || w in words)
      ensures old(Narrow(top)) ==> forall w: Word :: w != [] ==>
                (Accepts(top, w) <==> (old(d) != null && Accepts(old(top), w)) || w in words)
    {
      var all := AllWords();
      ghost var t := top;
      CreateFromWords(all + words);
      forall w: Word | w != []
        ensures Accepts(top, w) <==> (old(d) != null && Reads(t, w)) || w in words
        ensures Narrow(t) ==> (Reads(t, w) <==> Accepts(t, w))
      {
        RebuiltAccepts(old(d) != null, t, all, words, w);
      }
    }
  }

  /** The whole pipeline: build from a list, then look a word up. What is found lies between
      the narrow words of the list and the readings of all its words; it is the list for every
      word asked for exactly if all its words are narrow (AnswersRightIff). */
  method LookUp(list: seq<Word>, s: Word) returns (b: bool)
    requires !NoLetters(list) && AllJumpsFit(list)
    ensures b <==> Finds(InsertAll(EMPTY, list), s)
    ensures s != [] && s in list && NarrowWord(s) ==> b
    ensures b ==> NarrowWord(s) && exists w :: w in list && StoreWord(w) == s
    ensures AllNarrow(list) ==> (b <==> s != [] && s in list)
  {
    var q := new QDawg();
    q.CreateFromWords(list);
    InsertAllAccepts(list);
    NarrowIffWords(list);
    b := q.Contains(s);
    FindsBounds(q.top, s);
  }

  /** Count and listing of a graph built from a list: every word of the list once, as it is
      read. */
  method Listing(list: seq<Word>) returns (n: int, words: seq<Word>)
    requires !NoLetters(list) && AllJumpsFit(list)
    ensures n == |words| && words == StoreAll(WordLists.AllWords(InsertAll(EMPTY, list)))
    ensures forall w :: w in words <==> exists v :: v in list && v != [] && StoreWord(v) == w
    ensures (forall w :: w in words <==> w != [] && w in list) <==> AllNarrow(list)
    ensures AllNarrow(list) ==> StrictlyIncreasing(words)
  {
    var q := new QDawg();
    q.CreateFromWords(list);
    AllWordsOfList(list);
    ListedReadings(list);
    n := q.CountWords();
    words := q.AllWords();
  }
}
