/** Letters in the 12 bits of a packed node: what is read of a tree whose letters were
    stored so, right or wrong. */
module StoredWords {
  import opened WordTrees
  import opened WordLists

  type Bits12 = x: int | 0 <= x < 0x1000

  function Store12(c: Letter): Bits12 { c % 0x1000 }

  /** A word as it is read back. */
  function StoreWord(w: Word): (r: Word)
    ensures |r| == |w| && forall k :: 0 <= k < |w| ==> r[k] == Store12(w[k])
  {
    seq(|w|, k requires 0 <= k < |w| => Store12(w[k]))
  }

  function StoreAll(ws: seq<Word>): (r: seq<Word>)
    ensures |r| == |ws| && forall k :: 0 <= k < |ws| ==> r[k] == StoreWord(ws[k])
  {
    seq(|ws|, k requires 0 <= k < |ws| => StoreWord(ws[k]))
  }

  lemma StoredNarrow(w: Word)
    ensures NarrowWord(StoreWord(w))
    ensures StoreWord(w) == w <==> NarrowWord(w)
  {
    if NarrowWord(w) {
      assert forall k :: 0 <= k < |w| ==> StoreWord(w)[k] == w[k];
    }
  }

  lemma StoreTail(w: Word)
    requires w != []
    ensures StoreWord(w)[1..] == StoreWord(w[1..])
  {
  }

  lemma StoreSnoc(w: Word, c: Letter)
    ensures StoreWord(w + [c]) == StoreWord(w) + [Store12(c)]
  {
  }

  lemma StoreConcat(a: seq<Word>, b: seq<Word>)
    ensures StoreAll(a + b) == StoreAll(a) + StoreAll(b)
  {
  }

  lemma StoreAllMember(ws: seq<Word>, w: Word)
    ensures w in StoreAll(ws) <==> exists v :: v in ws && StoreWord(v) == w
  {
    if w in StoreAll(ws) {
      var k :| 0 <= k < |ws| && StoreAll(ws)[k] == w;
      assert ws[k] in ws && StoreWord(ws[k]) == w;
    }
    if v :| v in ws && StoreWord(v) == w {
      var k :| 0 <= k < |ws| && ws[k] == v;
      assert StoreAll(ws)[k] == w;
    }
  }

  lemma StoreAllNarrow(ws: seq<Word>)
    requires forall w :: w in ws ==> NarrowWord(w)
    ensures StoreAll(ws) == ws
  {
    forall k | 0 <= k < |ws|
      ensures StoreAll(ws)[k] == ws[k]
    {
      assert ws[k] in ws;
      StoredNarrow(ws[k]);
    }
  }

  // ---------- looking up ----------

  /** The answer of the walk from child i on: the first child whose stored letter is that of
      the word and that has children or ends the word decides. */
  predicate Walk(t: Tree, i: nat, s: Word)
    requires i <= |t.kids| && s != []
    decreases t, |t.kids| - i
  {
    if i == |t.kids| then false
    else
      var e := t.kids[i];
      if Store12(e.letter) != s[0] then Walk(t, i + 1, s)
      else if e.sub.isword && |s| == 1 then true
      else if e.sub.kids != [] then |s| > 1 && Walk(e.sub, 0, s[1..])
      else Walk(t, i + 1, s)
  }

  /** Is s found in the packed graph of t? */
  predicate Finds(t: Tree, s: Word) { s != [] && Walk(t, 0, s) }

  /** w is accepted through child i or a later one. */
  ghost predicate AcceptsFrom(t: Tree, i: nat, w: Word) {
    w != [] && exists j :: i <= j < |t.kids| && t.kids[j].letter == w[0] && Accepts(t.kids[j].sub, w[1..])
  }

  /** Whatever is found is how some word of the tree is read. */
  lemma {:induction false} WalkReads(t: Tree, i: nat, s: Word) returns (w: Word)
    requires i <= |t.kids| && s != [] && Walk(t, i, s)
    ensures Accepts(t, w) && StoreWord(w) == s
    decreases t, |t.kids| - i
  {
    var e := t.kids[i];
    if Store12(e.letter) == s[0] && e.sub.isword && |s| == 1 {
      w := [e.letter];
      assert w[1..] == [];
    } else if Store12(e.letter) == s[0] && e.sub.kids != [] {
      var v := WalkReads(e.sub, 0, s[1..]);
      w := [e.letter] + v;
      assert w[1..] == v;
      assert s == [s[0]] + s[1..];
    } else {
      w := WalkReads(t, i + 1, s);
    }
  }

  lemma WalkPasses(t: Tree, i: nat, s: Word)
    requires i < |t.kids| && s != [] && t.kids[i].letter < s[0] < 0x1000
    ensures Walk(t, i, s) == Walk(t, i + 1, s)
  {
    assert Store12(t.kids[i].letter) != s[0];
  }

  lemma WalkEnters(t: Tree, i: nat, s: Word)
    requires i < |t.kids| && s != [] && t.kids[i].letter == s[0] < 0x1000
    ensures |s| == 1 && t.kids[i].sub.isword ==> Walk(t, i, s)
    ensures |s| > 1 && t.kids[i].sub.kids != [] ==> Walk(t, i, s) == Walk(t.kids[i].sub, 0, s[1..])
  {
    assert Store12(t.kids[i].letter) == s[0];
  }

  /** No narrow word is lost: of the children read as its letter its own comes first, as the
      letters read wrong are greater. */
  lemma {:induction false} WalkKeeps(t: Tree, i: nat, s: Word)
    requires Sorted(t) && i <= |t.kids| && NarrowWord(s) && AcceptsFrom(t, i, s)
    ensures Walk(t, i, s)
    decreases t, |t.kids| - i
  {
    var j :| i <= j < |t.kids| && t.kids[j].letter == s[0] && Accepts(t.kids[j].sub, s[1..]);
    if i < j {
      assert t.kids[i].letter < t.kids[j].letter;
      WalkPasses(t, i, s);
      WalkKeeps(t, i + 1, s);
    } else {
      WalkEnters(t, i, s);
      if |s| > 1 {
        assert NarrowWord(s[1..]);
        WalkKeeps(t.kids[i].sub, 0, s[1..]);
      }
    }
  }

  /** What is found lies between the narrow words of the tree and the readings of all. */
  lemma FindsBounds(t: Tree, s: Word)
    requires Sorted(t)
    ensures s != [] && NarrowWord(s) && Accepts(t, s) ==> Finds(t, s)
    ensures Finds(t, s) ==> NarrowWord(s) && exists w :: Accepts(t, w) && StoreWord(w) == s
  {
    if s != [] && NarrowWord(s) && Accepts(t, s) {
      WalkKeeps(t, 0, s);
    }
    if Finds(t, s) {
      var w := WalkReads(t, 0, s);
      StoredNarrow(w);
    }
  }

  lemma FindsNarrow(t: Tree, s: Word)
    requires Sorted(t) && Narrow(t)
    ensures Finds(t, s) <==> s != [] && Accepts(t, s)
  {
    FindsBounds(t, s);
    if s != [] && Accepts(t, s) {
      AcceptedNarrow(t, s);
    }
    if Finds(t, s) {
      var w :| Accepts(t, w) && StoreWord(w) == s;
      AcceptedNarrow(t, w);
      StoredNarrow(w);
    }
  }

  lemma WideNotFound(t: Tree, s: Word)
    requires exists k :: 0 <= k < |s| && 0x1000 <= s[k]
    ensures !Finds(t, s)
  {
    if Finds(t, s) {
      var w := WalkReads(t, 0, s);
      StoredNarrow(w);
    }
  }

  /** What the answer for the rest of a word means. */
  lemma FindsRest(t: Tree, s: Word, index: nat)
    requires index < |s|
    ensures Sorted(t) && NarrowWord(s[index..]) && Accepts(t, s[index..]) ==> Finds(t, s[index..])
    ensures Sorted(t) && Narrow(t) ==> (Finds(t, s[index..]) <==> Accepts(t, s[index..]))
    ensures (exists k :: index <= k < |s| && 0x1000 <= s[k]) ==> !Finds(t, s[index..])
  {
    if Sorted(t) {
      FindsBounds(t, s[index..]);
      if Narrow(t) {
        FindsNarrow(t, s[index..]);
      }
    }
    if k :| index <= k < |s| && 0x1000 <= s[k] {
      assert s[index..][k - index] == s[k];
      WideNotFound(t, s[index..]);
    }
  }

  /** Every answer is right exactly if every word of the list is narrow. */
  lemma AnswersRightIff(words: seq<Word>)
    ensures (forall s: Word :: Finds(InsertAll(EMPTY, words), s) <==> s != [] && s in words) <==> AllNarrow(words)
  {
    var t := InsertAll(EMPTY, words);
    InsertAllAccepts(words);
    NarrowIffWords(words);
    if AllNarrow(words) {
      forall s: Word
        ensures Finds(t, s) <==> s != [] && s in words
      {
        FindsNarrow(t, s);
      }
    } else {
      var i :| 0 <= i < |words| && !NarrowWord(words[i]);
      assert words[i] in words;
      FindsBounds(t, words[i]);
    }
  }

  lemma InsertFirst(w: Word)
    requires w != []
    ensures var t := Insert(EMPTY, w); !t.isword && t.kids == [Edge(w[0], Insert(EMPTY, w[1..]))]
  {
  }

  lemma OneChild(t: Tree, c: Letter, sub: Tree, s: Word)
    requires t.kids == [Edge(c, sub)] && s != []
    ensures Walk(t, 0, s)
            <==> s[0] == Store12(c) && (if |s| == 1 then sub.isword else sub.kids != [] && Walk(sub, 0, s[1..]))
  {
    assert !Walk(t, 1, s);
  }

  lemma SameReading(w: Word, s: Word)
    requires w != [] && s != []
    ensures s == StoreWord(w) <==> s[0] == Store12(w[0]) && s[1..] == StoreWord(w[1..])
  {
    StoreTail(w);
    assert s == [s[0]] + s[1..] && StoreWord(w) == [StoreWord(w)[0]] + StoreWord(w)[1..];
  }

  /** Of a single word exactly its reading is found, so a wide word makes a word found that
      is not in the list. */
  lemma {:induction false} SingleWord(w: Word, s: Word)
    requires w != []
    ensures Finds(Insert(EMPTY, w), s) <==> s == StoreWord(w)
  {
    InsertFirst(w);
    if s == [] {
    } else {
      SameReading(w, s);
      OneChild(Insert(EMPTY, w), w[0], Insert(EMPTY, w[1..]), s);
      if |w| > 1 {
        InsertFirst(w[1..]);
        SingleWord(w[1..], s[1..]);
      }
    }
  }

  /** Both ways to be wrong at once: in the graph of the one word U+1061 that word is not
      found, but "a" is. */
  lemma WideExample()
    ensures var list: seq<Word> := [[0x1061]];
      && Finds(InsertAll(EMPTY, list), [0x61]) && [0x61] !in list
      && !Finds(InsertAll(EMPTY, list), [0x1061]) && [0x1061] in list
  {
    var w: Word := [0x1061];
    assert [w][..0] == [];
    assert InsertAll(EMPTY, [w]) == Insert(InsertAll(EMPTY, []), w);
    assert StoreWord(w) == [0x61];
    SingleWord(w, [0x61]);
    SingleWord(w, w);
  }

  // ---------- listing ----------

  /** The listing holds the readings of the words of the list, and so exactly the words
      themselves if and only if all are narrow. */
  lemma ListedReadings(words: seq<Word>)
    ensures var r := StoreAll(AllWords(InsertAll(EMPTY, words)));
      && (forall w :: w in r <==> exists v :: v in words && v != [] && StoreWord(v) == w)
      && ((forall w :: w in r <==> w != [] && w in words) <==> AllNarrow(words))
      && (AllNarrow(words) ==> StrictlyIncreasing(r))
  {
    var ws := AllWords(InsertAll(EMPTY, words));
    var r := StoreAll(ws);
    AllWordsOfList(words);
    forall w
      ensures w in r <==> exists v :: v in words && v != [] && StoreWord(v) == w
    {
      StoreAllMember(ws, w);
    }
    if AllNarrow(words) {
      StoreAllNarrow(ws);
    } else {
      var i :| 0 <= i < |words| && !NarrowWord(words[i]);
      assert words[i] in words && words[i] !in r;
    }
  }
}
