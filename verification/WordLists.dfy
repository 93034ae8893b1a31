/** The words of a tree, listed in the order the packed graph is walked. */
module WordLists {
  import opened WordTrees

  /** Lexicographic order by letter code; a proper prefix comes first. */
  ghost predicate Less(a: Word, b: Word) {
    b != [] && (a == [] || a[0] < b[0] || (a[0] == b[0] && Less(a[1..], b[1..])))
  }

  ghost predicate StrictlyIncreasing(ws: seq<Word>) {
    forall i, j :: 0 <= i < j < |ws| ==> Less(ws[i], ws[j])
  }

  /** The words below t through its first i children, each prefixed with p. */
  function WordsUpTo(t: Tree, i: nat, p: Word): seq<Word>
    requires i <= |t.kids|
    decreases t, i
  {
    if i == 0 then []
    else
      var c, sub := t.kids[i - 1].letter, t.kids[i - 1].sub;
      WordsUpTo(t, i - 1, p) + (if sub.isword then [p + [c]] else []) + WordsUpTo(sub, |sub.kids|, p + [c])
  }

  function CountUpTo(t: Tree, i: nat): nat
    requires i <= |t.kids|
    decreases t, i
  {
    if i == 0 then 0
    else
      var sub := t.kids[i - 1].sub;
      CountUpTo(t, i - 1) + (if sub.isword then 1 else 0) + CountUpTo(sub, |sub.kids|)
  }

  lemma {:induction false} CountIsLength(t: Tree, i: nat, p: Word)
    requires i <= |t.kids|
    ensures |WordsUpTo(t, i, p)| == CountUpTo(t, i)
    decreases t, i
  {
    if i == 0 {
    } else {
      var sub := t.kids[i - 1].sub;
      CountIsLength(t, i - 1, p);
      CountIsLength(sub, |sub.kids|, p + [t.kids[i - 1].letter]);
    }
  }

  /** w is p followed by a non-empty word through one of the first i children. */
  ghost predicate Spelled(t: Tree, i: nat, p: Word, w: Word)
    requires i <= |t.kids|
  {
    && p < w
    && exists j :: 0 <= j < i && t.kids[j].letter == w[|p|] && Accepts(t.kids[j].sub, w[|p| + 1..])
  }

  /** Exactly the accepted words are listed. */
  lemma {:induction false} Listed(t: Tree, i: nat, p: Word, w: Word)
    requires i <= |t.kids|
    ensures w in WordsUpTo(t, i, p) <==> Spelled(t, i, p, w)
    decreases t, i
  {
    if i == 0 {
    } else {
      var c, sub := t.kids[i - 1].letter, t.kids[i - 1].sub;
      Listed(t, i - 1, p, w);
      Listed(sub, |sub.kids|, p + [c], w);
      SpelledBelow(sub, p, c, w);
      assert Spelled(t, i, p, w) <==>
        Spelled(t, i - 1, p, w) || (p < w && c == w[|p|] && Accepts(sub, w[|p| + 1..]));
    }
  }

  lemma SpelledBelow(sub: Tree, p: Word, c: Letter, w: Word)
    ensures p < w && c == w[|p|] && Accepts(sub, w[|p| + 1..])
      <==> (sub.isword && w == p + [c]) || Spelled(sub, |sub.kids|, p + [c], w)
  {
    if p < w && c == w[|p|] {
      var v := w[|p| + 1..];
      assert w == p + [c] + v;
      if v != [] {
        assert w[|p + [c]|] == v[0];
        assert w[|p + [c]| + 1..] == v[1..];
      }
    }
  }

  lemma {:induction false} LessAfter(p: Word, a: Word, b: Word)
    requires p < a && p < b && a[|p|] < b[|p|]
    ensures Less(a, b)
  {
    if p == [] {
    } else {
      assert p[1..] < a[1..] && p[1..] < b[1..];
      LessAfter(p[1..], a[1..], b[1..]);
    }
  }

  lemma {:induction false} PrefixLess(a: Word, b: Word)
    requires a < b
    ensures Less(a, b)
  {
    if a == [] {
    } else {
      PrefixLess(a[1..], b[1..]);
    }
  }

  lemma JoinIncreasing(a: seq<Word>, b: seq<Word>)
    requires StrictlyIncreasing(a) && StrictlyIncreasing(b)
    requires forall x, y :: x in a && y in b ==> Less(x, y)
    ensures StrictlyIncreasing(a + b)
  {
    forall i, j | 0 <= i < j < |a + b| ensures Less((a + b)[i], (a + b)[j]) {
      if i < |a| && |a| <= j {
        assert (a + b)[i] in a && (a + b)[j] in b;
      }
    }
  }

  /** What is listed below a word goes on with it. */
  lemma BelowExtends(sub: Tree, q: Word, y: Word)
    requires y in WordsUpTo(sub, |sub.kids|, q)
    ensures q < y && Less(q, y)
  {
    Listed(sub, |sub.kids|, q, y);
    PrefixLess(q, y);
  }

  /** What is listed through earlier children comes before what goes on with child i. */
  lemma EarlierLess(t: Tree, i: nat, p: Word, x: Word, y: Word)
    requires Sorted(t) && i < |t.kids| && x in WordsUpTo(t, i, p)
    requires p + [t.kids[i].letter] <= y
    ensures Less(x, y)
  {
    Listed(t, i, p, x);
    assert p < y && y[|p|] == t.kids[i].letter;
    LessAfter(p, x, y);
  }

  lemma ListedNext(t: Tree, i: nat, p: Word)
    requires Sorted(t) && i < |t.kids| && StrictlyIncreasing(WordsUpTo(t, i, p))
    requires var sub := t.kids[i].sub; StrictlyIncreasing(WordsUpTo(sub, |sub.kids|, p + [t.kids[i].letter]))
    ensures StrictlyIncreasing(WordsUpTo(t, i + 1, p))
  {
    var sub, q := t.kids[i].sub, p + [t.kids[i].letter];
    var first, own, below := WordsUpTo(t, i, p), if sub.isword then [q] else [], WordsUpTo(sub, |sub.kids|, q);
    forall x, y | x in first && y in own ensures Less(x, y) {
      EarlierLess(t, i, p, x, y);
    }
    JoinIncreasing(first, own);
    forall x, y | x in first + own && y in below ensures Less(x, y) {
      BelowExtends(sub, q, y);
      if x in first {
        EarlierLess(t, i, p, x, y);
      }
    }
    JoinIncreasing(first + own, below);
  }

  /** The listing is strictly increasing, so no word is listed twice. */
  lemma {:induction false} ListedInOrder(t: Tree, i: nat, p: Word)
    requires Sorted(t) && i <= |t.kids|
    ensures StrictlyIncreasing(WordsUpTo(t, i, p))
    decreases t, i
  {
    if i == 0 {
    } else {
      var sub := t.kids[i - 1].sub;
      ListedInOrder(t, i - 1, p);
      ListedInOrder(sub, |sub.kids|, p + [t.kids[i - 1].letter]);
      ListedNext(t, i - 1, p);
    }
  }

  /** All words of a tree, the empty word aside. */
  function AllWords(t: Tree): seq<Word> {
    WordsUpTo(t, |t.kids|, [])
  }

  lemma WordListed(t: Tree, w: Word)
    ensures w in AllWords(t) <==> w != [] && Accepts(t, w)
  {
    Listed(t, |t.kids|, [], w);
    if w != [] {
      assert w == [w[0]] + w[1..];
    }
  }

  /** For a tree built from a list: every non-empty word of the list exactly
      once, in strictly increasing order. */
  lemma AllWordsOfList(words: seq<Word>)
    ensures var ws := AllWords(InsertAll(EMPTY, words));
      && StrictlyIncreasing(ws)
      && |ws| == CountUpTo(InsertAll(EMPTY, words), |InsertAll(EMPTY, words).kids|)
      && forall w :: w in ws <==> w != [] && w in words
  {
    var t := InsertAll(EMPTY, words);
    InsertAllAccepts(words);
    ListedInOrder(t, |t.kids|, []);
    CountIsLength(t, |t.kids|, []);
    forall w: Word ensures w in AllWords(t) <==> w != [] && w in words {
      WordListed(t, w);
    }
  }
}
