/** String lists in a configuration entry (library/config.cpp): elements end with "^e", a "^"
    inside an element is written "^^", and a null string "^0". */
module ListCodec {

  /** Strings of the toolkit: a null string is not the empty one. */
  datatype QString = Null | Str(chars: string)

  /** The characters of a string; appending to a null string gives a string. */
  function Chars(s: QString): string { if s.Null? then "" else s.chars }

  // ---------- writing ----------

  function EscapeChar(c: char): string { if c == '^' then "^^" else [c] }

  function Escape(s: string): string {
    if s == "" then "" else Escape(s[..|s| - 1]) + EscapeChar(s[|s| - 1])
  }

  function Element(s: QString): string {
    (if s.Null? then "^0" else Escape(s.chars)) + "^e"
  }

  function Encode(l: seq<QString>): string {
    if l == [] then "" else Encode(l[..|l| - 1]) + Element(l[|l| - 1])
  }

  method WriteEntry(lst: seq<QString>) returns (s: string)
    ensures s == Encode(lst)
  {
    s := "";
    for it := 0 to |lst|
      invariant s == Encode(lst[..it])
    {
      var el;
      if lst[it].Null? {
        el := "^0";
      } else {
        el := Escape(lst[it].chars);
      }
      assert lst[..it + 1][..it] == lst[..it];
      assert s + Element(lst[it]) == s + el + "^e";
      s := s + el;
      s := s + "^e";
    }
    assert lst[..|lst|] == lst;
  }

  // ---------- reading ----------

  /** The reader's variables: the list so far, the element so far, and whether the last
      character was an unescaped "^". */
  datatype Reader = Reader(l: seq<QString>, s: QString, esc: bool)

  function Append(s: QString, c: char): QString { Str(Chars(s) + [c]) }

  /** One character; `last` when it is the final one of the value. */
  function Step(r: Reader, c: char, last: bool): Reader {
    if r.esc then
      if c == 'e' then Reader(r.l + [r.s], Str(""), false)
      else if c == '0' then Reader(r.l, Null, false)
      else Reader(r.l, Append(r.s, c), false)
    else if c == '^' then Reader(r.l, r.s, true)
    else
      var s := Append(r.s, c);
      Reader(if last then r.l + [s] else r.l, s, false)
  }

  /** Reading value[..n]. */
  function Scan(value: string, n: nat): Reader
    requires n <= |value|
  {
    if n == 0 then Reader([], Null, false)
    else Step(Scan(value, n - 1), value[n - 1], n == |value|)
  }

  method ReadListEntry(value: string) returns (l: seq<QString>)
    ensures l == Scan(value, |value|).l
  {
    l := [];
    var s := Null;
    var esc := false;
    for i := 0 to |value|
      invariant Reader(l, s, esc) == Scan(value, i)
    {
      if esc {
        if value[i] == 'e' {
          l := l + [s];
          s := Str("");
        } else if value[i] == '0' {
          s := Null;
        } else {
          s := Append(s, value[i]);
        }
        esc := false;
      } else if value[i] == '^' {
        esc := true;
      } else {
        s := Append(s, value[i]);
        if i == |value| - 1 {
          l := l + [s];
        }
      }
    }
  }

  // ---------- round trip ----------

  /** What comes back: the first element is null if it was empty, all else unchanged. */
  function ReadBack(l: seq<QString>): seq<QString> {
    if l != [] && l[0] == Str("") then [Null] + l[1..] else l
  }

  /** The reader between two elements. */
  function Between(l: seq<QString>): Reader {
    Reader(ReadBack(l), if l == [] then Null else Str(""), false)
  }

  /** Reading a stretch of characters that does not end the value. */
  function Feed(r: Reader, t: string): Reader {
    if t == "" then r else Step(Feed(r, t[..|t| - 1]), t[|t| - 1], false)
  }

  lemma SliceInit(s: string, n: nat, t: string)
    requires t != "" && n + |t| <= |s| && s[n..n + |t|] == t
    ensures var k := |t| - 1; s[n..n + k] == t[..k] && s[n + k] == t[k]
  {
    var k := |t| - 1;
    assert s[n..n + k] == s[n..n + |t|][..k] && s[n + k] == s[n..n + |t|][k];
  }

  lemma {:induction false} ScanFeed(value: string, n: nat, t: string)
    requires n + |t| < |value| && value[n..n + |t|] == t
    ensures Scan(value, n + |t|) == Feed(Scan(value, n), t)
  {
    if t == "" {
    } else {
      var k := |t| - 1;
      SliceInit(value, n, t);
      ScanFeed(value, n, t[..k]);
    }
  }

  lemma FeedSnoc(r: Reader, t: string, c: char)
    ensures Feed(r, t + [c]) == Step(Feed(r, t), c, false)
  {
    assert (t + [c])[..|t|] == t;
  }

  function Plus(s: QString, t: string): QString { if t == "" then s else Str(Chars(s) + t) }

  lemma PlusSnoc(s: QString, t: string, c: char)
    ensures Append(Plus(s, t), c) == Plus(s, t + [c])
  {
    assert Chars(s) + (t + [c]) == Chars(s) + t + [c];
    assert t == "" ==> Chars(s) + t == Chars(s);
  }

  /** One escaped character more. */
  lemma FeedCharacter(r: Reader, t: string, c: char)
    requires !Feed(r, t).esc
    ensures var q := Feed(r, t); Feed(r, t + EscapeChar(c)) == Reader(q.l, Append(q.s, c), false)
  {
    if c == '^' {
      FeedSnoc(r, t, '^');
      FeedSnoc(r, t + ['^'], '^');
      assert t + "^^" == t + ['^'] + ['^'];
    } else {
      FeedSnoc(r, t, c);
    }
  }

  lemma Snoc(s: string)
    requires s != ""
    ensures s[..|s| - 1] + [s[|s| - 1]] == s
  {
  }

  /** Reading an escaped string gives back its characters. */
  lemma {:induction false} FeedEscaped(r: Reader, s: string)
    requires !r.esc
    ensures Feed(r, Escape(s)) == Reader(r.l, Plus(r.s, s), false)
  {
    if s == "" {
    } else {
      var s0, c := s[..|s| - 1], s[|s| - 1];
      FeedEscaped(r, s0);
      FeedCharacter(r, Escape(s0), c);
      PlusSnoc(r.s, s0, c);
      Snoc(s);
    }
  }

  /** All of an element but its final character. */
  function Opening(x: QString): string { (if x.Null? then "^0" else Escape(x.chars)) + ['^'] }

  lemma FeedOpening(l: seq<QString>, x: QString)
    ensures var r := Feed(Between(l), Opening(x));
            r.esc && r.l + [r.s] == ReadBack(l + [x])
  {
    var r := Between(l);
    if x.Null? {
      FeedSnoc(r, [], '^');
      FeedSnoc(r, ['^'], '0');
      FeedSnoc(r, ['^', '0'], '^');
      assert [] + ['^'] == ['^'] && ['^'] + ['0'] == ['^', '0'];
      assert Opening(x) == ['^', '0'] + ['^'];
    } else {
      FeedEscaped(r, x.chars);
      FeedSnoc(r, Escape(x.chars), '^');
      assert "" + x.chars == x.chars;
    }
    ReadBackSnoc(l, x);
  }

  lemma ReadBackSnoc(l: seq<QString>, x: QString)
    ensures ReadBack(l + [x]) == if l == [] && x == Str("") then [Null] else ReadBack(l) + [x]
  {
  }

  lemma ScanElement(value: string, n: nat, l: seq<QString>, x: QString)
    requires n + |Element(x)| <= |value| && value[n..n + |Element(x)|] == Element(x)
    requires Scan(value, n) == Between(l)
    ensures Scan(value, n + |Element(x)|) == Between(l + [x])
  {
    assert Element(x) == Opening(x) + ['e'];
    ScanOpening(value, n, l, x, Opening(x));
  }

  lemma ScanOpening(value: string, n: nat, l: seq<QString>, x: QString, t: string)
    requires t == Opening(x) && n + |t| < |value| && value[n..n + |t| + 1] == t + ['e']
    requires Scan(value, n) == Between(l)
    ensures Scan(value, n + |t| + 1) == Between(l + [x])
  {
    assert value[n..n + |t|] == value[n..n + |t| + 1][..|t|];
    ScanFeed(value, n, t);
    FeedOpening(l, x);
    assert value[n + |t|] == value[n..n + |t| + 1][|t|];
  }

  lemma MiddlePart(a: string, b: string, s: string)
    requires a + b <= s
    ensures a <= s && s[|a|..|a| + |b|] == b
  {
    assert s[..|a| + |b|] == a + b;
  }

  lemma {:induction false} ScanEncoded(l: seq<QString>, value: string)
    requires Encode(l) <= value
    ensures Scan(value, |Encode(l)|) == Between(l)
  {
    if l == [] {
    } else {
      var init, last := l[..|l| - 1], l[|l| - 1];
      assert l == init + [last];
      assert Encode(l) == Encode(init) + Element(last);
      MiddlePart(Encode(init), Element(last), value);
      ScanEncoded(init, value);
      ScanElement(value, |Encode(init)|, init, last);
    }
  }

  /** Reading inverts writing for every list of strings whatever they contain, except that
      an empty first string comes back null. */
  lemma ListRoundTrip(l: seq<QString>)
    ensures Scan(Encode(l), |Encode(l)|).l == ReadBack(l)
  {
    ScanEncoded(l, Encode(l));
  }

  lemma {:induction false} FeedPlain(r: Reader, t: string)
    requires !r.esc && '^' !in t
    ensures Feed(r, t) == Reader(r.l, Plus(r.s, t), false)
  {
    if t == "" {
    } else {
      var t0, c := t[..|t| - 1], t[|t| - 1];
      FeedPlain(r, t0);
      PlusSnoc(r.s, t0, c);
      Snoc(t);
    }
  }

  lemma LastChar(value: string, n: nat, r: Reader, c: char)
    requires n == |value| - 1 && Scan(value, n) == r && value[n] == c && !r.esc && c != '^'
    ensures Scan(value, |value|).l == r.l + [Append(r.s, c)]
  {
    assert Scan(value, n + 1) == Step(r, c, true);
  }

  lemma ScanTail(value: string, n: nat, r: Reader, t: string, c: char)
    requires n + |t| == |value| - 1 && value[n..n + |t|] == t && value[n + |t|] == c
    requires '^' !in t && c != '^' && Scan(value, n) == r && !r.esc
    ensures Scan(value, |value|).l == r.l + [Append(Plus(r.s, t), c)]
  {
    ScanFeed(value, n, t);
    FeedPlain(r, t);
    LastChar(value, n + |t|, Reader(r.l, Plus(r.s, t), false), c);
  }

  lemma TailParts(e: string, t: string, c: char)
    ensures var value := e + t + [c];
      && value[|e|..|e| + |t|] == t && value[|e| + |t|] == c && e <= value && |value| == |e| + |t| + 1
  {
  }

  lemma TailString(s: QString, t: string, c: char)
    requires Chars(s) == ""
    ensures Append(Plus(s, t), c) == Str(t + [c])
  {
    assert "" + t == t;
  }

  /** Characters without "^" after the last element, which no written list has, make one more
      element, and the end of the value ends it. So a value that is no list is read as the
      list of itself. */
  lemma UnendedTail(l: seq<QString>, t: string, c: char)
    requires '^' !in t && c != '^'
    ensures var value := Encode(l) + t + [c]; Scan(value, |value|).l == ReadBack(l) + [Str(t + [c])]
  {
    TailParts(Encode(l), t, c);
    ScanEncoded(l, Encode(l) + t + [c]);
    ScanTail(Encode(l) + t + [c], |Encode(l)|, Between(l), t, c);
    TailString(Between(l).s, t, c);
  }

  lemma PlainValue(t: string, c: char)
    requires '^' !in t && c != '^'
    ensures Scan(t + [c], |t| + 1).l == [Str(t + [c])]
  {
    UnendedTail([], t, c);
    assert Encode([]) + t + [c] == t + [c] && ReadBack([]) + [Str(t + [c])] == [Str(t + [c])];
  }

  /** Null and empty counted as the same, the list itself comes back. */
  lemma SameCharacters(l: seq<QString>)
    ensures |ReadBack(l)| == |l| && forall i :: 0 <= i < |l| ==> Chars(ReadBack(l)[i]) == Chars(l[i])
    ensures ReadBack(l) == l <==> l == [] || l[0] != Str("")
  {
  }
}
