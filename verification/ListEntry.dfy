/** A string list kept in an entry of a configuration file: which lists survive being written
    and read back with the file. */
module ListEntries {
  import opened Configs
  import opened ListCodec

  ghost predicate Plain(l: seq<QString>) {
    forall i :: 0 <= i < |l| ==> '\n' !in Chars(l[i])
  }

  /** The first string does not start with white space. */
  predicate StartsPlain(l: seq<QString>) {
    l != [] && Chars(l[0]) != "" ==> !IsSpace(Chars(l[0])[0])
  }

  lemma {:induction false} EscapePlain(s: string)
    ensures '\n' in Escape(s) <==> '\n' in s
  {
    if s == "" {
    } else {
      EscapePlain(s[..|s| - 1]);
      Snoc(s);
      EscapedChar(Escape(s[..|s| - 1]), s[|s| - 1]);
      SnocMember(s[..|s| - 1], s[|s| - 1]);
    }
  }

  lemma EscapedChar(t: string, c: char)
    ensures '\n' in t + EscapeChar(c) <==> '\n' in t || c == '\n'
  {
  }

  lemma SnocMember(t: string, c: char)
    ensures '\n' in t + [c] <==> '\n' in t || c == '\n'
  {
  }

  lemma ElementPlain(x: QString)
    ensures '\n' in Element(x) <==> '\n' in Chars(x)
  {
    if x.Str? {
      EscapePlain(x.chars);
    }
  }

  lemma PlainSnoc(l: seq<QString>, x: QString)
    ensures Plain(l + [x]) <==> Plain(l) && '\n' !in Chars(x)
  {
    var t := l + [x];
    assert t[|l|] == x;
    forall i | 0 <= i < |l|
      ensures t[i] == l[i]
    {
    }
  }

  lemma SplitLast(l: seq<QString>)
    requires l != []
    ensures l == l[..|l| - 1] + [l[|l| - 1]]
  {
  }

  lemma {:induction false} EncodePlain(l: seq<QString>)
    ensures '\n' !in Encode(l) <==> Plain(l)
  {
    if l == [] {
    } else {
      var init, last := l[..|l| - 1], l[|l| - 1];
      EncodePlain(init);
      ElementPlain(last);
      SplitLast(l);
      PlainSnoc(init, last);
    }
  }

  lemma {:induction false} EscapeHead(s: string)
    requires s != ""
    ensures Escape(s) != "" && Escape(s)[0] == s[0]
  {
    if |s| == 1 {
      assert s[..0] == "" && Escape(s[..0]) == "";
    } else {
      EscapeHead(s[..|s| - 1]);
    }
  }

  lemma ElementHead(x: QString)
    ensures Element(x) != "" && Element(x)[|Element(x)| - 1] == 'e'
    ensures IsSpace(Element(x)[0]) <==> Chars(x) != "" && IsSpace(Chars(x)[0])
  {
    if x.Str? && x.chars != "" {
      EscapeHead(x.chars);
    }
  }

  lemma {:induction false} EncodeHead(l: seq<QString>)
    requires l != []
    ensures Encode(l) != "" && Encode(l)[0] == Element(l[0])[0] && Encode(l)[|Encode(l)| - 1] == 'e'
  {
    var init, last := l[..|l| - 1], l[|l| - 1];
    ElementHead(last);
    if |l| == 1 {
      assert init == [] && Encode(init) == "";
    } else {
      EncodeHead(init);
    }
  }

  lemma EncodeTrimmed(l: seq<QString>)
    ensures Trimmed(Encode(l)) <==> StartsPlain(l)
  {
    if l != [] {
      EncodeHead(l);
      ElementHead(l[0]);
    }
  }

  /** The entry of a list can be printed and read back exactly if no string holds a newline
      and the first does not start with white space. */
  lemma ListPrintable(g: string, k: string, l: seq<QString>)
    requires PrintableEntry(g, k, "")
    ensures PrintableEntry(g, k, Encode(l)) <==> Plain(l) && StartsPlain(l)
  {
    EncodePlain(l);
    EncodeTrimmed(l);
  }

  /** With a list put into printable groups, the groups can still be printed and read back
      exactly if the list can. */
  lemma ListInGroups(groups: ConfigGroupMap, g: string, k: string, l: seq<QString>)
    requires Printable(groups) && g in groups && PrintableEntry(g, k, "")
    ensures Printable(groups[g := groups[g][k := Encode(l)]]) <==> Plain(l) && StartsPlain(l)
  {
    var next := groups[g := groups[g][k := Encode(l)]];
    ListPrintable(g, k, l);
    if Plain(l) && StartsPlain(l) {
      PrintableUpdate(groups, g, k, Encode(l));
    } else {
      assert g in next && k in next[g] && next[g][k] == Encode(l);
    }
  }

  /** From list to list through the text of a file. */
  method ListThroughFile(c: Config, g: string, k: string, l: seq<QString>) returns (r: seq<QString>, same: bool)
    requires Printable(c.groups) && g in c.groups && PrintableEntry(g, k, "")
    modifies c
    ensures same <==> Plain(l) && StartsPlain(l)
    ensures same ==> r == ReadBack(l)
  {
    ListInGroups(c.groups, g, k, l);
    var value := WriteEntry(l);
    c.groups := c.groups[g := c.groups[g][k := value]];
    var text := c.Write();
    var d := new Config();
    d.Read(text);
    same := d.groups == c.groups;
    r := [];
    if same {
      r := ReadListEntry(d.groups[g][k]);
      ListRoundTrip(l);
    }
  }
}
