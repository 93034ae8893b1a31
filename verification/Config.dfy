/** Configuration files (library/config.cpp): groups of key and value pairs printed as
    "[group]" and "key = value" lines, and parsed back. */
module Configs {
  import opened Options

  type ConfigGroup = map<string, string>
  type ConfigGroupMap = map<string, ConfigGroup>

  // ---------- white space ----------

  predicate IsSpace(c: char) { c in " \t\n\r" || c == 11 as char || c == 12 as char }

  lemma SpacesAre(c: char)
    ensures IsSpace(c) <==> c == ' ' || 9 <= c as int <= 13
  {
  }

  function StripLeft(s: string): string {
    if s != "" && IsSpace(s[0]) then StripLeft(s[1..]) else s
  }

  function StripRight(s: string): string {
    if s != "" && IsSpace(s[|s| - 1]) then StripRight(s[..|s| - 1]) else s
  }

  function StripWhiteSpace(s: string): string { StripRight(StripLeft(s)) }

  predicate Trimmed(s: string) { s == "" || (!IsSpace(s[0]) && !IsSpace(s[|s| - 1])) }

  predicate AllSpace(s: string) { forall i :: 0 <= i < |s| ==> IsSpace(s[i]) }

  lemma {:induction false} StripPadded(a: string, s: string, b: string)
    requires AllSpace(a) && AllSpace(b) && Trimmed(s)
    ensures StripWhiteSpace(a + s + b) == s
  {
    if s == "" {
      assert a + s + b == a + b;
      StripLeftAll(a + b);
    } else {
      StripLeftPad(a, s + b);
      assert a + (s + b) == a + s + b;
      StripRightPad(s, b);
    }
  }

  lemma {:induction false} StripLeftAll(a: string)
    requires AllSpace(a)
    ensures StripLeft(a) == ""
  {
    if a == "" {
    } else {
      StripLeftAll(a[1..]);
    }
  }

  lemma {:induction false} StripLeftPad(a: string, s: string)
    requires AllSpace(a) && s != "" && !IsSpace(s[0])
    ensures StripLeft(a + s) == s
  {
    if a == "" {
      assert a + s == s;
    } else {
      assert (a + s)[1..] == a[1..] + s;
      StripLeftPad(a[1..], s);
    }
  }

  lemma {:induction false} StripRightPad(s: string, b: string)
    requires AllSpace(b) && s != "" && !IsSpace(s[|s| - 1])
    ensures StripRight(s + b) == s
  {
    if b == "" {
      assert s + b == s;
    } else {
      assert (s + b)[..|s + b| - 1] == s + b[..|b| - 1];
      StripRightPad(s, b[..|b| - 1]);
    }
  }

  // ---------- lines ----------

  /** The index of the first c in s, -1 if there is none. */
  function Find(s: string, c: char): (i: int)
    ensures -1 <= i < |s|
    ensures i >= 0 ==> s[i] == c
    ensures forall j :: 0 <= j < (if i < 0 then |s| else i) ==> s[j] != c
  {
    if s == "" then -1
    else if s[0] == c then 0
    else
      var r := Find(s[1..], c);
      assert forall j :: 1 <= j < |s| ==> s[j] == s[1..][j - 1];
      if r < 0 then -1 else r + 1
  }

  lemma FindUnique(s: string, c: char, i: nat)
    requires i < |s| && s[i] == c && forall j :: 0 <= j < i ==> s[j] != c
    ensures Find(s, c) == i
  {
  }

  /** The non-empty lines of a text. */
  function Lines(text: string): seq<string>
    decreases |text|
  {
    if text == "" then []
    else
      var n := Find(text, '\n');
      if n < 0 then [text]
      else (if n == 0 then [] else [text[..n]]) + Lines(text[n + 1..])
  }

  lemma LinesFirst(line: string, rest: string)
    requires line != "" && '\n' !in line
    ensures Lines(line + "\n" + rest) == [line] + Lines(rest)
  {
    var text := line + "\n" + rest;
    assert text[..|line|] == line && text[|line| + 1..] == rest;
    FindUnique(text, '\n', |line|);
  }

  // ---------- parsing ----------

  /** What the parser changes: the groups, the current group (None past the end), and the
      settings of translation files. */
  datatype Parser = Parser(groups: ConfigGroupMap, git: Option<string>,
                           trfile: string, trcontext: string, multilang: bool)

  const START := Parser(map[], None, "", "", false)

  /** The current group is one of the groups. */
  predicate Valid(p: Parser) { p.git.Some? ==> p.git.value in p.groups }

  function GroupName(line: string): string
    requires line != ""
  {
    var gname := line[1..];
    if gname != "" && gname[|gname| - 1] == ']' then gname[..|gname| - 1] else gname
  }

  predicate OldStyle(key: string) {
    var kl := |key|;
    kl > 1 && key[kl - 1] == ']' && key[kl - 2] != '['
  }

  function ParseLine(p: Parser, l: string): (r: Option<Parser>)
    requires Valid(p)
    ensures r.Some? ==> Valid(r.value)
  {
    var line := StripWhiteSpace(l);
    if line != "" && line[0] == '[' then
      var gname := GroupName(line);
      Some(p.(groups := p.groups[gname := map[]], git := Some(gname)))
    else if line != "" then
      var eq := Find(line, '=');
      if p.git.None? || eq == -1 then None
      else
        var key, value := StripWhiteSpace(line[..eq]), StripWhiteSpace(line[eq + 1..]);
        var g := p.git.value;
        if g == "Translation" && key != "File" && key != "Context" then
          (if "Comment" <= key then Some(p) else None)
        else Some(Parser(p.groups[g := p.groups[g][key := value]], p.git,
                         if g == "Translation" && key == "File" then value else p.trfile,
                         if g == "Translation" && key == "Context" then value else p.trcontext,
                         p.multilang || OldStyle(key)))
    else Some(p)
  }

  /** Parsing lines until one is refused; then the current group is unset. */
  function ParseLines(p: Parser, ls: seq<string>): (r: Parser)
    requires Valid(p)
    ensures Valid(r)
    decreases |ls|
  {
    if ls == [] then p
    else
      match ParseLine(p, ls[0])
      case None => p.(git := None)
      case Some(q) => ParseLines(q, ls[1..])
  }

  function ReadText(text: string): Parser { ParseLines(START, Lines(text)) }

  // ---------- printing ----------

  /** All of m but the keys still to do. */
  ghost predicate Done<T>(m: map<string, T>, left: set<string>, done: map<string, T>) {
    left <= m.Keys && done.Keys == m.Keys - left && forall k :: k in done ==> done[k] == m[k]
  }

  lemma DoneStep<T>(m: map<string, T>, left: set<string>, done: map<string, T>, k: string)
    requires Done(m, left, done) && k in left
    ensures Done(m, left - {k}, done[k := m[k]])
  {
  }

  lemma DoneAll<T>(m: map<string, T>, done: map<string, T>)
    requires Done(m, {}, done)
    ensures done == m
  {
  }

  /** The parser has gone on from p to q inside group g, which holds done. */
  ghost predicate InGroup(p: Parser, q: Parser, g: string, done: ConfigGroup) {
    q.git == Some(g) && q.groups == p.groups[g := done]
  }

  lemma InGroupStep(p: Parser, q: Parser, g: string, done: ConfigGroup, k: string, v: string)
    requires InGroup(p, q, g, done)
    ensures g in q.groups && q.groups[g := q.groups[g][k := v]] == p.groups[g := done[k := v]]
  {
  }

  predicate PrintableEntry(g: string, k: string, v: string) {
    Trimmed(k) && '=' !in k && '\n' !in k && (k != "" ==> k[0] != '[')
    && Trimmed(v) && '\n' !in v && (g == "Translation" ==> k == "File" || k == "Context")
  }

  /** What can be printed and read back: trimmed values and keys without newlines, keys that
      neither look like a group nor hold the separator, names without newlines, and in the
      group of translation files only the two keys the parser accepts there. */
  predicate Printable(groups: ConfigGroupMap) {
    forall g :: g in groups ==>
      '\n' !in g && forall k :: k in groups[g] ==> PrintableEntry(g, k, groups[g][k])
  }

  ghost predicate PrintedBefore(str: string, p: Parser, rest: string)
    requires Valid(p)
  {
    ReadText(str + rest) == ParseLines(p, Lines(rest))
  }

  /** The parser is in state p after reading str, whatever follows. */
  ghost predicate Printed(str: string, p: Parser) {
    Valid(p) && forall rest :: PrintedBefore(str, p, rest)
  }

  lemma StartPrinted()
    ensures Printed("", START)
  {
    forall rest
      ensures PrintedBefore("", START, rest)
    {
      assert "" + rest == rest;
    }
  }

  lemma PrintedLine(str: string, p: Parser, line: string, q: Parser)
    requires Printed(str, p) && line != "" && '\n' !in line && ParseLine(p, line) == Some(q)
    ensures Printed(str + (line + "\n"), q)
  {
    forall rest
      ensures PrintedBefore(str + (line + "\n"), q, rest)
    {
      PrintedLineBefore(str, p, line, q, rest);
    }
  }

  lemma PrintedLineBefore(str: string, p: Parser, line: string, q: Parser, rest: string)
    requires Valid(p) && line != "" && '\n' !in line && ParseLine(p, line) == Some(q)
    requires PrintedBefore(str, p, line + "\n" + rest)
    ensures PrintedBefore(str + (line + "\n"), q, rest)
  {
    assert str + (line + "\n") + rest == str + (line + "\n" + rest);
    LinesFirst(line, rest);
    ParseFirst(p, line, Lines(rest), q);
  }

  lemma ParseFirst(p: Parser, line: string, ls: seq<string>, q: Parser)
    requires Valid(p) && ParseLine(p, line) == Some(q)
    ensures ParseLines(p, [line] + ls) == ParseLines(q, ls)
  {
    assert ([line] + ls)[1..] == ls;
  }

  lemma GroupLineParses(p: Parser, g: string)
    requires Valid(p)
    ensures ParseLine(p, "[" + g + "]") == Some(p.(groups := p.groups[g := map[]], git := Some(g)))
  {
    var line := "[" + g + "]";
    assert "" + line + "" == line;
    StripPadded("", line, "");
    assert line[1..] == g + "]";
    assert GroupName(line) == g;
  }

  lemma PrintedGroupLine(str: string, p: Parser, g: string, q: Parser)
    requires Printed(str, p) && '\n' !in g
    requires q == p.(groups := p.groups[g := map[]], git := Some(g))
    ensures Printed(str + ("[" + g + "]\n"), q)
  {
    var line := "[" + g + "]";
    GroupLineParses(p, g);
    PrintedLine(str, p, line, q);
    assert "[" + g + "]\n" == line + "\n";
  }

  /** The two halves of a line around its separator. */
  lemma HalvesStrip(k: string, v: string, a: string, b: string, eq: nat)
    requires Trimmed(k) && Trimmed(v) && '=' !in k && AllSpace(a) && AllSpace(b)
    requires '=' !in a && eq == |k| + |a|
    ensures var line := k + a + "=" + b + v;
            Find(line, '=') == eq
            && StripWhiteSpace(line[..eq]) == k && StripWhiteSpace(line[eq + 1..]) == v
  {
    var line := k + a + "=" + b + v;
    assert line[..eq] == k + a && line[eq + 1..] == b + v;
    FindUnique(line, '=', eq);
    assert "" + k + a == k + a && b + v + "" == b + v;
    StripPadded("", k, a);
    StripPadded(b, v, "");
  }

  /** The spaces around the separator that survive stripping the line. */
  lemma EntryLineStrips(k: string, v: string)
    requires Trimmed(k) && Trimmed(v)
    ensures StripWhiteSpace(k + " = " + v)
            == k + (if k == "" then "" else " ") + "=" + (if v == "" then "" else " ") + v
  {
    var a, b := if k == "" then " " else "", if v == "" then " " else "";
    var core := k + (if k == "" then "" else " ") + "=" + (if v == "" then "" else " ") + v;
    assert k + " = " + v == a + core + b;
    StripPadded(a, core, b);
  }

  lemma EntryLineParses(p: Parser, g: string, k: string, v: string)
    requires Valid(p) && p.git == Some(g) && PrintableEntry(g, k, v)
    ensures var r := ParseLine(p, k + " = " + v);
            r.Some? && r.value.groups == p.groups[g := p.groups[g][k := v]] && r.value.git == p.git
  {
    var a, b := if k == "" then "" else " ", if v == "" then "" else " ";
    EntryLineStrips(k, v);
    HalvesStrip(k, v, a, b, |k| + |a|);
    EntryLineStart(k, v, a, b);
    EntryParses(p, g, k, v, k + " = " + v, k + a + "=" + b + v, |k| + |a|);
  }

  lemma EntryLineStart(k: string, v: string, a: string, b: string)
    requires k == "" ==> a == ""
    ensures var line := k + a + "=" + b + v; line != "" && line[0] == if k == "" then '=' else k[0]
  {
  }

  lemma EntryLineWhole(k: string, v: string)
    requires '\n' !in k && '\n' !in v
    ensures k + " = " + v != "" && '\n' !in k + " = " + v
  {
  }

  lemma PrintedEntryLine(str: string, p: Parser, g: string, k: string, v: string) returns (q: Parser)
    requires Printed(str, p) && p.git == Some(g) && PrintableEntry(g, k, v)
    ensures Printed(str + (k + " = " + v + "\n"), q) && q.git == Some(g)
    ensures q.groups == p.groups[g := p.groups[g][k := v]]
  {
    EntryLineParses(p, g, k, v);
    EntryLineWhole(k, v);
    q := ParseLine(p, k + " = " + v).value;
    PrintedLine(str, p, k + " = " + v, q);
  }

  /** A line that strips to `line`, with its separator at eq, sets k to v. */
  lemma EntryParses(p: Parser, g: string, k: string, v: string, l: string, line: string, eq: nat)
    requires Valid(p) && p.git == Some(g) && PrintableEntry(g, k, v)
    requires StripWhiteSpace(l) == line && line != "" && line[0] != '[' && Find(line, '=') == eq
    requires StripWhiteSpace(line[..eq]) == k && StripWhiteSpace(line[eq + 1..]) == v
    ensures var r := ParseLine(p, l);
            r.Some? && r.value.groups == p.groups[g := p.groups[g][k := v]] && r.value.git == p.git
  {
  }

  /** Printing and parsing give back the same groups, empty ones included. */
  lemma PrintedGroups(str: string, p: Parser)
    requires Printed(str, p)
    ensures ReadText(str) == p
  {
    assert PrintedBefore(str, p, "");
    assert str + "" == str;
  }

  // ---------- the settings of translation files ----------

  lemma EntrySettings(p: Parser, g: string, k: string, v: string, l: string, line: string, eq: nat)
    requires Valid(p) && p.git == Some(g) && PrintableEntry(g, k, v)
    requires StripWhiteSpace(l) == line && line != "" && line[0] != '[' && Find(line, '=') == eq
    requires StripWhiteSpace(line[..eq]) == k && StripWhiteSpace(line[eq + 1..]) == v
    ensures var r := ParseLine(p, l);
      && r.Some?
      && r.value.trfile == (if g == "Translation" && k == "File" then v else p.trfile)
      && r.value.trcontext == (if g == "Translation" && k == "Context" then v else p.trcontext)
      && (r.value.multilang <==> p.multilang || (|k| >= 2 && k[|k| - 1] == ']' && k[|k| - 2] != '['))
  {
  }

  /** What a printed entry line does besides setting its entry: in the group of translation
      files it is remembered as the file or the context, and a key that ends in brackets with
      something between them tells that the file holds several languages. */
  lemma EntryLineSettings(p: Parser, g: string, k: string, v: string)
    requires Valid(p) && p.git == Some(g) && PrintableEntry(g, k, v)
    ensures var r := ParseLine(p, k + " = " + v);
      && r.Some?
      && r.value.trfile == (if g == "Translation" && k == "File" then v else p.trfile)
      && r.value.trcontext == (if g == "Translation" && k == "Context" then v else p.trcontext)
      && (r.value.multilang <==> p.multilang || (|k| >= 2 && k[|k| - 1] == ']' && k[|k| - 2] != '['))
  {
    var a, b := if k == "" then "" else " ", if v == "" then "" else " ";
    EntryLineStrips(k, v);
    HalvesStrip(k, v, a, b, |k| + |a|);
    EntryLineStart(k, v, a, b);
    EntrySettings(p, g, k, v, k + " = " + v, k + a + "=" + b + v, |k| + |a|);
  }

  /** The settings agree with the groups: the file and context are those of the group of
      translation files, if it has them, and there is no key for a language unless the file
      is known to hold several. */
  ghost predicate Settled(p: Parser) {
    && ("Translation" in p.groups && "File" in p.groups["Translation"] ==> p.trfile == p.groups["Translation"]["File"])
    && ("Translation" in p.groups && "Context" in p.groups["Translation"] ==>
          p.trcontext == p.groups["Translation"]["Context"])
    && forall g, k :: g in p.groups && k in p.groups[g] && |k| >= 2 && k[|k| - 1] == ']' && k[|k| - 2] != '[' ==>
         p.multilang
  }

  lemma SettledGroup(p: Parser, g: string)
    requires Settled(p)
    ensures Settled(p.(groups := p.groups[g := map[]], git := Some(g)))
  {
  }

  lemma SettledEntry(p: Parser, g: string, k: string, v: string, q: Parser)
    requires Settled(p) && g in p.groups && q.groups == p.groups[g := p.groups[g][k := v]]
    requires q.trfile == if g == "Translation" && k == "File" then v else p.trfile
    requires q.trcontext == if g == "Translation" && k == "Context" then v else p.trcontext
    requires q.multilang <==> p.multilang || (|k| >= 2 && k[|k| - 1] == ']' && k[|k| - 2] != '[')
    ensures Settled(q)
  {
    var t := q.groups[g];
    forall h, j | h in q.groups && j in q.groups[h] && |j| >= 2 && j[|j| - 1] == ']' && j[|j| - 2] != '['
      ensures q.multilang
    {
      if h == g && j != k {
        assert j in p.groups[g];
      }
    }
  }

  lemma SettledEntryLine(p: Parser, l: string, line: string, eq: nat)
    requires Valid(p) && Settled(p) && p.git.Some?
    requires line == StripWhiteSpace(l) && line != "" && line[0] != '[' && Find(line, '=') == eq
    ensures ParseLine(p, l).Some? ==> Settled(ParseLine(p, l).value)
  {
    var g := p.git.value;
    var k, v := StripWhiteSpace(line[..eq]), StripWhiteSpace(line[eq + 1..]);
    if g == "Translation" ==> k == "File" || k == "Context" {
      SettledEntry(p, g, k, v, ParseLine(p, l).value);
    }
  }

  lemma SettledLine(p: Parser, l: string)
    requires Valid(p) && Settled(p)
    ensures ParseLine(p, l).Some? ==> Settled(ParseLine(p, l).value)
  {
    var line := StripWhiteSpace(l);
    if line != "" {
      if line[0] == '[' {
        SettledGroup(p, GroupName(line));
      } else if p.git.Some? && Find(line, '=') >= 0 {
        SettledEntryLine(p, l, line, Find(line, '='));
      }
    }
  }

  lemma {:induction false} SettledLines(p: Parser, ls: seq<string>)
    requires Valid(p) && Settled(p)
    ensures Settled(ParseLines(p, ls))
    decreases |ls|
  {
    if ls == [] {
    } else {
      SettledLine(p, ls[0]);
      if ParseLine(p, ls[0]).Some? {
        SettledLines(ParseLine(p, ls[0]).value, ls[1..]);
      }
    }
  }

  lemma ReadSettled(text: string)
    ensures Settled(ReadText(text))
  {
    SettledLines(START, Lines(text));
  }

  // ---------- what is read can be printed ----------

  lemma {:induction false} StripLeftKeeps(s: string)
    ensures var t := StripLeft(s);
      && (t != "" ==> !IsSpace(t[0]) && s != "" && t[|t| - 1] == s[|s| - 1])
      && (s != "" && !IsSpace(s[0]) ==> t == s)
      && forall c :: c in t ==> c in s
  {
    if s == "" || !IsSpace(s[0]) {
    } else {
      StripLeftKeeps(s[1..]);
    }
  }

  lemma {:induction false} StripRightKeeps(s: string)
    ensures var t := StripRight(s);
      && (t != "" ==> !IsSpace(t[|t| - 1]) && s != "" && t[0] == s[0])
      && forall c :: c in t ==> c in s
  {
    if s == "" || !IsSpace(s[|s| - 1]) {
    } else {
      StripRightKeeps(s[..|s| - 1]);
    }
  }

  lemma StripTrims(s: string)
    ensures var t := StripWhiteSpace(s);
      && Trimmed(t) && (forall c :: c in t ==> c in s)
      && (t != "" && !IsSpace(s[0]) ==> t[0] == s[0])
  {
    StripLeftKeeps(s);
    StripRightKeeps(StripLeft(s));
  }

  lemma {:induction false} LinesPlain(text: string)
    ensures forall l :: l in Lines(text) ==> l != "" && '\n' !in l
    decreases |text|
  {
    var n := Find(text, '\n');
    if text == "" || n < 0 {
    } else {
      LinesPlain(text[n + 1..]);
      assert '\n' !in text[..n];
    }
  }

  /** The entry of a line can be printed again. */
  lemma EntryPrintable(g: string, line: string, eq: nat)
    requires Trimmed(line) && '\n' !in line && line != "" && line[0] != '[' && Find(line, '=') == eq
    requires g == "Translation" ==> StripWhiteSpace(line[..eq]) == "File" || StripWhiteSpace(line[..eq]) == "Context"
    ensures PrintableEntry(g, StripWhiteSpace(line[..eq]), StripWhiteSpace(line[eq + 1..]))
  {
    var k, v := line[..eq], line[eq + 1..];
    StripTrims(k);
    StripTrims(v);
    assert '=' !in k && '\n' !in k && '\n' !in v;
  }

  lemma PrintableUpdate(groups: ConfigGroupMap, g: string, k: string, v: string)
    requires Printable(groups) && g in groups && PrintableEntry(g, k, v)
    ensures Printable(groups[g := groups[g][k := v]])
  {
  }

  lemma ParseLinePrintable(p: Parser, l: string)
    requires Valid(p) && Printable(p.groups) && '\n' !in l
    ensures ParseLine(p, l).Some? ==> Printable(ParseLine(p, l).value.groups)
  {
    var line := StripWhiteSpace(l);
    StripTrims(l);
    if line != "" && line[0] == '[' {
      assert '\n' !in GroupName(line);
    } else if line != "" && p.git.Some? && Find(line, '=') >= 0 {
      var eq, g := Find(line, '='), p.git.value;
      var k, v := StripWhiteSpace(line[..eq]), StripWhiteSpace(line[eq + 1..]);
      if g == "Translation" ==> k == "File" || k == "Context" {
        EntryPrintable(g, line, eq);
        PrintableUpdate(p.groups, g, k, v);
      }
    }
  }

  lemma {:induction false} ParseLinesPrintable(p: Parser, ls: seq<string>)
    requires Valid(p) && Printable(p.groups) && forall l :: l in ls ==> '\n' !in l
    ensures Printable(ParseLines(p, ls).groups)
    decreases |ls|
  {
    if ls == [] {
    } else {
      ParseLinePrintable(p, ls[0]);
      if ParseLine(p, ls[0]).Some? {
        ParseLinesPrintable(ParseLine(p, ls[0]).value, ls[1..]);
      }
    }
  }

  /** Whatever the text, what is read from it can be printed and read back. */
  lemma ReadPrintable(text: string)
    ensures Printable(ReadText(text).groups)
  {
    LinesPlain(text);
    ParseLinesPrintable(START, Lines(text));
  }

  // ---------- the configuration object ----------

  class Config {
    var groups: ConfigGroupMap
    var git: Option<string>
    var trfile: string
    var trcontext: string
    var multilang: bool

    function State(): Parser
      reads this
    {
      Parser(groups, git, trfile, trcontext, multilang)
    }

    constructor ()
      ensures State() == START
    {
      groups, git, trfile, trcontext, multilang := map[], None, "", "", false;
    }

    /** Parses one line; false when the line is refused, and then nothing has changed. */
    method Parse(l: string) returns (ok: bool)
      requires Valid(State())
      modifies this
      ensures ok <==> old(ParseLine(State(), l)).Some?
      ensures State() == if ok then old(ParseLine(State(), l)).value else old(State())
    {
      var line := StripWhiteSpace(l);
      if line != "" && line[0] == '[' {
        var gname := line;
        gname := gname[1..];
        if gname != "" && gname[|gname| - 1] == ']' {
          gname := gname[..|gname| - 1];
        }
        groups := groups[gname := map[]];
        git := Some(gname);
      } else if line != "" {
        if git == None {
          return false;
        }
        var eq := Find(line, '=');
        if eq == -1 {
          return false;
        }
        var key := StripWhiteSpace(line[..eq]);
        var value := StripWhiteSpace(line[eq + 1..]);
        if git.value == "Translation" {
          if key == "File" {
            trfile := value;
          } else if key == "Context" {
            trcontext := value;
          } else if "Comment" <= key {
            return true;
          } else {
            return false;
          }
        }
        var kl := |key|;
        if kl > 1 && key[kl - 1] == ']' && key[kl - 2] != '[' {
          multilang := true;
        }
        groups := groups[git.value := groups[git.value][key := value]];
      }
      return true;
    }

    method Read(text: string)
      requires State() == START
      modifies this
      ensures State() == ReadText(text)
    {
      var list := Lines(text);
      for it := 0 to |list|
        invariant Valid(State()) && ParseLines(State(), list[it..]) == ReadText(text)
      {
        assert list[it..][1..] == list[it + 1..];
        var ok := Parse(list[it]);
        if !ok {
          git := None;
          return;
        }
      }
    }

    method WriteGroupLine(str0: string, ghost p0: Parser, g: string, ghost ok: bool)
      returns (str: string, ghost p: Parser)
      requires ok ==> Printed(str0, p0) && '\n' !in g
      ensures str == str0 + ("[" + g + "]\n")
      ensures ok ==> Printed(str, p) && InGroup(p0, p, g, map[])
    {
      p := p0.(groups := p0.groups[g := map[]], git := Some(g));
      if ok {
        PrintedGroupLine(str0, p0, g, p);
      }
      str := str0 + ("[" + g + "]\n");
    }

    method WriteEntryLine(str0: string, ghost p0: Parser, g: string, k: string, v: string, ghost ok: bool)
      returns (str: string, ghost p: Parser)
      requires ok ==> Printed(str0, p0) && p0.git == Some(g) && PrintableEntry(g, k, v)
      ensures str == str0 + (k + " = " + v + "\n")
      ensures ok ==> Printed(str, p) && p.git == Some(g) && p.groups == p0.groups[g := p0.groups[g][k := v]]
    {
      p := p0;
      if ok {
        p := PrintedEntryLine(str0, p0, g, k, v);
      }
      str := str0 + (k + " = " + v + "\n");
    }

    method WriteGroup(str0: string, ghost p0: Parser, g: string, ghost ok: bool)
      returns (str: string, ghost p: Parser)
      requires g in groups && (ok ==> Printable(groups) && Printed(str0, p0))
      ensures ok ==> Printed(str, p) && p.groups == p0.groups[g := groups[g]]
    {
      str, p := WriteGroupLine(str0, p0, g, ok);
      var group := groups[g];
      var left := group.Keys;
      ghost var done := map[];
      while left != {}
        invariant left <= group.Keys && Done(group, left, done)
        invariant ok ==> Printed(str, p) && InGroup(p0, p, g, done)
        decreases left
      {
        var k :| k in left;
        DoneStep(group, left, done, k);
        if ok {
          InGroupStep(p0, p, g, done, k, group[k]);
        }
        str, p := WriteEntryLine(str, p, g, k, group[k], ok);
        done := done[k := group[k]];
        left := left - {k};
      }
      DoneAll(group, done);
    }

    /** Prints the groups in some order of their names, and the entries of each in some
        order of their keys: whatever the order, the text is read back as the same groups
        exactly if they are printable. */
    method Write() returns (str: string)
      ensures ReadText(str).groups == groups <==> Printable(groups)
    {
      str := "";
      var left := groups.Keys;
      ghost var ok, p := Printable(groups), START;
      StartPrinted();
      while left != {}
        invariant left <= groups.Keys && (ok ==> Printed(str, p) && Done(groups, left, p.groups))
        decreases left
      {
        var g :| g in left;
        if ok {
          DoneStep(groups, left, p.groups, g);
        }
        str, p := WriteGroup(str, p, g, ok);
        left := left - {g};
      }
      if ok {
        DoneAll(groups, p.groups);
        PrintedGroups(str, p);
      }
      ReadPrintable(str);
    }
  }
}
