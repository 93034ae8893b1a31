/** D-Bus type signatures (libdbus-qt2): the parser that turns a signature into prototypes
    (qdbusmarshall.cpp) against the printer that builds a signature from data
    (qdbusdata.cpp). A prototype is reduced to its type; it holds no values. */
module Signatures {

  datatype Kind = Invalid | Bool | Byte | Int16 | UInt16 | Int32 | UInt32 | Int64 | UInt64
                | Double | String | ObjectPath | Variant

  /** What a list or a map holds: a basic type or a container. */
  datatype Elem = Simple(kind: Kind) | Of(data: Data)

  datatype Data = Basic(kind: Kind) | ListOf(item: Elem) | MapOf(key: Kind, value: Elem)
                | StructOf(members: seq<Data>)

  /** The invalid prototype. */
  const NO_DATA: Data := Basic(Invalid)

  // ---------- printing ----------

  function Code(k: Kind): string {
    match k
    case Invalid => ""
    case Bool => "b" case Byte => "y" case Int16 => "n" case UInt16 => "q" case Int32 => "i"
    case UInt32 => "u" case Int64 => "x" case UInt64 => "t" case Double => "d"
    case String => "s" case ObjectPath => "o" case Variant => "v"
  }

  function BuildElem(e: Elem): string
    decreases e
  {
    match e
    case Simple(k) => Code(k)
    case Of(d) => Build(d)
  }

  /** The signature of a prototype. */
  function Build(d: Data): string
    decreases d
  {
    match d
    case Basic(k) => Code(k)
    case ListOf(e) => "a" + BuildElem(e)
    case MapOf(k, e) => "a{" + Code(k) + BuildElem(e) + "}"
    case StructOf(ms) => "(" + BuildAll(ms) + ")"
  }

  function BuildAll(ms: seq<Data>): string
    decreases ms
  {
    if ms == [] then "" else Build(ms[0]) + BuildAll(ms[1..])
  }

  // ---------- parsing ----------

  function KindOf(c: char): Kind {
    match c
    case 'b' => Bool case 'y' => Byte case 'n' => Int16 case 'q' => UInt16 case 'i' => Int32
    case 'u' => UInt32 case 'x' => Int64 case 't' => UInt64 case 'd' => Double
    case 's' => String case 'o' => ObjectPath case 'g' => String case 'v' => Variant
    case _ => Invalid
  }

  predicate MapKey(k: Kind) {
    k in {Byte, Int16, UInt16, Int32, UInt32, Int64, UInt64, String, ObjectPath}
  }

  /** Reading past the end of a string gives the zero character. */
  function At(s: string, i: nat): char { if i < |s| then s[i] else '\0' }

  function Mid(s: string, i: nat): string { if i <= |s| then s[i..] else "" }

  function First(ds: seq<Data>): Data { if ds == [] then NO_DATA else ds[0] }

  function AsElem(d: Data): Elem { if d.Basic? then Simple(d.kind) else Of(d) }

  /** A struct with an invalid member is invalid itself. */
  function MakeStruct(ms: seq<Data>): Data {
    if NO_DATA in ms then NO_DATA else StructOf(ms)
  }

  /** A list of invalid items is invalid itself. */
  function MakeList(e: Elem): Data {
    if e == Simple(Invalid) then NO_DATA else ListOf(e)
  }

  predicate Stops(s: string) { s == "" || s[0] == ')' || s[0] == '}' }

  /** What one round of the parser appends, and what it leaves. */
  function Round(s: string): (r: (seq<Data>, string))
    requires !Stops(s)
    ensures |r.1| < |s|
    decreases |s|, 0
  {
    match s[0]
    case '(' =>
      var (ms, t) := Parse(s[1..]);
      ([MakeStruct(ms)], Mid(t, 1))
    case '{' =>
      var key, value := KindOf(At(s, 1)), KindOf(At(s, 2));
      if value != Invalid then
        (if MapKey(key) then [MapOf(key, Simple(value))] else [], Mid(Mid(s, 3), 1))
      else
        var (vs, t) := Parse(Mid(s, 2));
        (if MapKey(key) then [MapOf(key, AsElem(First(vs)))] else [], Mid(t, 1))
    case 'a' =>
      var element := KindOf(At(s, 1));
      if element != Invalid then ([ListOf(Simple(element))], s[2..])
      else
        var (es, t) := Parse(s[1..]);
        ([if At(s, 1) != '{' then MakeList(AsElem(First(es))) else First(es)], t)
    case _ => ([NO_DATA], s[1..])
  }

  /** The prototypes the parser returns, and the rest it leaves in the buffer. */
  function Parse(s: string): (r: (seq<Data>, string))
    ensures |r.1| <= |s|
    decreases |s|, 1
  {
    if Stops(s) then ([], s)
    else
      var (d, t) := Round(s);
      var (ds, u) := Parse(t);
      (d + ds, u)
  }

  /** What is in `result` and what is still to be parsed make up the whole. */
  predicate Parsed(result: seq<Data>, rest: string, signature: string) {
    (result + Parse(rest).0, Parse(rest).1) == Parse(signature)
  }

  lemma ParsedStep(result: seq<Data>, rest: string, signature: string)
    requires !Stops(rest) && Parsed(result, rest, signature)
    ensures Parsed(result + Round(rest).0, Round(rest).1, signature)
  {
    var (d, t) := Round(rest);
    assert result + (d + Parse(t).0) == result + d + Parse(t).0;
  }

  method ParseSignature(signature: string) returns (result: seq<Data>, rest: string)
    ensures (result, rest) == Parse(signature)
    decreases |signature|
  {
    result := [];
    rest := signature;
    assert Parsed(result, rest, signature) by { assert [] + Parse(signature).0 == Parse(signature).0; }
    while !Stops(rest)
      invariant |rest| <= |signature| && Parsed(result, rest, signature)
      decreases |rest|
    {
      var d, t := ParseRound(rest);
      ParsedStep(result, rest, signature);
      result := result + d;
      rest := t;
    }
    assert result + [] == result;
  }

  /** The body of the loop. */
  method ParseRound(s: string) returns (d: seq<Data>, rest: string)
    requires !Stops(s)
    ensures (d, rest) == Round(s)
    decreases |s|, 0
  {
    if s[0] == '(' {
      var memberList;
      memberList, rest := ParseSignature(s[1..]);
      d := [MakeStruct(memberList)];
      rest := Mid(rest, 1);
    } else if s[0] == '{' {
      var keyType := KindOf(At(s, 1));
      var valueType := KindOf(At(s, 2));
      d := [];
      if valueType != Invalid {
        if MapKey(keyType) {
          d := [MapOf(keyType, Simple(valueType))];
        }
        rest := Mid(s, 3);
      } else {
        var valueContainer;
        valueContainer, rest := ParseSignature(Mid(s, 2));
        if MapKey(keyType) {
          d := [MapOf(keyType, AsElem(First(valueContainer)))];
        }
      }
      rest := Mid(rest, 1);
    } else if s[0] == 'a' {
      var elementType := KindOf(At(s, 1));
      if elementType != Invalid {
        d := [ListOf(Simple(elementType))];
        rest := s[2..];
      } else {
        var isArray := At(s[1..], 0) != '{';
        var elementContainer;
        elementContainer, rest := ParseSignature(s[1..]);
        d := if isArray then [MakeList(AsElem(First(elementContainer)))] else [First(elementContainer)];
      }
    } else {
      d := [NO_DATA];
      rest := s[1..];
    }
  }

  method BuildDBusSignature(d: Data) returns (signature: string)
    ensures signature == Build(d)
    decreases d
  {
    match d {
      case Basic(k) => signature := Code(k);
      case ListOf(item) =>
        signature := "a";
        match item {
          case Of(c) =>
            var inner := BuildDBusSignature(c);
            signature := signature + inner;
          case Simple(k) =>
            signature := signature + Code(k);
        }
      case MapOf(key, value) =>
        signature := "a{" + Code(key);
        match value {
          case Of(c) =>
            var inner := BuildDBusSignature(c);
            signature := signature + inner;
          case Simple(k) =>
            signature := signature + Code(k);
        }
        signature := signature + "}";
      case StructOf(ms) =>
        signature := "(";
        for i := 0 to |ms|
          invariant signature + BuildAll(ms[i..]) == "(" + BuildAll(ms)
        {
          var inner := BuildDBusSignature(ms[i]);
          assert ms[i..][1..] == ms[i + 1..];
          assert signature + (inner + BuildAll(ms[i + 1..])) == signature + inner + BuildAll(ms[i + 1..]);
          signature := signature + inner;
        }
        assert ms[|ms|..] == [];
        signature := signature + ")";
    }
  }

  // ---------- what is read back ----------

  /** A prototype after which the parser goes on to the next one at the same level. After any
      other it has already parsed, and dropped, what follows. */
  predicate Keeps(d: Data) {
    d.Basic? || d.StructOf? || (d.ListOf? && d.item.Simple?)
  }

  /** The prototypes the program can build. */
  predicate Typed(d: Data)
    decreases d
  {
    match d
    case Basic(k) => k != Invalid
    case ListOf(e) => TypedElem(e)
    case MapOf(k, e) => MapKey(k) && TypedElem(e)
    case StructOf(ms) => TypedAll(ms)
  }

  predicate TypedElem(e: Elem)
    decreases e
  {
    match e
    case Simple(k) => k != Invalid
    case Of(d) => !d.Basic? && Typed(d)
  }

  predicate TypedAll(ms: seq<Data>)
    decreases ms
  {
    ms == [] || (Typed(ms[0]) && TypedAll(ms[1..]))
  }

  /** The prototypes that come back from their signature: array, map and struct types without
      basic members, and structs none of whose members but the last loses its successors. */
  predicate Formed(d: Data)
    decreases d
  {
    match d
    case Basic(_) => false
    case ListOf(e) => FormedElem(e)
    case MapOf(k, e) => MapKey(k) && FormedElem(e)
    case StructOf(ms) => FormedAll(ms)
  }

  predicate FormedElem(e: Elem)
    decreases e
  {
    match e
    case Simple(k) => k != Invalid
    case Of(d) => Formed(d)
  }

  predicate FormedAll(ms: seq<Data>)
    decreases ms
  {
    ms == [] || (Formed(ms[0]) && (|ms| == 1 || Keeps(ms[0])) && FormedAll(ms[1..]))
  }

  /** What comes back for a prototype: basic types are lost, a struct that loses a member is
      lost itself, and so is an array of what is lost. */
  function Read(d: Data): Data
    decreases d
  {
    match d
    case Basic(_) => NO_DATA
    case ListOf(e) => MakeList(ReadElem(e))
    case MapOf(k, e) => MapOf(k, ReadElem(e))
    case StructOf(ms) => MakeStruct(ReadAll(ms))
  }

  function ReadElem(e: Elem): Elem
    decreases e
  {
    match e
    case Simple(_) => e
    case Of(d) => AsElem(Read(d))
  }

  /** The members up to the first that swallows its successors. */
  function ReadAll(ms: seq<Data>): seq<Data>
    decreases ms
  {
    if ms == [] then []
    else [Read(ms[0])] + if Keeps(ms[0]) then ReadAll(ms[1..]) else []
  }

  lemma {:induction false} FormedTyped(d: Data)
    requires Formed(d)
    ensures Typed(d)
    decreases d
  {
    match d
    case ListOf(e) => if e.Of? { FormedTyped(e.data); }
    case MapOf(_, e) => if e.Of? { FormedTyped(e.data); }
    case StructOf(ms) => FormedAllTyped(ms);
  }

  lemma {:induction false} FormedAllTyped(ms: seq<Data>)
    requires FormedAll(ms)
    ensures TypedAll(ms)
    decreases ms
  {
    if ms == [] {
    } else {
      FormedTyped(ms[0]);
      FormedAllTyped(ms[1..]);
    }
  }

  /** Exactly the formed prototypes come back; of any other not even the signature does. */
  lemma {:induction false} ReadExact(d: Data)
    requires Typed(d)
    ensures Read(d) == d <==> Formed(d)
    ensures |Build(Read(d))| <= |Build(d)|
    ensures Build(Read(d)) == Build(d) <==> Formed(d)
    ensures |Build(Read(d))| == |Build(d)| ==> Formed(d)
    decreases d
  {
    match d
    case Basic(_) =>
    case ListOf(e) => ReadElemExact(e);
    case MapOf(_, e) => ReadElemExact(e);
    case StructOf(ms) => ReadAllExact(ms);
  }

  lemma {:induction false} ReadElemExact(e: Elem)
    requires TypedElem(e)
    ensures ReadElem(e) == e <==> FormedElem(e)
    ensures |BuildElem(ReadElem(e))| <= |BuildElem(e)|
    ensures |BuildElem(ReadElem(e))| == |BuildElem(e)| ==> FormedElem(e)
    decreases e
  {
    match e
    case Simple(_) =>
    case Of(d) => ReadExact(d);
  }

  lemma {:induction false} ReadAllExact(ms: seq<Data>)
    requires TypedAll(ms)
    ensures ReadAll(ms) == ms <==> FormedAll(ms)
    ensures FormedAll(ms) ==> NO_DATA !in ms
    ensures |BuildAll(ReadAll(ms))| <= |BuildAll(ms)|
    ensures |BuildAll(ReadAll(ms))| == |BuildAll(ms)| ==> FormedAll(ms)
    decreases ms
  {
    if ms == [] {
    } else {
      ReadExact(ms[0]);
      ReadAllExact(ms[1..]);
      assert ms == [ms[0]] + ms[1..];
      var back := if Keeps(ms[0]) then ReadAll(ms[1..]) else [];
      assert ([Read(ms[0])] + back)[1..] == back;
      if ms[1..] != [] {
        assert |BuildAll(ms[1..])| > 0;
      }
    }
  }

  /** The members the parser gets to. */
  predicate Reached(ms: seq<Data>, i: nat)
    requires i < |ms|
  {
    forall j :: 0 <= j < i ==> Keeps(ms[j])
  }

  lemma ReachedNext(ms: seq<Data>, i: nat)
    requires i < |ms| - 1
    ensures Reached(ms, i + 1) <==> Keeps(ms[0]) && Reached(ms[1..], i)
  {
    var rest := ms[1..];
    forall j | 0 <= j < i
      ensures Keeps(rest[j]) <==> Keeps(ms[j + 1])
    {
    }
    forall j | 0 < j < i + 1
      ensures Keeps(ms[j]) <==> Keeps(rest[j - 1])
    {
    }
  }

  /** A struct is lost exactly if a member the parser gets to is. */
  lemma {:induction false} StructLost(ms: seq<Data>)
    ensures Read(StructOf(ms)) == NO_DATA
            <==> exists i :: 0 <= i < |ms| && Reached(ms, i) && Read(ms[i]) == NO_DATA
  {
    MembersLost(ms);
  }

  lemma {:induction false} MembersLost(ms: seq<Data>)
    ensures NO_DATA in ReadAll(ms)
            <==> exists i :: 0 <= i < |ms| && Reached(ms, i) && Read(ms[i]) == NO_DATA
  {
    if ms == [] {
    } else {
      MembersLost(ms[1..]);
      assert Reached(ms, 0);
      if i :| 0 <= i < |ms| && Reached(ms, i) && Read(ms[i]) == NO_DATA && i > 0 {
        ReachedNext(ms, i - 1);
        assert Reached(ms[1..], i - 1) && Read(ms[1..][i - 1]) == NO_DATA;
      }
      if i :| 0 <= i < |ms| - 1 && Reached(ms[1..], i) && Read(ms[1..][i]) == NO_DATA && Keeps(ms[0]) {
        ReachedNext(ms, i);
        assert Reached(ms, i + 1) && Read(ms[i + 1]) == NO_DATA;
      }
    }
  }

  // ---------- the parser on printed signatures ----------

  /** What the parser makes of the signature of d followed by any rest. */
  function After(d: Data, rest: string): (seq<Data>, string) {
    ([Read(d)] + if Keeps(d) then Parse(rest).0 else [], Parse(rest).1)
  }

  lemma CodeKind(k: Kind)
    requires k != Invalid
    ensures |Code(k)| == 1 && KindOf(Code(k)[0]) == k && Code(k)[0] !in "a(){}"
  {
  }

  lemma FirstChar(d: Data)
    requires Typed(d) && !d.Basic?
    ensures Build(d) != "" && Build(d)[0] in "a(" && KindOf(Build(d)[0]) == Invalid
  {
  }

  /** The parser leaves only what it stops at. */
  lemma {:induction false} ParseStops(s: string)
    ensures Stops(Parse(s).1) && Parse(Parse(s).1) == ([], Parse(s).1)
    decreases |s|
  {
    if Stops(s) {
    } else {
      ParseStops(Round(s).1);
    }
  }

  /** A round that takes everything up to where the parser stops is the last. */
  lemma ParseThen(s: string, d: Data, rest: string)
    requires !Stops(s) && Round(s) == ([Read(d)], Parse(rest).1) && !Keeps(d)
    ensures Parse(s) == After(d, rest)
  {
    ParseStops(rest);
  }

  lemma Prefixed(t: string, rest: string)
    requires t != ""
    ensures var s := "a" + t + rest; |s| > 1 && s[0] == 'a' && s[1] == t[0] && s[1..] == t + rest
  {
  }

  lemma RoundArray(s: string)
    requires |s| > 0 && s[0] == 'a' && KindOf(At(s, 1)) == Invalid
    ensures var (es, t) := Parse(s[1..]);
            Round(s) == ([if At(s, 1) != '{' then MakeList(AsElem(First(es))) else First(es)], t)
  {
  }

  lemma ParseArray(s: string, d: Data, rest: string)
    requires |s| > 1 && s[0] == 'a' && s[1] in "a(" && Parse(s[1..]) == After(d, rest)
    ensures Parse(s) == After(ListOf(Of(d)), rest)
  {
    assert KindOf(s[1]) == Invalid;
    RoundArray(s);
    assert First(After(d, rest).0) == Read(d);
    ParseThen(s, ListOf(Of(d)), rest);
  }

  lemma ArrayOf(d: Data, t: string, rest: string)
    requires t != "" && t[0] in "a(" && Parse(t + rest) == After(d, rest)
    ensures Parse("a" + t + rest) == After(ListOf(Of(d)), rest)
  {
    Prefixed(t, rest);
    ParseArray("a" + t + rest, d, rest);
  }

  lemma MapInArray(s: string, inner: string, d: Data, rest: string)
    requires |s| >= 2 && s[0] == 'a' && s[1] == '{' && s[1..] == inner
    requires Round(inner) == ([Read(d)], rest)
    requires !Keeps(d)
    ensures Parse(s) == After(d, rest)
  {
    assert First([Read(d)] + Parse(rest).0) == Read(d);
    assert Round(s) == ([Read(d)], Parse(rest).1);
    ParseThen(s, d, rest);
  }

  lemma Enclosed(ms: seq<Data>, t: string, rest: string)
    requires Parse(t + (")" + rest)) == (ReadAll(ms), ")" + rest)
    ensures Parse("(" + t + ")" + rest) == After(StructOf(ms), rest)
  {
    var s := "(" + t + ")" + rest;
    assert s[1..] == t + (")" + rest);
    assert Mid(")" + rest, 1) == rest;
    assert Round(s) == ([MakeStruct(ReadAll(ms))], rest);
  }

  lemma BuildAllSplit(ms: seq<Data>, rest: string)
    requires ms != []
    ensures BuildAll(ms) + rest == Build(ms[0]) + (BuildAll(ms[1..]) + rest)
  {
  }

  lemma ParseBasic(k: Kind, rest: string)
    requires k != Invalid
    ensures Parse(Code(k) + rest) == After(Basic(k), rest)
  {
    CodeKind(k);
    var s := Code(k) + rest;
    assert s[1..] == rest;
    assert Round(s) == ([NO_DATA], rest);
  }

  /** The parser on a printed signature, whatever follows it. */
  lemma {:induction false} ParseBuild(d: Data, rest: string)
    requires Typed(d)
    ensures Parse(Build(d) + rest) == After(d, rest)
    decreases d
  {
    match d
    case Basic(k) => ParseBasic(k, rest);
    case ListOf(e) => ParseList(e, rest);
    case MapOf(k, e) => ParseMap(k, e, rest);
    case StructOf(ms) => ParseStruct(ms, rest);
  }

  lemma {:induction false} ParseList(e: Elem, rest: string)
    requires TypedElem(e)
    ensures Parse(Build(ListOf(e)) + rest) == After(ListOf(e), rest)
    decreases e
  {
    match e
    case Simple(k) =>
      CodeKind(k);
      var s := Build(ListOf(e)) + rest;
      assert s[2..] == rest;
    case Of(d) =>
      FirstChar(d);
      ParseBuild(d, rest);
      assert BuildElem(e) == Build(d);
      ArrayOf(d, Build(d), rest);
  }

  lemma {:induction false} ParseMap(k: Kind, e: Elem, rest: string)
    requires MapKey(k) && TypedElem(e)
    ensures Parse(Build(MapOf(k, e)) + rest) == After(MapOf(k, e), rest)
    decreases e
  {
    var s := Build(MapOf(k, e)) + rest;
    var inner := "{" + Code(k) + BuildElem(e) + "}" + rest;
    CodeKind(k);
    assert s[1..] == inner;
    assert inner[1] == Code(k)[0];
    match e
    case Simple(v) =>
      CodeKind(v);
      assert inner[2] == Code(v)[0];
      assert Mid(Mid(inner, 3), 1) == rest;
      MapInArray(s, inner, MapOf(k, e), rest);
    case Of(d) =>
      FirstChar(d);
      assert inner[2] == Build(d)[0];
      assert Mid(inner, 2) == Build(d) + ("}" + rest);
      ParseBuild(d, "}" + rest);
      assert Mid("}" + rest, 1) == rest;
      MapInArray(s, inner, MapOf(k, e), rest);
  }

  lemma EntryRound(k: Kind, e: Elem, rest: string)
    requires k != Invalid && TypedElem(e)
    ensures var s := "{" + Code(k) + BuildElem(e) + "}" + rest;
            !Stops(s) && Round(s) == (if MapKey(k) then [MapOf(k, ReadElem(e))] else [], rest)
  {
    var s := "{" + Code(k) + BuildElem(e) + "}" + rest;
    CodeKind(k);
    assert s[1] == Code(k)[0];
    match e
    case Simple(v) =>
      CodeKind(v);
      assert s[2] == Code(v)[0];
      assert Mid(Mid(s, 3), 1) == rest;
    case Of(d) =>
      FirstChar(d);
      assert s[2] == Build(d)[0];
      assert Mid(s, 2) == Build(d) + ("}" + rest);
      ParseBuild(d, "}" + rest);
      assert Mid("}" + rest, 1) == rest;
  }

  lemma EntryParses(inner: string, maps: seq<Data>, rest: string)
    requires !Stops(inner) && Round(inner) == (maps, rest)
    ensures Parse(inner) == (maps + Parse(rest).0, Parse(rest).1)
    ensures First(maps + Parse(rest).0) == if maps == [] then First(Parse(rest).0) else maps[0]
  {
    assert maps == [] ==> maps + Parse(rest).0 == Parse(rest).0;
  }

  lemma LastRound(s: string, d: Data, t: string)
    requires !Stops(s) && Round(s) == ([d], t) && Parse(t) == ([], t)
    ensures Parse(s) == ([d], t)
  {
    assert [d] + [] == [d];
  }

  /** Which keys a map may have, for basic and container values alike: with any of the other
      three basic types the map is dropped, and what follows it is read in its place. */
  lemma KeyExact(k: Kind, e: Elem, rest: string)
    requires k != Invalid && TypedElem(e)
    ensures Parse("a{" + Code(k) + BuildElem(e) + "}" + rest)
            == if k !in {Bool, Double, Variant} then ([MapOf(k, ReadElem(e))], Parse(rest).1)
               else ([First(Parse(rest).0)], Parse(rest).1)
  {
    var s := "a{" + Code(k) + BuildElem(e) + "}" + rest;
    var inner := "{" + Code(k) + BuildElem(e) + "}" + rest;
    assert s[1..] == inner && s[1] == '{';
    EntryRound(k, e, rest);
    var maps := if MapKey(k) then [MapOf(k, ReadElem(e))] else [];
    EntryParses(inner, maps, rest);
    RoundArray(s);
    ParseStops(rest);
    LastRound(s, First(maps + Parse(rest).0), Parse(rest).1);
  }

  /** Of a map alone, with a key that is not supported, nothing is left. */
  lemma KeyAlone(k: Kind, e: Elem)
    requires k != Invalid && TypedElem(e)
    ensures Parse("a{" + Code(k) + BuildElem(e) + "}")
            == (if k in {Bool, Double, Variant} then [NO_DATA] else [MapOf(k, ReadElem(e))], "")
  {
    KeyExact(k, e, "");
    assert "a{" + Code(k) + BuildElem(e) + "}" + "" == "a{" + Code(k) + BuildElem(e) + "}";
  }

  lemma {:induction false} ParseStruct(ms: seq<Data>, rest: string)
    requires TypedAll(ms)
    ensures Parse(Build(StructOf(ms)) + rest) == After(StructOf(ms), rest)
    decreases ms, 1
  {
    ParseMembers(ms, ")" + rest);
    Enclosed(ms, BuildAll(ms), rest);
  }

  lemma {:induction false} ParseMembers(ms: seq<Data>, rest: string)
    requires TypedAll(ms) && Stops(rest)
    ensures Parse(BuildAll(ms) + rest) == (ReadAll(ms), rest)
    decreases ms, 0
  {
    if ms == [] {
      assert BuildAll(ms) + rest == rest;
    } else {
      BuildAllSplit(ms, rest);
      ParseMembers(ms[1..], rest);
      ParseBuild(ms[0], BuildAll(ms[1..]) + rest);
    }
  }

  /** One signature, followed by nothing or by a closing bracket, leaves the rest untouched.
      It is restored exactly for the formed prototypes. */
  lemma SignatureRoundTrip(d: Data, rest: string)
    requires Typed(d) && Stops(rest)
    ensures Parse(Build(d) + rest) == ([Read(d)], rest)
    ensures Parse(Build(d) + rest) == ([d], rest) <==> Formed(d)
    ensures Build(Parse(Build(d) + rest).0[0]) == Build(d) <==> Formed(d)
  {
    ParseBuild(d, rest);
    ReadExact(d);
    assert [Read(d)] + [] == [Read(d)];
    assert [d][0] == d;
  }

  /** Two signatures in a row come back as two prototypes exactly when both are restored and
      the first keeps its successors: an array of basic elements or a struct. */
  lemma TwoInARow(d: Data, e: Data)
    requires Typed(d) && Typed(e)
    ensures Parse(Build(d) + Build(e)).0 == [d, e] <==> Formed(d) && Formed(e) && Keeps(d)
  {
    assert Build(e) + "" == Build(e);
    SignatureRoundTrip(e, "");
    ParseBuild(d, Build(e));
    ReadExact(d);
    ReadExact(e);
    var r := [Read(d)] + if Keeps(d) then [Read(e)] else [];
    assert Parse(Build(d) + Build(e)).0 == r;
    assert r[0] == Read(d) && (Keeps(d) ==> r[1] == Read(e));
  }

  // ---------- signatures are unambiguous ----------

  lemma HeadOf(d: Data)
    requires Typed(d)
    ensures Build(d) != "" && Build(d)[0] !in "){}"
    ensures Build(d)[0] == (match d case Basic(k) => Code(k)[0] case StructOf(_) => '(' case _ => 'a')
    ensures d.Basic? <==> KindOf(Build(d)[0]) != Invalid
  {
    if d.Basic? {
      CodeKind(d.kind);
    }
  }

  lemma HeadOfElem(e: Elem)
    requires TypedElem(e)
    ensures BuildElem(e) != "" && BuildElem(e)[0] !in "){}"
    ensures e.Simple? ==> BuildElem(e) == [BuildElem(e)[0]] && KindOf(BuildElem(e)[0]) == e.kind
    ensures e.Of? ==> KindOf(BuildElem(e)[0]) == Invalid
  {
    match e
    case Simple(k) => CodeKind(k);
    case Of(d) => HeadOf(d);
  }

  lemma ListTail(e: Elem, r: string)
    ensures (Build(ListOf(e)) + r)[1..] == BuildElem(e) + r
  {
  }

  lemma MapTail(k: Kind, e: Elem, r: string)
    requires MapKey(k)
    ensures var s := Build(MapOf(k, e)) + r;
            |s| > 3 && s[1..][0] == '{' && KindOf(s[2]) == k && s[3..] == BuildElem(e) + ("}" + r)
  {
    CodeKind(k);
    var s := Build(MapOf(k, e)) + r;
    assert s[2] == Code(k)[0];
  }

  lemma StructTail(ms: seq<Data>, r: string)
    ensures (Build(StructOf(ms)) + r)[1..] == BuildAll(ms) + (")" + r)
  {
  }

  lemma MembersHead(ms: seq<Data>, r: string)
    requires TypedAll(ms)
    ensures (BuildAll(ms) + (")" + r))[0] == ')' <==> ms == []
  {
    if ms != [] {
      HeadOf(ms[0]);
      assert (BuildAll(ms) + (")" + r))[0] == Build(ms[0])[0];
    }
  }

  /** Of two signatures neither is the beginning of the other. */
  lemma {:induction false} BuildUnambiguous(d: Data, e: Data, r: string, q: string)
    requires Typed(d) && Typed(e) && Build(d) + r == Build(e) + q
    ensures d == e && r == q
    decreases d
  {
    HeadOf(d);
    HeadOf(e);
    assert (Build(d) + r)[0] == Build(d)[0] && (Build(e) + q)[0] == Build(e)[0];
    match (d, e)
    case (Basic(k), Basic(l)) =>
      CodeKind(k);
      CodeKind(l);
      assert (Build(d) + r)[1..] == r && (Build(e) + q)[1..] == q;
    case (ListOf(x), ListOf(y)) =>
      ListTail(x, r);
      ListTail(y, q);
      ElemUnambiguous(x, y, r, q);
    case (MapOf(k, x), MapOf(l, y)) =>
      MapTail(k, x, r);
      MapTail(l, y, q);
      ElemUnambiguous(x, y, "}" + r, "}" + q);
      assert ("}" + r)[1..] == r && ("}" + q)[1..] == q;
    case (ListOf(x), MapOf(l, y)) =>
      ListTail(x, r);
      MapTail(l, y, q);
      HeadOfElem(x);
    case (MapOf(k, x), ListOf(y)) =>
      MapTail(k, x, r);
      ListTail(y, q);
      HeadOfElem(y);
    case (StructOf(ms), StructOf(ns)) =>
      StructTail(ms, r);
      StructTail(ns, q);
      MembersUnambiguous(ms, ns, r, q);
    case _ =>
  }

  lemma {:induction false} ElemUnambiguous(x: Elem, y: Elem, r: string, q: string)
    requires TypedElem(x) && TypedElem(y) && BuildElem(x) + r == BuildElem(y) + q
    ensures x == y && r == q
    decreases x
  {
    HeadOfElem(x);
    HeadOfElem(y);
    assert (BuildElem(x) + r)[0] == BuildElem(x)[0] && (BuildElem(y) + q)[0] == BuildElem(y)[0];
    match (x, y)
    case (Of(d), Of(e)) => BuildUnambiguous(d, e, r, q);
    case (Simple(_), Simple(_)) =>
      assert (BuildElem(x) + r)[1..] == r && (BuildElem(y) + q)[1..] == q;
    case _ =>
  }

  lemma {:induction false} MembersUnambiguous(ms: seq<Data>, ns: seq<Data>, r: string, q: string)
    requires TypedAll(ms) && TypedAll(ns)
    requires BuildAll(ms) + (")" + r) == BuildAll(ns) + (")" + q)
    ensures ms == ns && r == q
    decreases ms
  {
    MembersHead(ms, r);
    MembersHead(ns, q);
    if ms == [] || ns == [] {
      assert (")" + r)[1..] == r && (")" + q)[1..] == q;
      assert BuildAll(ms) + (")" + r) == ")" + r && BuildAll(ns) + (")" + q) == ")" + q;
    } else {
      BuildAllSplit(ms, ")" + r);
      BuildAllSplit(ns, ")" + q);
      BuildUnambiguous(ms[0], ns[0], BuildAll(ms[1..]) + (")" + r), BuildAll(ns[1..]) + (")" + q));
      MembersUnambiguous(ms[1..], ns[1..], r, q);
      assert ms == [ms[0]] + ms[1..] && ns == [ns[0]] + ns[1..];
    }
  }

  /** No two prototypes share a signature. */
  lemma SignaturesDiffer(d: Data, e: Data)
    requires Typed(d) && Typed(e) && Build(d) == Build(e)
    ensures d == e
  {
    BuildUnambiguous(d, e, "", "");
  }

  // ---------- the signature type ----------

  function AsRead(c: char): char { if c == 'g' then 's' else c }

  /** A signature with the code of signatures replaced by that of strings. */
  function Strings(s: string): (r: string)
    ensures |r| == |s| && forall i :: 0 <= i < |s| ==> r[i] == AsRead(s[i])
  {
    seq(|s|, i requires 0 <= i < |s| => AsRead(s[i]))
  }

  lemma StringsMid(s: string, i: nat)
    ensures Mid(Strings(s), i) == Strings(Mid(s, i))
    ensures KindOf(At(Strings(s), i)) == KindOf(At(s, i))
    ensures At(Strings(s), i) == AsRead(At(s, i))
  {
  }

  lemma StringsSame(s: string)
    ensures Strings(s) == s <==> 'g' !in s
  {
    if 'g' in s {
      var i :| 0 <= i < |s| && s[i] == 'g';
      assert Strings(s)[i] == 's';
    }
  }

  /** The parser does not tell signatures from strings. */
  lemma {:induction false} ParseStrings(s: string)
    ensures Parse(Strings(s)) == (Parse(s).0, Strings(Parse(s).1))
    decreases |s|, 1
  {
    if Stops(s) {
    } else {
      RoundStrings(s);
      ParseStrings(Round(s).1);
    }
  }

  lemma {:induction false} RoundStrings(s: string)
    requires !Stops(s)
    ensures !Stops(Strings(s)) && Round(Strings(s)) == (Round(s).0, Strings(Round(s).1))
    decreases |s|, 0
  {
    StringsMid(s, 1);
    if s[0] == '(' {
      ParseStrings(Mid(s, 1));
      StringsMid(Parse(Mid(s, 1)).1, 1);
    } else if s[0] == 'a' {
      ParseStrings(Mid(s, 1));
      StringsMid(s, 2);
    } else if s[0] == '{' {
      ParseStrings(Mid(s, 2));
      EntryStrings(s);
    }
  }

  lemma EntryStrings(s: string)
    requires s != "" && s[0] == '{'
    requires Parse(Strings(Mid(s, 2))) == (Parse(Mid(s, 2)).0, Strings(Parse(Mid(s, 2)).1))
    ensures Round(Strings(s)) == (Round(s).0, Strings(Round(s).1))
  {
    StringsMid(s, 1);
    StringsMid(s, 2);
    StringsMid(s, 3);
    StringsMid(Mid(s, 3), 1);
    StringsMid(Parse(Mid(s, 2)).1, 1);
  }

  /** A signature with signatures in it is read as if they were strings, so that it is
      restored exactly if there are none and its prototype is one that comes back. */
  lemma GIsRead(s: string, d: Data)
    requires Typed(d) && Strings(s) == Build(d)
    ensures Parse(s) == ([Read(d)], "")
    ensures Build(Parse(s).0[0]) == s <==> 'g' !in s && Formed(d)
  {
    SignatureRoundTrip(d, "");
    assert Build(d) + "" == Build(d);
    ReadExact(d);
    ParseStrings(s);
    StringsSame(s);
  }
}
