/** The datebook's two event lists, its file and its journal (library/datebookdb.cpp).
    An event is reduced to what the lists look at: its uid, whether it repeats, the creation
    time of its pattern, and a number standing for all its other fields. */
module Journals {
  import opened Options

  datatype Event = Event(uid: int, repeats: bool, createTime: int, fields: int)

  const DEFAULT_EVENT := Event(0, false, -1, 0)

  /** Equality of events: the same nonzero uid, or the same everything else. */
  predicate Same(a: Event, b: Event) {
    (a.uid != 0 && b.uid == a.uid)
    || (a.repeats == b.repeats && a.createTime == b.createTime && a.fields == b.fields)
  }

  datatype Lists = Lists(events: seq<Event>, repeats: seq<Event>)

  datatype Action = Add | Remove | Replace

  /** A line of the file or the journal; key and origHadRepeat are -1 when absent. */
  datatype Entry = Entry(ev: Event, action: Action, key: int, origHadRepeat: int)

  // ---------- list operations ----------

  function FindIndex(s: seq<Event>, e: Event): (k: int)
    ensures -1 <= k < |s|
    ensures k >= 0 ==> Same(s[k], e) && forall i :: 0 <= i < k ==> !Same(s[i], e)
    ensures k < 0 ==> forall i :: 0 <= i < |s| ==> !Same(s[i], e)
  {
    if s == [] then -1
    else if Same(s[0], e) then 0
    else
      var r := FindIndex(s[1..], e);
      assert forall i :: 1 <= i < |s| ==> s[i] == s[1..][i - 1];
      if r < 0 then -1 else r + 1
  }

  function FindTime(s: seq<Event>, t: int): (k: int)
    ensures -1 <= k < |s|
    ensures k >= 0 ==> s[k].createTime == t && forall i :: 0 <= i < k ==> s[i].createTime != t
    ensures k < 0 ==> forall i :: 0 <= i < |s| ==> s[i].createTime != t
  {
    if s == [] then -1
    else if s[0].createTime == t then 0
    else
      var r := FindTime(s[1..], t);
      assert forall i :: 1 <= i < |s| ==> s[i] == s[1..][i - 1];
      if r < 0 then -1 else r + 1
  }

  function RemoveAt(s: seq<Event>, k: int): seq<Event> {
    if 0 <= k < |s| then s[..k] + s[k + 1..] else s
  }

  /** Every element equal to e goes. */
  function RemoveAll(s: seq<Event>, e: Event): seq<Event> {
    if s == [] then []
    else (if Same(s[0], e) then [] else [s[0]]) + RemoveAll(s[1..], e)
  }

  // ---------- the effect of the operations on the lists ----------

  function Added(l: Lists, ev: Event): Lists {
    if ev.repeats then l.(repeats := l.repeats + [ev]) else l.(events := l.events + [ev])
  }

  function Removed(l: Lists, ev: Event): Lists {
    if ev.repeats then l.(repeats := RemoveAt(l.repeats, FindTime(l.repeats, ev.createTime)))
    else l.(events := RemoveAt(l.events, FindIndex(l.events, ev)))
  }

  /** The event a repeating one is an occurrence of. */
  function Orig(l: Lists, prior: Event): Event {
    var o := FindTime(l.repeats, prior.createTime);
    if o < 0 then DEFAULT_EVENT else l.repeats[o]
  }

  function Edited(l: Lists, prior: Event, edited: Event): Lists {
    var l' := if prior.repeats && edited.repeats
              then l.(repeats := RemoveAll(l.repeats, Orig(l, prior)))
              else Removed(l, prior);
    Added(l', edited)
  }

  function EditKey(l: Lists, prior: Event): int {
    if !prior.repeats then FindIndex(l.events, prior)
    else if FindTime(l.repeats, prior.createTime) < 0 then 0
    else FindIndex(l.repeats, Orig(l, prior))
  }

  function EditEntry(l: Lists, prior: Event, edited: Event): Entry {
    Entry(edited, Replace, EditKey(l, prior), if prior.repeats then 1 else 0)
  }

  // ---------- replay ----------

  /** One line read back; None where the code would look past the end of a list. */
  function Replayed(l: Lists, x: Entry): Option<Lists> {
    match x.action
    case Add => Some(Added(l, x.ev))
    case Remove => Some(Removed(l, x.ev))
    case Replace =>
      if x.key > -1 && x.origHadRepeat > -1 then
        var s := if x.origHadRepeat != 0 then l.repeats else l.events;
        if x.key < |s| then Some(Added(Removed(l, s[x.key]), x.ev)) else None
      else Some(l)
  }

  function ReplayAll(l: Lists, xs: seq<Entry>): Option<Lists> {
    if xs == [] then Some(l)
    else
      match ReplayAll(l, xs[..|xs| - 1])
      case None => None
      case Some(m) => Replayed(m, xs[|xs| - 1])
  }

  function FileEntries(s: seq<Event>): seq<Entry> {
    seq(|s|, i requires 0 <= i < |s| => Entry(s[i], Add, -1, -1))
  }

  const EMPTY := Lists([], [])

  /** What the program would read at its next start. */
  function Stored(file: seq<Event>, journal: seq<Entry>): Option<Lists> {
    ReplayAll(EMPTY, FileEntries(file) + journal)
  }

  predicate AllRepeat(s: seq<Event>, b: bool) {
    forall i :: 0 <= i < |s| ==> s[i].repeats == b
  }

  /** Each list holds its own kind of event. */
  predicate Filed(l: Lists) {
    AllRepeat(l.events, false) && AllRepeat(l.repeats, true)
  }

  lemma {:induction false} RemoveAllKind(s: seq<Event>, e: Event, b: bool)
    requires AllRepeat(s, b)
    ensures AllRepeat(RemoveAll(s, e), b)
  {
    if s == [] {
    } else {
      assert s[0].repeats == b;
      RemoveAllKind(s[1..], e, b);
    }
  }

  lemma FiledKept(l: Lists, ev: Event)
    requires Filed(l)
    ensures Filed(Added(l, ev)) && Filed(Removed(l, ev))
  {
  }

  lemma EditedFiled(l: Lists, prior: Event, edited: Event)
    requires Filed(l)
    ensures Filed(Edited(l, prior, edited))
  {
    RemoveAllKind(l.repeats, Orig(l, prior), true);
    FiledKept(l, prior);
    var l' := if prior.repeats && edited.repeats
              then l.(repeats := RemoveAll(l.repeats, Orig(l, prior)))
              else Removed(l, prior);
    FiledKept(l', edited);
  }

  lemma ReplayedFiled(l: Lists, x: Entry)
    requires Filed(l) && Replayed(l, x).Some?
    ensures Filed(Replayed(l, x).value)
  {
    FiledKept(l, x.ev);
    if x.action == Replace && x.key > -1 && x.origHadRepeat > -1 {
      var prior := if x.origHadRepeat != 0 then l.repeats[x.key] else l.events[x.key];
      FiledKept(l, prior);
      FiledKept(Removed(l, prior), x.ev);
    }
  }

  /** Reading puts every event into the list of its kind. */
  lemma {:induction false} ReplayFiles(l: Lists, xs: seq<Entry>)
    requires Filed(l) && ReplayAll(l, xs).Some?
    ensures Filed(ReplayAll(l, xs).value)
  {
    if xs == [] {
    } else {
      ReplayFiles(l, xs[..|xs| - 1]);
      ReplayedFiled(ReplayAll(l, xs[..|xs| - 1]).value, xs[|xs| - 1]);
    }
  }

  lemma {:induction false} ReplayAppend(l: Lists, xs: seq<Entry>, ys: seq<Entry>)
    ensures ReplayAll(l, xs + ys) == match ReplayAll(l, xs)
                                     case None => None
                                     case Some(m) => ReplayAll(m, ys)
  {
    if ys == [] {
      assert xs + ys == xs;
    } else {
      ReplayAppend(l, xs, ys[..|ys| - 1]);
      assert (xs + ys)[..|xs + ys| - 1] == xs + ys[..|ys| - 1];
    }
  }

  lemma ReplayOne(l: Lists, xs: seq<Entry>, x: Entry)
    ensures ReplayAll(l, xs + [x]) == match ReplayAll(l, xs)
                                      case None => None
                                      case Some(m) => Replayed(m, x)
  {
    assert (xs + [x])[..|xs|] == xs;
  }

  lemma {:induction false} AddsEvents(l: Lists, s: seq<Event>, b: bool)
    requires AllRepeat(s, b)
    ensures ReplayAll(l, FileEntries(s)) == Some(if b then l.(repeats := l.repeats + s) else l.(events := l.events + s))
  {
    if s == [] {
      assert l.repeats + s == l.repeats && l.events + s == l.events;
    } else {
      var k := |s| - 1;
      AddsEvents(l, s[..k], b);
      assert FileEntries(s) == FileEntries(s[..k]) + [Entry(s[k], Add, -1, -1)];
      ReplayOne(l, FileEntries(s[..k]), Entry(s[k], Add, -1, -1));
      assert s == s[..k] + [s[k]];
      assert l.repeats + s == l.repeats + s[..k] + [s[k]] && l.events + s == l.events + s[..k] + [s[k]];
    }
  }

  /** Saved lists are read back as they were, in order. */
  lemma FileReadsBack(events: seq<Event>, repeats: seq<Event>)
    requires Filed(Lists(events, repeats))
    ensures ReplayAll(EMPTY, FileEntries(events + repeats)) == Some(Lists(events, repeats))
  {
    AddsEvents(EMPTY, events, false);
    AddsEvents(Lists(events, []), repeats, true);
    assert FileEntries(events + repeats) == FileEntries(events) + FileEntries(repeats);
    ReplayAppend(EMPTY, FileEntries(events), FileEntries(repeats));
    assert [] + events == events && [] + repeats == repeats;
  }

  // ---------- when an edit can be replayed ----------

  /** The condition under which the journal line of an edit rebuilds the edited lists: the
      edited event is there, and the key finds it again. */
  predicate EditReplays(l: Lists, prior: Event, edited: Event) {
    if !prior.repeats then
      var k := FindIndex(l.events, prior);
      k >= 0 && FindIndex(l.events, l.events[k]) == k
    else
      var o := FindTime(l.repeats, prior.createTime);
      o >= 0 &&
      if edited.repeats
      then forall i :: 0 <= i < |l.repeats| && Same(l.repeats[i], l.repeats[o]) ==> i == o
      else
        var k := FindIndex(l.repeats, l.repeats[o]);
        k >= 0 && l.repeats[k].createTime == prior.createTime
  }

  /** Removing at two places gives the same list only if all elements between are equal. */
  lemma RemoveTwoPlaces(s: seq<Event>, i: nat, k: nat)
    requires i < k < |s| && RemoveAt(s, i) == RemoveAt(s, k)
    ensures s[i] == s[k]
  {
    forall j | i <= j < k
      ensures s[j] == s[j + 1]
    {
      assert RemoveAt(s, i)[j] == s[j + 1] && RemoveAt(s, k)[j] == s[j];
    }
    AllEqual(s, i, k);
  }

  lemma {:induction false} AllEqual(s: seq<Event>, i: nat, k: nat)
    requires i <= k < |s| && forall j :: i <= j < k ==> s[j] == s[j + 1]
    ensures s[i] == s[k]
  {
    if i == k {
    } else {
      AllEqual(s, i, k - 1);
      assert s[k - 1] == s[k - 1 + 1];
    }
  }

  lemma {:induction false} RemoveAllNone(s: seq<Event>, e: Event)
    requires forall i :: 0 <= i < |s| ==> !Same(s[i], e)
    ensures RemoveAll(s, e) == s
  {
    if s == [] {
    } else {
      assert forall i :: 0 <= i < |s[1..]| ==> s[1..][i] == s[i + 1];
      RemoveAllNone(s[1..], e);
    }
  }

  /** k is the only place of an event equal to e. */
  ghost predicate OnlyAt(s: seq<Event>, e: Event, k: int) {
    forall i :: 0 <= i < |s| && Same(s[i], e) ==> i == k
  }

  lemma OnlyAtTail(s: seq<Event>, e: Event, k: int)
    requires s != []
    ensures OnlyAt(s, e, k) <==> (Same(s[0], e) ==> k == 0) && OnlyAt(s[1..], e, k - 1)
  {
    var t := s[1..];
    forall i | 0 <= i < |t|
      ensures t[i] == s[i + 1]
    {
    }
    forall i | 0 < i < |s|
      ensures s[i] == t[i - 1]
    {
    }
  }

  /** Removing all that equal e leaves the same as removing at k exactly when k is the only
      place, provided it is one. */
  lemma {:induction false} RemoveAllIsOne(s: seq<Event>, e: Event, k: nat)
    requires k < |s| && Same(s[k], e)
    ensures |RemoveAll(s, e)| <= |s| - 1
    ensures |RemoveAll(s, e)| == |s| - 1 <==> OnlyAt(s, e, k)
    ensures |RemoveAll(s, e)| == |s| - 1 ==> RemoveAll(s, e) == RemoveAt(s, k)
  {
    var t := s[1..];
    assert s == [s[0]] + t;
    OnlyAtTail(s, e, k);
    if k == 0 {
      if i :| 0 <= i < |t| && Same(t[i], e) {
        RemoveAllIsOne(t, e, i);
      } else {
        RemoveAllNone(t, e);
      }
    } else {
      RemoveAllIsOne(t, e, k - 1);
    }
  }

  lemma EditPlainExact(l: Lists, prior: Event, edited: Event)
    requires Filed(l) && !prior.repeats
    ensures Replayed(l, EditEntry(l, prior, edited)) == Some(Edited(l, prior, edited))
            <==> EditReplays(l, prior, edited)
  {
    var k := FindIndex(l.events, prior);
    if k >= 0 {
      var i := FindIndex(l.events, l.events[k]);
      assert Same(l.events[k], l.events[k]);
      if i < k && RemoveAt(l.events, i) == RemoveAt(l.events, k) {
        RemoveTwoPlaces(l.events, i, k);
        assert false;
      }
      RemovedDiffer(l.events, i, k, edited);
    }
  }

  /** Appending the same event to both does not hide a difference. */
  lemma RemovedDiffer(s: seq<Event>, i: int, k: int, ev: Event)
    ensures RemoveAt(s, i) + [ev] == RemoveAt(s, k) + [ev] <==> RemoveAt(s, i) == RemoveAt(s, k)
  {
    var a, b := RemoveAt(s, i), RemoveAt(s, k);
    if a + [ev] == b + [ev] {
      assert (a + [ev])[..|a|] == a && (b + [ev])[..|b|] == b;
    }
  }

  lemma EditToPlainExact(l: Lists, prior: Event, edited: Event)
    requires Filed(l) && prior.repeats && !edited.repeats
    ensures Replayed(l, EditEntry(l, prior, edited)) == Some(Edited(l, prior, edited))
            <==> EditReplays(l, prior, edited)
  {
    var s := l.repeats;
    var o := FindTime(s, prior.createTime);
    if o >= 0 {
      assert Same(s[o], s[o]);
      var k := FindIndex(s, s[o]);
      assert s[k].repeats;
      var r := FindTime(s, s[k].createTime);
      if r < o && RemoveAt(s, r) == RemoveAt(s, o) {
        RemoveTwoPlaces(s, r, o);
      }
    } else if s != [] {
      assert s[0].repeats;
      assert |RemoveAt(s, FindTime(s, s[0].createTime))| == |s| - 1;
    }
  }

  lemma EditRepeatExact(l: Lists, prior: Event, edited: Event)
    requires Filed(l) && prior.repeats && edited.repeats
    ensures Replayed(l, EditEntry(l, prior, edited)) == Some(Edited(l, prior, edited))
            <==> EditReplays(l, prior, edited)
  {
    var s := l.repeats;
    var o := FindTime(s, prior.createTime);
    if o >= 0 {
      assert Same(s[o], s[o]);
      var k := FindIndex(s, s[o]);
      assert s[k].repeats;
      RemoveAllIsOne(s, s[o], o);
      if k != o {
        assert Same(s[k], s[o]);
      }
      assert |RemoveAt(s, FindTime(s, s[k].createTime))| == |s| - 1;
    } else {
      RemoveAllNone(s, DEFAULT_EVENT);
      assert |Edited(l, prior, edited).repeats| == |s| + 1;
      if s != [] {
        assert s[0].repeats;
        assert |Replayed(l, EditEntry(l, prior, edited)).value.repeats| == |s|;
      }
    }
  }

  /** An edit's journal line, read back over the lists it was made from, gives the lists the
      edit left exactly when EditReplays holds. */
  lemma EditExact(l: Lists, prior: Event, edited: Event)
    requires Filed(l)
    ensures Replayed(l, EditEntry(l, prior, edited)) == Some(Edited(l, prior, edited))
            <==> EditReplays(l, prior, edited)
  {
    if !prior.repeats {
      EditPlainExact(l, prior, edited);
    } else if edited.repeats {
      EditRepeatExact(l, prior, edited);
    } else {
      EditToPlainExact(l, prior, edited);
    }
  }

  /** With events told apart by uid and creation time, every edit of a repeating event that
      is there replays. */
  lemma DistinctRepeatsReplay(l: Lists, prior: Event, edited: Event)
    requires Filed(l) && prior.repeats && FindTime(l.repeats, prior.createTime) >= 0
    requires forall i, j :: 0 <= i < j < |l.repeats| ==>
      (l.repeats[i].uid != 0 ==> l.repeats[i].uid != l.repeats[j].uid)
      && l.repeats[i].createTime != l.repeats[j].createTime
    ensures EditReplays(l, prior, edited)
  {
    var s := l.repeats;
    var o := FindTime(s, prior.createTime);
    assert Same(s[o], s[o]);
    forall i | 0 <= i < |s| && Same(s[i], s[o])
      ensures i == o
    {
    }
  }

  /** Two plain events alike but for their uid, and an edit of the second that names it by
      uid alone: the edit removes the second, its replay the first. */
  lemma TwinExample(a: Event, b: Event, prior: Event, edited: Event)
    requires a == Event(1, false, -1, 7) && b == Event(2, false, -1, 7)
    requires prior == Event(2, false, -1, 9) && !edited.repeats
    ensures var l := Lists([a, b], []);
            Edited(l, prior, edited) == Lists([a, edited], [])
            && Replayed(l, EditEntry(l, prior, edited)) == Some(Lists([b, edited], []))
  {
    var l := Lists([a, b], []);
    assert FindIndex(l.events, prior) == 1;
    assert FindIndex(l.events, l.events[1]) == 0;
    assert RemoveAt(l.events, 0) == [b] && RemoveAt(l.events, 1) == [a];
    assert EditKey(l, prior) == 1 && Removed(l, b) == Lists([b], []);
    assert [b] + [edited] == [b, edited] && [a] + [edited] == [a, edited];
    assert Removed(l, prior) == Lists([a], []);
  }

  // ---------- whole runs ----------

  datatype Op = AddEvent(ev: Event) | RemoveEvent(ev: Event) | EditEvent(prior: Event, edited: Event)

  function Apply(l: Lists, op: Op): Lists {
    match op
    case AddEvent(ev) => Added(l, ev)
    case RemoveEvent(ev) => Removed(l, ev)
    case EditEvent(prior, edited) => Edited(l, prior, edited)
  }

  function Line(l: Lists, op: Op): Entry {
    match op
    case AddEvent(ev) => Entry(ev, Add, -1, 0)
    case RemoveEvent(ev) => Entry(ev, Remove, -1, 0)
    case EditEvent(prior, edited) => EditEntry(l, prior, edited)
  }

  function Run(l: Lists, ops: seq<Op>): Lists {
    if ops == [] then l else Apply(Run(l, ops[..|ops| - 1]), ops[|ops| - 1])
  }

  function Log(l: Lists, ops: seq<Op>): seq<Entry> {
    if ops == [] then []
    else Log(l, ops[..|ops| - 1]) + [Line(Run(l, ops[..|ops| - 1]), ops[|ops| - 1])]
  }

  /** Every edit of the run meets EditReplays when it is made. */
  predicate EditsReplay(l: Lists, ops: seq<Op>) {
    forall i :: 0 <= i < |ops| && ops[i].EditEvent? ==>
      EditReplays(Run(l, ops[..i]), ops[i].prior, ops[i].edited)
  }

  lemma ApplyFiled(l: Lists, op: Op)
    requires Filed(l)
    ensures Filed(Apply(l, op))
  {
    match op
    case AddEvent(ev) => FiledKept(l, ev);
    case RemoveEvent(ev) => FiledKept(l, ev);
    case EditEvent(prior, edited) => EditedFiled(l, prior, edited);
  }

  lemma ApplyReplays(l: Lists, op: Op)
    requires Filed(l)
    ensures Replayed(l, Line(l, op)) == Some(Apply(l, op))
            <==> (op.EditEvent? ==> EditReplays(l, op.prior, op.edited))
  {
    if op.EditEvent? {
      EditExact(l, op.prior, op.edited);
    }
  }

  lemma StoredLine(file: seq<Event>, journal: seq<Entry>, x: Entry)
    ensures Stored(file, journal + [x]) == match Stored(file, journal)
                                           case None => None
                                           case Some(m) => Replayed(m, x)
  {
    assert FileEntries(file) + (journal + [x]) == FileEntries(file) + journal + [x];
    ReplayOne(EMPTY, FileEntries(file) + journal, x);
  }

  /** After k operations the files would be read back as the lists. */
  ghost predicate ReplaysAt(l: Lists, ops: seq<Op>, k: nat)
    requires k <= |ops|
  {
    Stored(l.events + l.repeats, Log(l, ops[..k])) == Some(Run(l, ops[..k]))
  }

  lemma {:induction false} RunFiled(l: Lists, ops: seq<Op>)
    requires Filed(l)
    ensures Filed(Run(l, ops))
  {
    if ops == [] {
    } else {
      RunFiled(l, ops[..|ops| - 1]);
      ApplyFiled(Run(l, ops[..|ops| - 1]), ops[|ops| - 1]);
    }
  }

  lemma RunNext(l: Lists, ops: seq<Op>, k: nat)
    requires k < |ops|
    ensures Run(l, ops[..k + 1]) == Apply(Run(l, ops[..k]), ops[k])
    ensures Log(l, ops[..k + 1]) == Log(l, ops[..k]) + [Line(Run(l, ops[..k]), ops[k])]
  {
    assert ops[..k + 1][..k] == ops[..k];
  }

  lemma ReplaysNext(l: Lists, ops: seq<Op>, k: nat)
    requires Filed(l) && k < |ops| && ReplaysAt(l, ops, k)
    ensures ReplaysAt(l, ops, k + 1)
            <==> (ops[k].EditEvent? ==> EditReplays(Run(l, ops[..k]), ops[k].prior, ops[k].edited))
  {
    var m := Run(l, ops[..k]);
    RunFiled(l, ops[..k]);
    RunNext(l, ops, k);
    StoredLine(l.events + l.repeats, Log(l, ops[..k]), Line(m, ops[k]));
    ApplyReplays(m, ops[k]);
  }

  lemma {:induction false} ReplaysTo(l: Lists, ops: seq<Op>, k: nat)
    requires Filed(l) && EditsReplay(l, ops) && k <= |ops|
    ensures ReplaysAt(l, ops, k)
  {
    if k == 0 {
      FileReadsBack(l.events, l.repeats);
      assert FileEntries(l.events + l.repeats) + [] == FileEntries(l.events + l.repeats);
    } else {
      ReplaysTo(l, ops, k - 1);
      ReplaysNext(l, ops, k - 1);
    }
  }

  /** Replaying the journal of a run over the lists saved before it rebuilds the lists the run
      left, order included, at every point of the run exactly if every edit replays. */
  lemma RunReplays(l: Lists, ops: seq<Op>)
    requires Filed(l)
    ensures Filed(Run(l, ops))
    ensures EditsReplay(l, ops) ==> Stored(l.events + l.repeats, Log(l, ops)) == Some(Run(l, ops))
    ensures (forall k :: 0 <= k <= |ops| ==> ReplaysAt(l, ops, k)) <==> EditsReplay(l, ops)
  {
    RunFiled(l, ops);
    if EditsReplay(l, ops) {
      forall k | 0 <= k <= |ops|
        ensures ReplaysAt(l, ops, k)
      {
        ReplaysTo(l, ops, k);
      }
      assert ReplaysAt(l, ops, |ops|) && ops[..|ops|] == ops;
    } else {
      var i :| 0 <= i < |ops| && ops[i].EditEvent?
               && !EditReplays(Run(l, ops[..i]), ops[i].prior, ops[i].edited);
      if ReplaysAt(l, ops, i) {
        ReplaysNext(l, ops, i);
        assert !ReplaysAt(l, ops, i + 1);
      }
    }
  }

  // ---------- the database ----------

  /** The files would be read back as the lists. */
  ghost predicate InStep(l: Lists, file: seq<Event>, journal: seq<Entry>, clean: bool) {
    Filed(l) && Stored(file, journal) == Some(l) && (clean ==> journal == [])
  }

  lemma StaysInStep(l: Lists, file: seq<Event>, journal: seq<Entry>, clean: bool, op: Op)
    requires op.EditEvent? ==> EditReplays(l, op.prior, op.edited)
    ensures InStep(l, file, journal, clean) ==> InStep(Apply(l, op), file, journal + [Line(l, op)], false)
  {
    if InStep(l, file, journal, clean) {
      ApplyFiled(l, op);
      ApplyReplays(l, op);
      StoredLine(file, journal, Line(l, op));
    }
  }

  lemma EditInStep(l: Lists, file: seq<Event>, lines: seq<Entry>, clean: bool, prior: Event, edited: Event,
                   m: Lists, journal: seq<Entry>)
    requires m == Edited(l, prior, edited) && journal == lines + [EditEntry(l, prior, edited)]
    ensures InStep(l, file, lines, clean) ==>
              (InStep(m, file, journal, false) <==> EditReplays(l, prior, edited))
  {
    if InStep(l, file, lines, clean) {
      EditedFiled(l, prior, edited);
      EditExact(l, prior, edited);
      StoredLine(file, lines, EditEntry(l, prior, edited));
    }
  }

  // ---------- a save cut off between renaming the new file and removing the journal ----------

  /** The next start replays the whole journal over lists that already have its effect. */
  lemma CutOffReplays(m: Lists, journal: seq<Entry>)
    requires Filed(m)
    ensures Stored(m.events + m.repeats, journal) == ReplayAll(m, journal)
  {
    FileReadsBack(m.events, m.repeats);
    ReplayAppend(EMPTY, FileEntries(m.events + m.repeats), journal);
  }

  function Size(l: Lists): nat { |l.events| + |l.repeats| }

  /** By how many events a line makes the lists grow at least. */
  function Growth(x: Entry): int {
    match x.action case Add => 1 case Remove => -1 case Replace => 0
  }

  function Grown(xs: seq<Entry>): int {
    if xs == [] then 0 else Grown(xs[..|xs| - 1]) + Growth(xs[|xs| - 1])
  }

  lemma ReplayedGrows(l: Lists, x: Entry)
    requires Replayed(l, x).Some?
    ensures Size(Replayed(l, x).value) >= Size(l) + Growth(x)
  {
  }

  lemma {:induction false} ReplayGrows(l: Lists, xs: seq<Entry>)
    requires ReplayAll(l, xs).Some?
    ensures Size(ReplayAll(l, xs).value) >= Size(l) + Grown(xs)
  {
    if xs == [] {
    } else {
      ReplayGrows(l, xs[..|xs| - 1]);
      ReplayedGrows(ReplayAll(l, xs[..|xs| - 1]).value, xs[|xs| - 1]);
    }
  }

  /** After a cut-off save with a journal of any length in which more events are added than
      removed, the next start does not read the lists that were saved. */
  lemma CutOffGrows(m: Lists, journal: seq<Entry>)
    requires Filed(m) && Grown(journal) > 0
    ensures Stored(m.events + m.repeats, journal) != Some(m)
  {
    CutOffReplays(m, journal);
    if ReplayAll(m, journal).Some? {
      ReplayGrows(m, journal);
    }
  }

  /** What the journal of a run adds and removes is what the run does. */
  function Additions(ops: seq<Op>): int {
    if ops == [] then 0
    else
      var op := ops[|ops| - 1];
      Additions(ops[..|ops| - 1]) + if op.AddEvent? then 1 else if op.RemoveEvent? then -1 else 0
  }

  lemma {:induction false} LogGrows(l: Lists, ops: seq<Op>)
    ensures Grown(Log(l, ops)) == Additions(ops)
  {
    if ops == [] {
    } else {
      var init := ops[..|ops| - 1];
      var x := Line(Run(l, init), ops[|ops| - 1]);
      LogGrows(l, init);
      assert (Log(l, init) + [x])[..|Log(l, init)|] == Log(l, init);
    }
  }

  /** A save cut off after any run with more additions than removals is read back wrong. */
  lemma InterruptedRun(l: Lists, ops: seq<Op>)
    requires Filed(l) && Additions(ops) > 0
    ensures var m := Run(l, ops); Stored(m.events + m.repeats, Log(l, ops)) != Some(m)
  {
    RunFiled(l, ops);
    LogGrows(l, ops);
    CutOffGrows(Run(l, ops), Log(l, ops));
  }

  function KindOf(l: Lists, repeats: bool): seq<Event> { if repeats then l.repeats else l.events }

  /** Where the lists would remove e. */
  function MatchOf(s: seq<Event>, e: Event): int {
    if e.repeats then FindTime(s, e.createTime) else FindIndex(s, e)
  }

  predicate AllFrom(s: seq<Event>, r: int, e: Event) {
    forall i :: 0 <= i < |s| && r <= i ==> s[i] == e
  }

  /** The operations whose journal line may be replayed once more over the lists they left:
      removals that left no match, edits of a plain event that was not there, and edits whose
      list, from the first match of the event at the key on, holds only the edited event. */
  predicate Harmless(l: Lists, op: Op) {
    var m := Apply(l, op);
    match op
    case AddEvent(ev) => false
    case RemoveEvent(ev) => MatchOf(KindOf(m, ev.repeats), ev) < 0
    case EditEvent(prior, edited) =>
      var k, s := EditKey(l, prior), KindOf(m, prior.repeats);
      k < 0 || (prior.repeats == edited.repeats && k < |s| && AllFrom(s, MatchOf(s, s[k]), edited))
  }

  lemma RemoveAtChanges(s: seq<Event>, k: int)
    ensures RemoveAt(s, k) == s <==> !(0 <= k < |s|)
  {
    if 0 <= k < |s| {
      assert |RemoveAt(s, k)| == |s| - 1;
    }
  }

  /** Taking out at r and appending e changes nothing exactly if all from r on is e. */
  lemma ShiftIsSame(s: seq<Event>, r: nat, e: Event)
    requires r < |s|
    ensures RemoveAt(s, r) + [e] == s <==> AllFrom(s, r, e)
  {
    var t := RemoveAt(s, r) + [e];
    assert forall i :: r <= i < |s| - 1 ==> t[i] == s[i + 1];
    assert t[|s| - 1] == e;
    if t == s {
      forall i | r <= i < |s|
        ensures s[i] == e
      {
        ShiftedToEnd(s, r, e, i);
      }
    }
  }

  lemma {:induction false} ShiftedToEnd(s: seq<Event>, r: nat, e: Event, i: nat)
    requires r <= i < |s| && RemoveAt(s, r) + [e] == s
    ensures s[i] == e
    decreases |s| - i
  {
    var t := RemoveAt(s, r) + [e];
    if i == |s| - 1 {
      assert t[i] == e;
    } else {
      assert t[i] == s[i + 1];
      ShiftedToEnd(s, r, e, i + 1);
    }
  }

  lemma MatchFound(s: seq<Event>, k: nat)
    requires k < |s|
    ensures 0 <= MatchOf(s, s[k]) <= k
  {
    assert Same(s[k], s[k]);
  }

  /** Replaying an edit's line over its own result. */
  lemma EditTwice(m: Lists, repeats: bool, k: nat, edited: Event)
    requires Filed(m) && k < |KindOf(m, repeats)|
    ensures var s := KindOf(m, repeats);
            Added(Removed(m, s[k]), edited) == m
            <==> repeats == edited.repeats && AllFrom(s, MatchOf(s, s[k]), edited)
  {
    var s := KindOf(m, repeats);
    var r := MatchOf(s, s[k]);
    assert s[k].repeats == repeats;
    MatchFound(s, k);
    ShiftIsSame(s, r, edited);
    RemoveAtChanges(s, r);
  }

  /** Over the lists an operation left, its journal line changes nothing exactly if the
      operation is harmless. */
  lemma HarmlessExact(l: Lists, op: Op)
    requires Filed(l)
    ensures Replayed(Apply(l, op), Line(l, op)) == Some(Apply(l, op)) <==> Harmless(l, op)
  {
    var m := Apply(l, op);
    match op
    case AddEvent(ev) =>
      assert |KindOf(Added(m, ev), ev.repeats)| == |KindOf(m, ev.repeats)| + 1;
    case RemoveEvent(ev) =>
      RemoveAtChanges(KindOf(m, ev.repeats), MatchOf(KindOf(m, ev.repeats), ev));
    case EditEvent(prior, edited) =>
      EditedFiled(l, prior, edited);
      var k, s := EditKey(l, prior), KindOf(m, prior.repeats);
      if 0 <= k < |s| {
        EditTwice(m, prior.repeats, k, edited);
      }
  }

  /** A save cut off before the journal is removed, with one operation since the save before:
      the next start reads the right lists exactly if the operation is harmless. */
  lemma InterruptedSave(l: Lists, op: Op)
    requires Filed(l)
    ensures var m := Apply(l, op);
            Stored(m.events + m.repeats, [Line(l, op)]) == Some(m) <==> Harmless(l, op)
  {
    var m := Apply(l, op);
    ApplyFiled(l, op);
    CutOffReplays(m, [Line(l, op)]);
    assert [] + [Line(l, op)] == [Line(l, op)];
    ReplayOne(m, [], Line(l, op));
    HarmlessExact(l, op);
  }

  /** The two lists, their files, and whether the files are up to date. */
  class DateBookDB {
    var eventList: seq<Event>
    var repeatEvents: seq<Event>
    var file: seq<Event>       // the events of the datebook file
    var journal: seq<Entry>    // the lines of the journal file; none when it does not exist
    var clean: bool

    function Contents(): Lists
      reads this
    {
      Lists(eventList, repeatEvents)
    }

    /** What is on disk would be read back as the lists in memory. */
    ghost predicate Synced()
      reads this
    {
      InStep(Contents(), file, journal, clean)
    }

    method SaveJournalEntry(ev: Event, action: Action, key: int, origHadRepeat: bool)
      modifies `journal
      ensures journal == old(journal) + [Entry(ev, action, key, if origHadRepeat then 1 else 0)]
    {
      journal := journal + [Entry(ev, action, key, if origHadRepeat then 1 else 0)];
    }

    method AddJFEvent(ev: Event)
      modifies `eventList, `repeatEvents
      ensures Contents() == Added(old(Contents()), ev)
    {
      if ev.repeats {
        repeatEvents := repeatEvents + [ev];
      } else {
        eventList := eventList + [ev];
      }
    }

    method RemoveRepeat(ev: Event) returns (done: bool)
      modifies `repeatEvents
      ensures var k := FindTime(old(repeatEvents), ev.createTime);
              repeatEvents == RemoveAt(old(repeatEvents), k) && (done <==> k >= 0)
    {
      for it := 0 to |repeatEvents|
        invariant repeatEvents == old(repeatEvents)
        invariant forall i :: 0 <= i < it ==> repeatEvents[i].createTime != ev.createTime
      {
        if ev.createTime == repeatEvents[it].createTime {
          repeatEvents := repeatEvents[..it] + repeatEvents[it + 1..];
          return true;
        }
      }
      return false;
    }

    method RemoveJFEvent(ev: Event)
      modifies `eventList, `repeatEvents
      ensures Contents() == Removed(old(Contents()), ev)
    {
      if ev.repeats {
        var _ := RemoveRepeat(ev);
      } else {
        var it := FindIndex(eventList, ev);
        if it >= 0 {
          eventList := eventList[..it] + eventList[it + 1..];
        }
      }
    }

    method OrigRepeat(ev: Event) returns (done: bool, orig: Event)
      ensures done <==> FindTime(repeatEvents, ev.createTime) >= 0
      ensures orig == Orig(Contents(), ev)
    {
      orig := DEFAULT_EVENT;
      for it := 0 to |repeatEvents|
        invariant forall i :: 0 <= i < it ==> repeatEvents[i].createTime != ev.createTime
      {
        if ev.createTime == repeatEvents[it].createTime {
          return true, repeatEvents[it];
        }
      }
      done := false;
    }

    method AddEvent(ev: Event)
      modifies this
      ensures Contents() == Added(old(Contents()), ev) && file == old(file)
      ensures old(Synced()) ==> Synced()
    {
      StaysInStep(Contents(), file, journal, clean, Op.AddEvent(ev));
      SaveJournalEntry(ev, Add, -1, false);
      AddJFEvent(ev);
      clean := false;
    }

    method RemoveEvent(ev: Event)
      modifies this
      ensures Contents() == Removed(old(Contents()), ev) && file == old(file)
      ensures old(Synced()) ==> Synced()
    {
      StaysInStep(Contents(), file, journal, clean, Op.RemoveEvent(ev));
      SaveJournalEntry(ev, Remove, -1, false);
      RemoveJFEvent(ev);
      clean := false;
    }

    /** The index of the event to edit in its list, and the event a repeat belongs to. */
    method FindOld(prior: Event) returns (oldIndex: int, orig: Event)
      ensures oldIndex == EditKey(Contents(), prior)
      ensures prior.repeats ==> orig == Orig(Contents(), prior)
    {
      oldIndex := 0;
      orig := DEFAULT_EVENT;
      if prior.repeats {
        var found;
        found, orig := OrigRepeat(prior);
        if found {
          oldIndex := FindIndex(repeatEvents, orig);
        }
      } else {
        oldIndex := FindIndex(eventList, prior);
      }
    }

    method RemovePrior(prior: Event, edited: Event, orig: Event)
      requires prior.repeats && edited.repeats ==> orig == Orig(Contents(), prior)
      modifies `eventList, `repeatEvents
      ensures Contents() == if prior.repeats && edited.repeats
                            then old(Contents()).(repeats := RemoveAll(old(repeatEvents), orig))
                            else Removed(old(Contents()), prior)
    {
      if prior.repeats {
        if edited.repeats {
          repeatEvents := RemoveAll(repeatEvents, orig);
        } else {
          var _ := RemoveRepeat(prior);
        }
      } else {
        var it := FindIndex(eventList, prior);
        if it >= 0 {
          eventList := eventList[..it] + eventList[it + 1..];
        }
      }
    }

    /** The journal line of an edit, and its effect on the lists. */
    method EditLists(prior: Event, edited: Event)
      modifies `eventList, `repeatEvents, `journal
      ensures Contents() == Edited(old(Contents()), prior, edited)
      ensures journal == old(journal) + [EditEntry(old(Contents()), prior, edited)]
    {
      var oldIndex, orig := FindOld(prior);
      SaveJournalEntry(edited, Replace, oldIndex, prior.repeats);
      RemovePrior(prior, edited, orig);
      AddJFEvent(edited);
    }

    /** An edit keeps memory and disk in step exactly when EditReplays holds. */
    method EditEvent(prior: Event, edited: Event)
      modifies this
      ensures Contents() == Edited(old(Contents()), prior, edited) && file == old(file)
      ensures old(Synced()) ==> (Synced() <==> EditReplays(old(Contents()), prior, edited))
    {
      ghost var l, lines, wasClean := Contents(), journal, clean;
      EditLists(prior, edited);
      clean := false;
      EditInStep(l, file, lines, wasClean, prior, edited, Contents(), journal);
    }

    /** The switch on the action of a line. */
    method ReadEntry(x: Entry)
      requires Replayed(Contents(), x).Some?
      modifies `eventList, `repeatEvents
      ensures Some(Contents()) == old(Replayed(Contents(), x))
    {
      match x.action {
        case Add =>
          AddJFEvent(x.ev);
        case Remove =>
          RemoveJFEvent(x.ev);
        case Replace =>
          if x.key > -1 && x.origHadRepeat > -1 {
            if x.origHadRepeat != 0 {
              RemoveJFEvent(repeatEvents[x.key]);
            } else {
              RemoveJFEvent(eventList[x.key]);
            }
            AddJFEvent(x.ev);
          }
      }
    }

    method LoadFile(entries: seq<Entry>)
      requires ReplayAll(Contents(), entries).Some?
      modifies `eventList, `repeatEvents
      ensures Some(Contents()) == old(ReplayAll(Contents(), entries))
    {
      ghost var l := Contents();
      for i := 0 to |entries|
        invariant ReplayAll(l, entries[..i]) == Some(Contents())
      {
        assert entries[..i + 1] == entries[..i] + [entries[i]];
        assert entries == entries[..i + 1] + entries[i + 1..];
        ReplayOne(l, entries[..i], entries[i]);
        ReplayAppend(l, entries[..i + 1], entries[i + 1..]);
        ReadEntry(entries[i]);
      }
      assert entries[..|entries|] == entries;
    }

    method Save()
      requires Filed(Contents()) && (clean ==> Synced())
      modifies `file, `journal, `clean
      ensures Synced() && clean && file == if old(clean) then old(file) else eventList + repeatEvents
    {
      if clean {
        return;
      }
      file := eventList + repeatEvents;
      journal := [];
      clean := true;
      FileReadsBack(eventList, repeatEvents);
      assert FileEntries(file) + [] == FileEntries(file);
    }

    method Init()
      requires Contents() == EMPTY
      requires Stored(file, journal).Some?
      modifies this
      ensures Synced() && Some(Contents()) == old(Stored(file, journal)) && clean
      ensures file == if old(journal) == [] then old(file) else eventList + repeatEvents
    {
      clean := false;
      ReplayFiles(EMPTY, FileEntries(file) + journal);
      ReplayAppend(EMPTY, FileEntries(file), journal);
      LoadFile(FileEntries(file));
      if journal != [] {
        LoadFile(journal);
        Save();
      } else {
        assert FileEntries(file) + [] == FileEntries(file);
      }
      clean := true;
    }

    /** Starts from the files a previous run left. */
    constructor (file: seq<Event>, journal: seq<Entry>)
      requires Stored(file, journal).Some?
      ensures Synced() && Some(Contents()) == Stored(file, journal) && clean
    {
      this.file := file;
      this.journal := journal;
      eventList, repeatEvents := [], [];
      clean := false;
      new;
      Init();
    }

    /** Forgets the lists and reads those on disk, which are the same if they were in step. */
    method Reload()
      requires Stored(file, journal).Some?
      modifies this
      ensures Synced() && Some(Contents()) == old(Stored(file, journal)) && clean
      ensures file == if old(journal) == [] then old(file) else eventList + repeatEvents
      ensures old(Synced()) ==> Contents() == old(Contents())
    {
      eventList := [];
      repeatEvents := [];
      Init();
    }
  }
}
