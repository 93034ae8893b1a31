/** The alarm server (library/alarmserver.cpp): a list of alarms with its earliest cached,
    a timer towards it, and a saved copy. Times are seconds since the epoch. */
module AlarmServers {
  import opened Options

  datatype Alarm = Alarm(time: int, channel: string, message: string, data: int)

  const MAX_SECS := 2147000

  /** A running timer: the second it was started and its delay in milliseconds. */
  datatype Timer = Timer(started: int, delay: int)

  /** The timer is for an alarm at this time: half a second after it, at once if it is over,
      and if the wait is too long for a 32-bit number of milliseconds, almost 25 days. */
  ghost predicate TimerFor(t: Timer, time: int) {
    var wait := if time < t.started then 0 else time - t.started;
    t.delay == if wait <= 2147000 then 1000 * wait + 500 else 2147000500
  }

  lemma TimerRings(t: Timer, time: int)
    requires TimerFor(t, time)
    ensures 500 <= t.delay < 0x8000_0000
    ensures time - t.started <= 2147000 ==> 1000 * t.started + t.delay >= 1000 * time + 500
    ensures t.started <= time ==> 1000 * t.started + t.delay <= 1000 * time + 500
  {
  }

  predicate Distinct(s: seq<Alarm>) {
    forall i, j :: 0 <= i < j < |s| ==> s[i] != s[j]
  }

  /** n is the alarm at i, the first of the earliest. */
  predicate FirstEarliest(s: seq<Alarm>, n: Alarm, i: nat) {
    i < |s| && s[i] == n && forall j :: 0 <= j < |s| ==> if j < i then n.time < s[j].time else n.time <= s[j].time
  }

  /** The cached alarm: none for an empty list, otherwise the earliest, and of several in the
      same second the one added first. */
  ghost predicate IsNearest(s: seq<Alarm>, nearest: Option<Alarm>) {
    match nearest
    case None => s == []
    case Some(n) => exists i: nat :: FirstEarliest(s, n, i)
  }

  lemma NearestBound(s: seq<Alarm>, n: Alarm)
    requires IsNearest(s, Some(n))
    ensures n in s && forall x :: x in s ==> n.time <= x.time
  {
    var i: nat :| FirstEarliest(s, n, i);
  }

  lemma NearestAppended(s: seq<Alarm>, nearest: Option<Alarm>, x: Alarm)
    requires IsNearest(s, nearest)
    ensures IsNearest(s + [x], if nearest.Some? && nearest.value.time <= x.time then nearest else Some(x))
  {
    match nearest
    case None => assert FirstEarliest(s + [x], x, 0);
    case Some(n) =>
      var i: nat :| FirstEarliest(s, n, i);
      assert if n.time <= x.time then FirstEarliest(s + [x], n, i) else FirstEarliest(s + [x], x, |s|);
  }

  lemma NearestKept(s: seq<Alarm>, n: Alarm, k: nat)
    requires IsNearest(s, Some(n)) && k < |s| && s[k] != n
    ensures IsNearest(s[..k] + s[k + 1..], Some(n))
  {
    var i: nat :| FirstEarliest(s, n, i);
    var t := s[..k] + s[k + 1..];
    assert forall j :: 0 <= j < |t| ==> t[j] == if j < k then s[j] else s[j + 1];
    assert FirstEarliest(t, n, if k < i then i - 1 else i);
  }

  function Without(s: seq<Alarm>, x: Alarm): seq<Alarm> {
    if s == [] then [] else if s[0] == x then s[1..] else [s[0]] + Without(s[1..], x)
  }

  lemma {:induction false} WithoutMembers(s: seq<Alarm>, x: Alarm)
    requires Distinct(s)
    ensures Distinct(Without(s, x))
    ensures forall y :: y in Without(s, x) <==> y in s && y != x
  {
    if s == [] {
    } else {
      var t := s[1..];
      assert s == [s[0]] + t;
      assert forall i :: 0 <= i < |t| ==> t[i] == s[i + 1];
      WithoutMembers(t, x);
      if s[0] != x {
        DistinctCons(s[0], Without(t, x));
      }
    }
  }

  lemma DistinctCons(x: Alarm, t: seq<Alarm>)
    requires Distinct(t) && x !in t
    ensures Distinct([x] + t)
  {
  }

  /** What deleteAlarm asks for; None, and -1 for the data, stand for any. */
  datatype Pattern = Pattern(when: Option<int>, channel: Option<string>, message: Option<string>, data: int)

  predicate Matches(p: Pattern, x: Alarm) {
    (p.when.None? || x.time == p.when.value)
    && (p.channel.None? || x.channel == p.channel.value)
    && (p.message.None? || x.message == p.message.value)
    && (p.data == -1 || x.data == p.data)
  }

  /** A full pattern matches only the alarm it spells out; leaving a part open is as good as
      asking for what the alarm has there. */
  lemma MatchesMeaning(p: Pattern, x: Alarm)
    ensures p.when.Some? && p.channel.Some? && p.message.Some? && p.data != -1
            ==> (Matches(p, x) <==> x == Alarm(p.when.value, p.channel.value, p.message.value, p.data))
    ensures Matches(p.(when := None), x) <==> Matches(p.(when := Some(x.time)), x)
    ensures Matches(p.(channel := None), x) <==> Matches(p.(channel := Some(x.channel)), x)
    ensures Matches(p.(message := None), x) <==> Matches(p.(message := Some(x.message)), x)
    ensures Matches(p.(data := -1), x) <==> Matches(p.(data := x.data), x)
  {
  }

  /** What deleteAlarm leaves of s: removing an alarm moves the list's iterator on, so that
      the loop passes over the alarm after it. */
  function Spared(p: Pattern, s: seq<Alarm>): seq<Alarm> {
    if s == [] then []
    else if Matches(p, s[0]) then (if |s| == 1 then [] else [s[1]] + Spared(p, s[2..]))
    else [s[0]] + Spared(p, s[1..])
  }

  /** Nothing is added, and nothing goes that does not match. */
  lemma {:induction false} SparedMembers(p: Pattern, s: seq<Alarm>)
    requires Distinct(s)
    ensures forall x :: x in Spared(p, s) ==> x in s
    ensures forall x :: x in s && !Matches(p, x) ==> x in Spared(p, s)
    ensures Distinct(Spared(p, s))
    decreases |s|
  {
    if s == [] || (|s| == 1 && Matches(p, s[0])) {
    } else {
      var k := if Matches(p, s[0]) then 1 else 0;
      var rest := s[k + 1..];
      assert forall i :: 0 <= i < |rest| ==> rest[i] == s[i + k + 1];
      assert s == s[..k] + [s[k]] + rest;
      SparedMembers(p, rest);
      assert s[k] !in rest;
      DistinctCons(s[k], Spared(p, rest));
    }
  }

  predicate NoMatch(p: Pattern, s: seq<Alarm>) {
    forall i :: 0 <= i < |s| ==> !Matches(p, s[i])
  }

  predicate NoTwoInARow(p: Pattern, s: seq<Alarm>) {
    forall i :: 0 <= i < |s| - 1 ==> !(Matches(p, s[i]) && Matches(p, s[i + 1]))
  }

  /** With the first k + 1 alarms split off: the k-th matches, or what is in a row is later. */
  lemma RowsSplit(p: Pattern, s: seq<Alarm>, k: nat)
    requires |s| >= 2 && k == if Matches(p, s[0]) then 1 else 0
    ensures NoTwoInARow(p, s) ==> NoTwoInARow(p, s[k + 1..])
    ensures !Matches(p, s[k]) && NoTwoInARow(p, s[k + 1..]) ==> NoTwoInARow(p, s)
    ensures Matches(p, s[k]) ==> !NoTwoInARow(p, s)
  {
    var rest := s[k + 1..];
    if !Matches(p, s[k]) && NoTwoInARow(p, rest) {
      forall i | 0 <= i < |s| - 1
        ensures !(Matches(p, s[i]) && Matches(p, s[i + 1]))
      {
        if i > k {
          assert rest[i - k - 1] == s[i] && rest[i - k - 1 + 1] == s[i + 1];
        }
      }
    }
    if NoTwoInARow(p, s) {
      forall i | 0 <= i < |rest| - 1
        ensures !(Matches(p, rest[i]) && Matches(p, rest[i + 1]))
      {
        assert rest[i] == s[i + k + 1] && rest[i + 1] == s[i + k + 1 + 1];
      }
    }
  }

  /** One step of the deletion: what it spares has a match if the spared head does or a later
      one. */
  lemma SparedHead(p: Pattern, s: seq<Alarm>, k: nat)
    requires |s| >= 2 && k == if Matches(p, s[0]) then 1 else 0
    ensures NoMatch(p, Spared(p, s)) <==> !Matches(p, s[k]) && NoMatch(p, Spared(p, s[k + 1..]))
  {
    var t := Spared(p, s[k + 1..]);
    assert Spared(p, s) == [s[k]] + t;
    NoMatchCons(p, s[k], t);
  }

  lemma NoMatchCons(p: Pattern, x: Alarm, t: seq<Alarm>)
    ensures NoMatch(p, [x] + t) <==> !Matches(p, x) && NoMatch(p, t)
  {
    var s := [x] + t;
    assert s[0] == x;
    forall i | 0 <= i < |t|
      ensures s[i + 1] == t[i]
    {
    }
    forall i | 0 < i < |s|
      ensures s[i] == t[i - 1]
    {
    }
  }

  /** Every matching alarm is deleted exactly when no two of them are next to each other. */
  lemma {:induction false} DeletesAllIff(p: Pattern, s: seq<Alarm>)
    ensures NoMatch(p, Spared(p, s)) <==> NoTwoInARow(p, s)
    decreases |s|
  {
    if |s| < 2 {
    } else {
      var k := if Matches(p, s[0]) then 1 else 0;
      DeletesAllIff(p, s[k + 1..]);
      SparedHead(p, s, k);
      RowsSplit(p, s, k);
    }
  }

  /** One round of the loop at it: removed or not, the round ends one further on. */
  lemma SparedStep(p: Pattern, t: seq<Alarm>, it: nat)
    requires it < |t|
    ensures var u := if Matches(p, t[it]) then t[..it] + t[it + 1..] else t;
            var n := if it < |u| then it + 1 else it;
            u[..n] + Spared(p, u[n..]) == t[..it] + Spared(p, t[it..])
  {
    var u := if Matches(p, t[it]) then t[..it] + t[it + 1..] else t;
    var n := if it < |u| then it + 1 else it;
    if Matches(p, t[it]) && it < |u| {
      assert u[..n] == t[..it] + [t[it + 1]] && u[n..] == t[it..][2..];
    } else if Matches(p, t[it]) {
      assert u[..n] == t[..it] && u[n..] == [];
    } else {
      assert u[..n] == t[..it] + [t[it]] && u[n..] == t[it..][1..];
    }
  }

  class AlarmServer {
    var timerEventList: seq<Alarm>
    var nearest: Option<Alarm>
    var receiver: bool         // the timer object exists
    var timers: seq<Timer>     // its running timers, the latest last
    var resumeAt: int          // the time the device is to wake, 0 for none
    var saveFile: seq<Alarm>   // the alarms of the saved file, none when there is no file
    var saves: nat             // how often it was written

    /** No alarm twice, the earliest cached, a timer running exactly while there is an alarm,
        the latest one for the cached alarm, the device to wake at that alarm, at the latest when
        that timer was started, or not at all, and the saved copy up to date. */
    ghost predicate Valid()
      reads this
    {
      && Distinct(timerEventList) && IsNearest(timerEventList, nearest)
      && (timers != [] <==> nearest.Some?) && (nearest.Some? ==> receiver)
      && (nearest.Some? ==> TimerFor(timers[|timers| - 1], nearest.value.time))
      && resumeAt == (match nearest
                      case None => 0
                      case Some(n) => var t := timers[|timers| - 1].started; if n.time < t then t else n.time)
      && saveFile == timerEventList
    }

    /** Starts from the saved file. */
    constructor (saved: seq<Alarm>, now: int)
      requires Distinct(saved)
      ensures Valid() && timerEventList == saved && (receiver <==> saved != []) && saves == 0
    {
      timerEventList, saveFile, saves := [], saved, 0;
      nearest, receiver, timers, resumeAt := None, false, [], 0;
      new;
      if saved != [] {
        for i := 0 to |saved|
          invariant timerEventList == saved[..i] && saveFile == saved
          invariant timers == [] && saves == 0
        {
          timerEventList := timerEventList + [saved[i]];
        }
        receiver := true;
        SetNearestTimerEvent(now);
      }
    }

    method DeleteTimer()
      modifies `resumeAt
      ensures resumeAt == 0
    {
      resumeAt := 0;
    }

    method KillTimers()
      modifies `timers
      ensures timers == []
    {
      timers := [];
    }

    /** Sets the wake-up time and a timer, in milliseconds, for the cached alarm; the delay
        fits a signed 32-bit int. */
    method ResetTimer(now: int) returns (delay: int)
      requires nearest.Some?
      modifies `timers, `resumeAt
      ensures timers == old(timers) + [Timer(now, delay)] && TimerFor(Timer(now, delay), nearest.value.time)
      ensures resumeAt == if nearest.value.time < now then now else nearest.value.time
      ensures 500 <= delay < 0x8000_0000
      ensures nearest.value.time - now <= 0 ==> delay == 500
      ensures 0 <= nearest.value.time - now <= 2147000 ==> delay == 1000 * (nearest.value.time - now) + 500
      ensures nearest.value.time - now > 2147000 ==> delay == 2147000500
    {
      var time := nearest.value.time;
      if time < now {
        time := now;
      }
      var secs := time - now;
      if secs > MAX_SECS {
        secs := MAX_SECS;
      }
      resumeAt := time;
      delay := 1000 * secs + 500;
      timers := timers + [Timer(now, delay)];
    }

    /** The search for the earliest alarm. */
    method FindNearest()
      modifies `nearest
      ensures IsNearest(timerEventList, nearest)
    {
      nearest := None;
      ghost var at: nat := 0;
      if |timerEventList| > 0 {
        nearest := Some(timerEventList[0]);
      }
      for it := 0 to |timerEventList|
        invariant nearest.Some? <==> |timerEventList| > 0
        invariant nearest.Some? ==> at < |timerEventList| && timerEventList[at] == nearest.value && (at == 0 || at < it)
        invariant forall j :: 0 <= j < it ==>
                    nearest.Some? && if j < at then nearest.value.time < timerEventList[j].time
                                     else nearest.value.time <= timerEventList[j].time
      {
        if timerEventList[it].time < nearest.value.time {
          nearest := Some(timerEventList[it]);
          at := it;
        }
      }
      assert nearest.Some? ==> FirstEarliest(timerEventList, nearest.value, at);
    }

    /** Finds the earliest alarm anew. */
    method SetNearestTimerEvent(now: int)
      modifies `nearest, `timers, `resumeAt
      ensures IsNearest(timerEventList, nearest)
      ensures nearest.None? ==> timers == old(timers)
      ensures nearest.Some? ==> |timers| == |old(timers)| + 1 && timers[..|old(timers)|] == old(timers)
                                && timers[|old(timers)|].started == now
                                && TimerFor(timers[|old(timers)|], nearest.value.time)
      ensures resumeAt == match nearest
                          case None => 0
                          case Some(n) => if n.time < now then now else n.time
    {
      FindNearest();
      if nearest.Some? {
        var _ := ResetTimer(now);
      } else {
        DeleteTimer();
      }
    }

    method SaveState()
      modifies `saveFile, `saves
      ensures saveFile == timerEventList && saves == old(saves) + 1
    {
      saveFile := timerEventList;
      saves := saves + 1;
    }

    /** The cached alarm is the earliest, and a timer runs only while there is one. */
    ghost predicate Cached()
      reads this
    {
      IsNearest(timerEventList, nearest) && (nearest.None? ==> timers == [] && resumeAt == 0)
    }

    /** What is left to come of the deletion, from it on. */
    ghost predicate Deleting(p: Pattern, s: seq<Alarm>, it: nat)
      reads this
    {
      && it <= |timerEventList| && Cached() && receiver && (timers != [] ==> it > 0)
      && timerEventList[..it] + Spared(p, timerEventList[it..]) == Spared(p, s)
    }

    /** Removes an alarm; if it is the cached one, the earliest is found anew. */
    method RemoveAt(it: nat, now: int)
      requires it < |timerEventList| && Cached() && (timers != [] ==> it > 0)
      modifies `timerEventList, `nearest, `timers, `resumeAt
      ensures timerEventList == old(timerEventList)[..it] + old(timerEventList)[it + 1..]
      ensures Cached() && (timers != [] ==> timerEventList != [])
    {
      var x := timerEventList[it];
      if nearest != Some(x) {
        NearestKept(timerEventList, nearest.value, it);
      }
      timerEventList := timerEventList[..it] + timerEventList[it + 1..];
      if nearest == Some(x) {
        SetNearestTimerEvent(now);
      }
    }

    /** The body of the loop of deleteAlarm, and its step. */
    method DeleteRound(p: Pattern, ghost s: seq<Alarm>, it: nat, now: int) returns (it': nat, removed: bool)
      requires Deleting(p, s, it) && it < |timerEventList|
      modifies `timerEventList, `nearest, `timers, `resumeAt
      ensures Deleting(p, s, it')
      ensures if removed then |timerEventList| == |old(timerEventList)| - 1 else timerEventList == old(timerEventList)
      ensures |timerEventList| - it' < old(|timerEventList| - it)
    {
      SparedStep(p, timerEventList, it);
      removed := Matches(p, timerEventList[it]);
      if removed {
        RemoveAt(it, now);
      }
      it' := if it < |timerEventList| then it + 1 else it;
    }

    /** The loop of deleteAlarm. */
    method DeleteMatching(p: Pattern, now: int) returns (needSave: bool)
      requires Valid() && receiver
      modifies `timerEventList, `nearest, `timers, `resumeAt
      ensures timerEventList == Spared(p, old(timerEventList)) && Cached()
      ensures needSave <==> timerEventList != old(timerEventList)
    {
      ghost var s := timerEventList;
      KillTimers();
      var it: nat := 0;
      needSave := false;
      assert s[0..] == s && s[..0] + Spared(p, s) == Spared(p, s);
      while it < |timerEventList|
        invariant Deleting(p, s, it)
        invariant if needSave then |timerEventList| < |s| else timerEventList == s
        decreases |timerEventList| - it
      {
        var removed;
        it, removed := DeleteRound(p, s, it, now);
        needSave := needSave || removed;
      }
      assert timerEventList[..it] + [] == timerEventList;
    }

    method FinishDelete(needSave: bool, now: int)
      requires Cached() && receiver && Distinct(timerEventList)
      requires needSave || saveFile == timerEventList
      modifies `timers, `resumeAt, `saveFile, `saves
      ensures Valid() && saves == old(saves) + if needSave then 1 else 0
      ensures nearest.Some? ==> timers[|timers| - 1].started == now
    {
      if nearest.Some? {
        var _ := ResetTimer(now);
      }
      if needSave {
        SaveState();
      }
    }

    /** Schedules an alarm; the same alarm again is ignored. */
    method AddAlarm(alarm: Alarm, now: int)
      requires Valid()
      modifies this
      ensures Valid()
      ensures timerEventList == old(timerEventList) + if alarm in old(timerEventList) then [] else [alarm]
      ensures saves == old(saves) + if alarm in old(timerEventList) then 0 else 1
      ensures if nearest == old(nearest) then timers == old(timers) && resumeAt == old(resumeAt)
              else nearest == Some(alarm) && |timers| == 1 && timers[0].started == now
                   && resumeAt == if alarm.time < now then now else alarm.time
    {
      receiver := true;
      for it := 0 to |timerEventList|
        invariant timerEventList == old(timerEventList) && receiver
        invariant nearest == old(nearest) && timers == old(timers) && resumeAt == old(resumeAt)
        invariant saves == old(saves)
        invariant forall i :: 0 <= i < it ==> timerEventList[i] != alarm
        invariant Valid()
      {
        if timerEventList[it] == alarm {
          return;
        }
      }
      NearestAppended(timerEventList, nearest, alarm);
      timerEventList := timerEventList + [alarm];
      if nearest.Some? {
        if alarm.time < nearest.value.time {
          nearest := Some(alarm);
          KillTimers();
          var _ := ResetTimer(now);
        }
      } else {
        nearest := Some(alarm);
        var _ := ResetTimer(now);
      }
      SaveState();
    }

    /** Unschedules matching alarms, but for those next to one just removed. */
    method DeleteAlarm(p: Pattern, now: int)
      requires Valid()
      modifies this
      ensures Valid() && timerEventList == Spared(p, old(timerEventList))
      ensures saves == old(saves) + if timerEventList == old(timerEventList) then 0 else 1
      ensures nearest.Some? ==> timers[|timers| - 1].started == now
    {
      if receiver {
        SparedMembers(p, timerEventList);
        var needSave := DeleteMatching(p, now);
        FinishDelete(needSave, now);
      } else {
        assert timerEventList == [];
      }
    }

    /** The timer has gone off: an alarm whose time has come is sent, the earliest first, and
        leaves the list. (There is a cached alarm, as a timer is running.) */
    method TimerEvent(now: int) returns (sent: Option<Alarm>)
      requires Valid() && timers != []
      modifies this
      ensures Valid()
      ensures sent == if old(nearest).value.time <= now then old(nearest) else None
      ensures if nearest.None? then timers == [] else |timers| == 1 && timers[0].started == now
      ensures saves == old(saves) + if sent.Some? then 1 else 0
      ensures sent.Some? ==> exists i :: 0 <= i < |old(timerEventList)| && old(timerEventList)[i] == sent.value
                                         && forall j :: 0 <= j < i ==> sent.value.time < old(timerEventList)[j].time
      ensures match sent
              case None => timerEventList == old(timerEventList) && forall x :: x in timerEventList ==> x.time > now
              case Some(a) => a.time <= now && a in old(timerEventList)
                              && timerEventList == Without(old(timerEventList), a)
                              && forall x :: x in timerEventList ==> a.time <= x.time
    {
      sent := None;
      var needSave := false;
      KillTimers();
      var n := nearest.value;
      NearestBound(timerEventList, n);
      WithoutMembers(timerEventList, n);
      if n.time <= now {
        sent := Some(n);
        timerEventList := Without(timerEventList, n);
        needSave := true;
      }
      SetNearestTimerEvent(now);
      if needSave {
        SaveState();
      }
    }
  }
}
