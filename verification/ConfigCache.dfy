/** The cache of parsed configuration files (library/config.cpp): a size counter that must
    agree with what is cached, and eviction of the least recently used when it is too big. */
module ConfigCaches {

  const CACHE_SIZE := 8192
  const UINT := 0x1_0000_0000

  /** An unsigned int of the program. */
  type Word = x: int | 0 <= x < UINT

  /** A cached file: its contents (a number standing for them), what stat said of it, and
      when it was last used. */
  datatype ConfigData = ConfigData(cfg: int, mtime: int, size: nat, sec: int, usec: int)

  /** What stat reports of a file. */
  datatype Stat = Stat(mtime: int, size: int)

  predicate Earlier(a: ConfigData, b: ConfigData) {
    a.sec < b.sec || (a.sec == b.sec && a.usec < b.usec)
  }

  // ---------- the summed size ----------

  ghost function Total(m: map<string, ConfigData>): nat {
    if m == map[] then 0
    else
      var k :| k in m;
      m[k].size + Total(m - {k})
  }

  /** The sum does not depend on the order in which it is taken. */
  lemma {:induction false} TotalWithout(m: map<string, ConfigData>, k: string)
    requires k in m
    ensures Total(m) == m[k].size + Total(m - {k})
    decreases |m|
  {
    var j :| j in m && Total(m) == m[j].size + Total(m - {j});
    if j != k {
      TotalWithout(m - {j}, k);
      TotalWithout(m - {k}, j);
      assert m - {j} - {k} == m - {k} - {j};
    }
  }

  lemma TotalWith(m: map<string, ConfigData>, k: string, d: ConfigData)
    ensures Total(m[k := d]) == Total(m - {k}) + d.size
  {
    TotalWithout(m[k := d], k);
    assert m[k := d] - {k} == m - {k};
  }

  /** Unsigned arithmetic that goes under or over comes back into range. */
  function Unsigned(x: int): Word { x % UINT }

  /** While a sum is less than 4 GB the counter is the sum, and beyond it differs by a
      multiple of that. */
  lemma UnsignedExact(x: int)
    ensures Unsigned(x) == x <==> 0 <= x < 0x1_0000_0000
    ensures (x - Unsigned(x)) % 0x1_0000_0000 == 0
  {
  }

  lemma Borrow(x: int, n: int)
    ensures Unsigned(Unsigned(x) - n) == Unsigned(x - n)
    ensures Unsigned(Unsigned(x) + n) == Unsigned(x + n)
  {
  }

  /** Taking an entry out of a sum to which x has been added. */
  lemma RemoveCounts(m: map<string, ConfigData>, k: string, x: int)
    ensures Unsigned(Total(m - {k}) + x)
            == if k in m then Unsigned(Unsigned(Total(m) + x) - m[k].size) else Unsigned(Total(m) + x)
  {
    if k in m {
      TotalWithout(m, k);
      Borrow(Total(m) + x, m[k].size);
    } else {
      assert m - {k} == m;
    }
  }

  // ---------- eviction ----------

  /** What is left of m once the files of `evicted` have gone, the least recent first. */
  ghost predicate Evicted(m: map<string, ConfigData>, left: map<string, ConfigData>, evicted: seq<string>) {
    && (forall e :: e in evicted ==> e in m)
    && left == m - (set k | k in evicted)
    && forall e, k :: e in evicted && k in left ==> !Earlier(left[k], m[e])
  }

  /** Every evicted file was last used at no later second than any that is left, and within
      the same second at no later microsecond. */
  ghost predicate UsedNoLater(m: map<string, ConfigData>, left: map<string, ConfigData>, evicted: seq<string>) {
    forall e, k :: e in evicted && k in left ==>
      e in m && (m[e].sec < left[k].sec || (m[e].sec == left[k].sec && m[e].usec <= left[k].usec))
  }

  lemma EvictedOrder(m: map<string, ConfigData>, left: map<string, ConfigData>, evicted: seq<string>)
    requires Evicted(m, left, evicted)
    ensures UsedNoLater(m, left, evicted)
  {
  }

  /** Before the last eviction the counter was over the limit. */
  ghost predicate Needed(m: map<string, ConfigData>, left: map<string, ConfigData>, evicted: seq<string>) {
    evicted != [] ==>
      var e := evicted[|evicted| - 1];
      e in m && Unsigned(Total(left) + m[e].size) > 8192
  }

  lemma EvictedStep(m: map<string, ConfigData>, c: map<string, ConfigData>, evicted: seq<string>, lru: string)
    requires Evicted(m, c, evicted) && lru in c
    requires forall k :: k in c ==> !Earlier(c[k], c[lru])
    ensures Evicted(m, c - {lru}, evicted + [lru])
  {
    assert (set k | k in evicted + [lru]) == (set k | k in evicted) + {lru};
    assert c - {lru} == m - (set k | k in evicted + [lru]);
  }

  class ConfigCache {
    var cached: map<string, ConfigData>
    var totalSize: Word
    var timer: bool

    /** The counter is the summed size of what is cached, as far as its width goes; while
        the sum is in range nothing wraps. */
    ghost predicate Valid()
      reads this
    {
      Counts(0)
    }

    /** The counter is the summed size of what is cached and x more. */
    ghost predicate Counts(x: int)
      reads this
    {
      totalSize == Unsigned(Total(cached) + x)
    }

    constructor ()
      ensures Valid() && cached == map[] && !timer
    {
      cached, totalSize, timer := map[], 0, false;
    }

    /** Drops a file. However far the counter is ahead of what is cached, it stays so far
        ahead of what is left. */
    method Remove(fileName: string)
      modifies `cached, `totalSize
      ensures cached == old(cached) - {fileName}
      ensures forall x :: old(Counts(x)) ==> Counts(x)
    {
      forall x | Counts(x)
        ensures Unsigned(Total(cached - {fileName}) + x)
                == if fileName in cached then Unsigned(totalSize - cached[fileName].size) else totalSize
      {
        RemoveCounts(cached, fileName, x);
      }
      if fileName !in cached {
        assert cached - {fileName} == cached;
        return;
      }
      totalSize := Unsigned(totalSize - cached[fileName].size);
      cached := cached - {fileName};
    }

    /** Caches a file, replacing what was cached of it; big files are not cached. The timer
        is started when the cache is full. */
    method Insert(fileName: string, data: ConfigData)
      requires Valid()
      modifies this
      ensures Valid()
      ensures cached == (if data.size >= 4096 then old(cached) else old(cached)[fileName := data])
      ensures timer == (old(timer) || (data.size < 4096 && totalSize >= 8192))
    {
      if data.size >= CACHE_SIZE / 2 {
        return;
      }
      Borrow(Total(cached), data.size);
      totalSize := Unsigned(totalSize + data.size);
      assert Counts(data.size);
      Remove(fileName);
      TotalWith(cached, fileName, data);
      assert cached - {fileName} == cached;
      cached := cached[fileName := data];
      assert cached == old(cached)[fileName := data];
      if totalSize >= CACHE_SIZE {
        if !timer {
          timer := true;
        }
      }
    }

    /** Answers from the cache only if the file is as it was; a hit makes the entry the most
        recently used. */
    method Find(fileName: string, stat: Stat, sec: int, usec: int) returns (found: bool, cfg: int)
      requires Valid()
      modifies `cached
      ensures Valid()
      ensures found <==> fileName in old(cached) && old(cached)[fileName].mtime == stat.mtime
                         && old(cached)[fileName].size == stat.size
      ensures found ==> cfg == old(cached)[fileName].cfg
                        && cached == old(cached)[fileName := old(cached)[fileName].(sec := sec, usec := usec)]
      ensures !found ==> cached == old(cached)
    {
      cfg := 0;
      if fileName in cached {
        var data := cached[fileName];
        if data.mtime == stat.mtime && data.size == stat.size {
          TotalWithout(cached, fileName);
          TotalWith(cached, fileName, data.(sec := sec, usec := usec));
          cached := cached[fileName := data.(sec := sec, usec := usec)];
          return true, data.cfg;
        }
      }
      return false, cfg;
    }

    /** Drops an entry used no later than any other. */
    method RemoveLru() returns (ghost lru: string)
      requires Valid() && cached != map[]
      modifies `cached, `totalSize
      ensures Valid() && lru in old(cached) && cached == old(cached) - {lru}
      ensures forall k :: k in old(cached) ==>
                old(cached)[lru].sec < old(cached)[k].sec
                || (old(cached)[lru].sec == old(cached)[k].sec && old(cached)[lru].usec <= old(cached)[k].usec)
    {
      var first :| first in cached;
      var least := first;
      var left := cached.Keys - {first};
      while left != {}
        invariant left <= cached.Keys && least in cached
        invariant forall k :: k in cached && k !in left ==> !Earlier(cached[k], cached[least])
        decreases left
      {
        var it :| it in left;
        if Earlier(cached[it], cached[least]) {
          least := it;
        }
        left := left - {it};
      }
      lru := least;
      RemoveCounts(cached, least, 0);
      totalSize := Unsigned(totalSize - cached[least].size);
      cached := cached - {least};
    }

    /** The body of the timer's loop. */
    method Evict(ghost m: map<string, ConfigData>, ghost evicted: seq<string>) returns (ghost evicted': seq<string>)
      requires Valid() && totalSize > CACHE_SIZE && Evicted(m, cached, evicted)
      modifies `cached, `totalSize
      ensures Valid() && Evicted(m, cached, evicted') && Needed(m, cached, evicted')
      ensures |cached| < |old(cached)| && evicted' != []
    {
      ghost var c := cached;
      var lru := RemoveLru();
      EvictedStep(m, c, evicted, lru);
      TotalWithout(c, lru);
      evicted' := evicted + [lru];
    }

    /** Evicts until the counter is down to the limit. What stays was used no earlier than
        what goes, what stays is unchanged, and no more goes than has to: before the last
        eviction the counter was over the limit. */
    method TimerEvent() returns (ghost evicted: seq<string>)
      requires Valid()
      modifies this
      ensures Valid() && totalSize <= CACHE_SIZE && !timer
      ensures Evicted(old(cached), cached, evicted) && Needed(old(cached), cached, evicted)
      ensures UsedNoLater(old(cached), cached, evicted)
      ensures totalSize <= 8192 && (evicted == [] <==> old(totalSize) <= 8192)
    {
      evicted := [];
      ghost var m := cached;
      assert Evicted(m, m, []) by { assert m == m - {}; }
      while totalSize > CACHE_SIZE
        invariant Valid() && Evicted(m, cached, evicted) && Needed(m, cached, evicted)
        invariant if evicted == [] then totalSize == old(totalSize) else old(totalSize) > CACHE_SIZE
        decreases |cached|
      {
        evicted := Evict(m, evicted);
      }
      EvictedOrder(m, cached, evicted);
      timer := false;
    }
  }
}
