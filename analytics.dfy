// The analytics counter of the client: for each flag name, how many times
// each value (keyed by its `json.dumps` text) was returned by `get` since the
// last report.  The source keeps it in a `defaultdict(Counter)`; here it is a
// map of maps in which a missing entry counts as zero.

module Analytics {

  type Counts = map<string, nat>
  type Counter = map<string, Counts>

  /** One tallied `get`: the flag name and the `json.dumps` of its value. */
  type Event = (string, string)

  /** `counter[flag][key]`, zero when either level is missing. */
  function Count(c: Counter, flag: string, key: string): nat
  {
    if flag in c && key in c[flag] then c[flag][key] else 0
  }

  /** Only increments write to the counter, so no inner map is empty and no
      stored count is zero. */
  predicate WellFormed(c: Counter)
  {
    forall f :: f in c ==> c[f] != map[] && forall k :: k in c[f] ==> c[f][k] >= 1
  }

  /** `counter[flag][key] += 1`. */
  function Tally(c: Counter, flag: string, key: string): (d: Counter)
    ensures Count(d, flag, key) == Count(c, flag, key) + 1
    ensures forall f, k :: (f != flag || k != key) ==> Count(d, f, k) == Count(c, f, k)
    ensures d.Keys == c.Keys + {flag}
    ensures WellFormed(c) ==> WellFormed(d)
  {
    var counts := if flag in c then c[flag] else map[];
    c[flag := counts[key := (if key in counts then counts[key] else 0) + 1]]
  }

  /** The counter after tallying `events`, in order, onto `c`. */
  function TallyAll(c: Counter, events: seq<Event>): Counter
    decreases |events|
  {
    if events == [] then c else TallyAll(Tally(c, events[0].0, events[0].1), events[1..])
  }

  /** Tallying one more event is one more `Tally`. */
  lemma {:induction false} TallyAllSnoc(c: Counter, events: seq<Event>, e: Event)
    ensures TallyAll(c, events + [e]) == Tally(TallyAll(c, events), e.0, e.1)
    decreases |events|
  {
    if events == [] {
      assert [] + [e] == [e];
      assert [e][1..] == [];
    } else {
      assert (events + [e])[0] == events[0];
      assert (events + [e])[1..] == events[1..] + [e];
      TallyAllSnoc(Tally(c, events[0].0, events[0].1), events[1..], e);
    }
  }

  /** Every count is its starting value plus the number of times its event
      occurs: the counter is the multiset of the tallied events. */
  lemma {:induction false} TallyAllCount(c: Counter, events: seq<Event>, flag: string, key: string)
    ensures Count(TallyAll(c, events), flag, key) == Count(c, flag, key) + multiset(events)[(flag, key)]
    decreases |events|
  {
    if events != [] {
      var d := Tally(c, events[0].0, events[0].1);
      TallyAllCount(d, events[1..], flag, key);
      assert events == [events[0]] + events[1..];
      assert multiset(events) == multiset([events[0]]) + multiset(events[1..]);
    }
  }

  /** One tally onto an empty counter. */
  lemma TallyOnce(flag: string, key: string)
    ensures Tally(map[], flag, key) == map[flag := map[key := 1]]
  {
    var empty: Counts := map[];
    assert empty[key := 1] == map[key := 1];
  }

  /** Two tallies of one event onto an empty counter count it twice. */
  lemma TallyTwice(flag: string, key: string)
    ensures Tally(Tally(map[], flag, key), flag, key) == map[flag := map[key := 2]]
  {
    var once: Counter := map[flag := map[key := 1]];
    TallyOnce(flag, key);
    assert once[flag][key := 2] == map[key := 2];
  }

  /** Tallying keeps the invariant. */
  lemma {:induction false} TallyAllWellFormed(c: Counter, events: seq<Event>)
    requires WellFormed(c)
    ensures WellFormed(TallyAll(c, events))
    decreases |events|
  {
    if events != [] {
      TallyAllWellFormed(Tally(c, events[0].0, events[0].1), events[1..]);
    }
  }

  /** The counter is empty exactly when nothing was tallied onto an empty
      one: the report step's `if self._analytics_counter` test. */
  lemma {:induction false} TallyAllEmpty(events: seq<Event>)
    ensures TallyAll(map[], events) == map[] <==> events == []
  {
    if events != [] {
      var e := events[|events| - 1];
      var init := events[..|events| - 1];
      assert events == init + [e];
      TallyAllSnoc(map[], init, e);
      assert e.0 in TallyAll(map[], events);
    }
  }

  // ----- Totals -----

  ghost function SumCounts(m: map<string, nat>): nat
    decreases |m|
  {
    if m == map[] then 0 else var k :| k in m; m[k] + SumCounts(m - {k})
  }

  /** The number of `get` calls a counter records. */
  ghost function Total(c: Counter): nat
  {
    SumCounts(map f | f in c :: SumCounts(c[f]))
  }

  lemma TotalEmpty()
    ensures Total(map[]) == 0
  {
    var e: Counter := map[];
    assert (map f | f in e :: SumCounts(e[f])) == map[];
  }

  lemma {:induction false} SumCountsRemove(m: map<string, nat>, k: string)
    requires k in m
    ensures SumCounts(m) == m[k] + SumCounts(m - {k})
    decreases |m|
  {
    var j :| j in m && SumCounts(m) == m[j] + SumCounts(m - {j});
    if j != k {
      SumCountsRemove(m - {j}, k);
      SumCountsRemove(m - {k}, j);
      assert m - {j} - {k} == m - {k} - {j};
    }
  }

  lemma SumCountsUpdate(m: map<string, nat>, k: string, v: nat)
    ensures SumCounts(m[k := v]) == SumCounts(m) - (if k in m then m[k] else 0) + v
  {
    SumCountsRemove(m[k := v], k);
    assert m[k := v] - {k} == m - {k};
    if k in m {
      SumCountsRemove(m, k);
    } else {
      assert m - {k} == m;
    }
  }

  lemma TotalUpdate(c: Counter, flag: string, counts: Counts)
    ensures Total(c[flag := counts])
         == Total(c) - (if flag in c then SumCounts(c[flag]) else 0) + SumCounts(counts)
  {
    var d := c[flag := counts];
    var tc := map f | f in c :: SumCounts(c[f]);
    assert (map f | f in d :: SumCounts(d[f])) == tc[flag := SumCounts(counts)];
    SumCountsUpdate(tc, flag, SumCounts(counts));
  }

  /** Each tally adds exactly one to the total. */
  lemma TallyTotal(c: Counter, flag: string, key: string)
    ensures Total(Tally(c, flag, key)) == Total(c) + 1
  {
    var counts: Counts := if flag in c then c[flag] else map[];
    var n := (if key in counts then counts[key] else 0) + 1;
    SumCountsUpdate(counts, key, n);
    TotalUpdate(c, flag, counts[key := n]);
    assert flag !in c ==> SumCounts(counts) == 0;
  }

  /** The counter records exactly as many `get` calls as were tallied. */
  lemma {:induction false} TallyAllTotal(c: Counter, events: seq<Event>)
    ensures Total(TallyAll(c, events)) == Total(c) + |events|
    decreases |events|
  {
    if events != [] {
      TallyTotal(c, events[0].0, events[0].1);
      TallyAllTotal(Tally(c, events[0].0, events[0].1), events[1..]);
    }
  }
}
