/**
 * The activity chart of src/pages/dashboard.tsx: fetch the click events of a
 * trailing window, count them per minute (all users, and the signed-in
 * viewer alone), align both counts over the sorted union of minutes, and
 * choose the datasets to draw. Also the clamp applied to the requested
 * number of hours.
 *
 * Times are integer milliseconds since the epoch; the viewer's time-zone
 * offset is a fixed number of minutes (`getTimezoneOffset()`), and a minute
 * bucket is the integer millisecond value of the shifted, truncated time.
 * Because the source's bucket label is the fixed-width text
 * `YYYY-MM-DD HH:MM` of that same instant, sorting the labels as strings
 * orders them exactly as the integers are ordered here.
 */
module Dashboard {
  import opened Wrappers
  import opened Interfaces

  const MsPerMinute: int := 60000
  const MsPerHour: int := 1000 * 60 * 60
  const DefaultHours: int := 4
  const MinHours: int := 2
  const MaxHours: int := 24

  const TotalLabel: string := "Total Clicks"
  const ViewerLabel: string := "Your Clicks"

  /** Clicks per minute bucket, the `Record<string, number>` of the source. */
  type Counts = map<int, nat>

  // ---------------------------------------------------------------------------
  // Selecting events

  /** Which events a pass keeps: those of the trailing window, or those of one viewer. */
  datatype Keep = Since(cutoff: int) | ByUser(viewer: Option<string>)

  predicate Keeps(k: Keep, e: ClickInfo)
  {
    match k
    case Since(cutoff) => e.timestamp >= cutoff
    // `data.userId === user?.id`: with nobody signed in no event matches
    case ByUser(viewer) => viewer == Some(e.userId)
  }

  /** The events of `evs` that `k` keeps, in their order. */
  function Filter(evs: seq<ClickInfo>, k: Keep): (r: seq<ClickInfo>)
    ensures |r| <= |evs|
  {
    if evs == [] then []
    else
      var last := evs[|evs| - 1];
      Filter(evs[..|evs| - 1], k) + (if Keeps(k, last) then [last] else [])
  }

  /** Start of the trailing window (src/pages/dashboard.tsx:65); the query keeps events at or after it. */
  function Cutoff(now: int, hours: int): int
  {
    now - MsPerHour * hours
  }

  /** The window keeps exactly the clicks at most `hours` hours old, and no click from the future is lost. */
  lemma InWindow(now: int, hours: int, e: ClickInfo)
    ensures Keeps(Since(Cutoff(now, hours)), e) <==> now - e.timestamp <= hours * MsPerHour
    ensures hours >= 0 && e.timestamp >= now ==> Keeps(Since(Cutoff(now, hours)), e)
  {
  }

  // ---------------------------------------------------------------------------
  // Minute buckets

  /**
   * The bucket of a timestamp (src/pages/dashboard.tsx:76-81): seconds and
   * milliseconds zeroed, then shifted by the offset.
   */
  function MinuteKey(ts: int, offsetMinutes: int): (k: int)
    ensures k % MsPerMinute == 0
    ensures ts - offsetMinutes * MsPerMinute - MsPerMinute < k <= ts - offsetMinutes * MsPerMinute
  {
    (ts - ts % MsPerMinute) - offsetMinutes * MsPerMinute
  }

  /** Two events share a bucket exactly when they fall in the same minute. */
  lemma SameMinuteSameKey(t1: int, t2: int, offsetMinutes: int)
    ensures MinuteKey(t1, offsetMinutes) == MinuteKey(t2, offsetMinutes) <==> t1 / MsPerMinute == t2 / MsPerMinute
  {
    assert t1 - t1 % MsPerMinute == MsPerMinute * (t1 / MsPerMinute);
    assert t2 - t2 % MsPerMinute == MsPerMinute * (t2 / MsPerMinute);
  }

  /** Later events never get an earlier bucket, so bucket order is time order. */
  lemma KeyMonotone(t1: int, t2: int, offsetMinutes: int)
    requires t1 <= t2
    ensures MinuteKey(t1, offsetMinutes) <= MinuteKey(t2, offsetMinutes)
  {
    assert t1 - t1 % MsPerMinute == MsPerMinute * (t1 / MsPerMinute);
    assert t2 - t2 % MsPerMinute == MsPerMinute * (t2 / MsPerMinute);
    assert t1 / MsPerMinute <= t2 / MsPerMinute;
  }

  // ---------------------------------------------------------------------------
  // Counting

  function Get(m: Counts, k: int): nat
  {
    if k in m then m[k] else 0
  }

  /** `m[k] = (m[k] || 0) + 1`. */
  function Bump(m: Counts, k: int): Counts
  {
    m[k := Get(m, k) + 1]
  }

  /** A bump adds one to its bucket, creating it at 1 when missing, and leaves every other bucket alone. */
  lemma BumpMeans(m: Counts, k: int)
    ensures Bump(m, k).Keys == m.Keys + {k}
    ensures Get(Bump(m, k), k) == Get(m, k) + 1
    ensures forall j :: j != k ==> Get(Bump(m, k), j) == Get(m, j)
  {
  }

  /** The buckets the events of `evs` fall in. */
  function KeysOf(evs: seq<ClickInfo>, offsetMinutes: int): set<int>
  {
    set e | e in evs :: MinuteKey(e.timestamp, offsetMinutes)
  }

  /**
   * The counts the `forEach` of src/pages/dashboard.tsx:74-87 builds from
   * `evs`, one bump per event in order. Only buckets that received an event
   * are present, and none holds 0.
   */
  function Tally(evs: seq<ClickInfo>, offsetMinutes: int): Counts
  {
    if evs == [] then map[]
    else Bump(Tally(evs[..|evs| - 1], offsetMinutes), MinuteKey(evs[|evs| - 1].timestamp, offsetMinutes))
  }

  /** Exactly the buckets that received an event are present, and none holds 0. */
  lemma {:induction false} TallyKeys(evs: seq<ClickInfo>, offsetMinutes: int)
    ensures Tally(evs, offsetMinutes).Keys == KeysOf(evs, offsetMinutes)
    ensures forall k :: k in Tally(evs, offsetMinutes) ==> Tally(evs, offsetMinutes)[k] > 0
  {
    if evs != [] {
      var init := evs[..|evs| - 1];
      var last := evs[|evs| - 1];
      TallyKeys(init, offsetMinutes);
      assert evs == init + [last];
      assert KeysOf(evs, offsetMinutes) == KeysOf(init, offsetMinutes) + {MinuteKey(last.timestamp, offsetMinutes)};
    }
  }

  /**
   * `getClicksPerMinute` (src/pages/dashboard.tsx:63-90): query the events at
   * or after the cutoff, then count them. The log's order is the order the
   * store returns them in.
   */
  method ClicksPerMinute(log: seq<ClickInfo>, now: int, hours: int, viewer: Option<string>, offsetMinutes: int)
    returns (totalClicks: Counts, userClicks: Counts)
    ensures var events := Filter(log, Since(Cutoff(now, hours)));
            && totalClicks == Tally(events, offsetMinutes)
            && userClicks == Tally(Filter(events, ByUser(viewer)), offsetMinutes)
    ensures forall k :: k in userClicks ==> k in totalClicks && userClicks[k] <= totalClicks[k]
  {
    var events := Filter(log, Since(Cutoff(now, hours)));
    totalClicks, userClicks := CountPerMinute(events, viewer, offsetMinutes);
    ViewerKeysWithinTotal(events, viewer, offsetMinutes);
  }

  /**
   * The `forEach` of src/pages/dashboard.tsx:74-87: one pass over the fetched
   * events, bumping the total's bucket for every event and the viewer's bucket
   * for the viewer's own events.
   */
  method CountPerMinute(events: seq<ClickInfo>, viewer: Option<string>, offsetMinutes: int)
    returns (totalClicks: Counts, userClicks: Counts)
    ensures totalClicks == Tally(events, offsetMinutes)
    ensures userClicks == Tally(Filter(events, ByUser(viewer)), offsetMinutes)
  {
    totalClicks := map[];
    userClicks := map[];
    ghost var mine: seq<ClickInfo> := [];
    var i := 0;
    while i < |events|
      invariant 0 <= i <= |events|
      invariant totalClicks == Tally(events[..i], offsetMinutes)
      invariant mine == Filter(events[..i], ByUser(viewer))
      invariant userClicks == Tally(mine, offsetMinutes)
    {
      var data := events[i];
      assert events[..i + 1] == events[..i] + [data];
      FilterSnoc(events[..i], data, ByUser(viewer));
      TallySnoc(events[..i], data, offsetMinutes);
      var timeKey := MinuteKey(data.timestamp, offsetMinutes);
      totalClicks := Bump(totalClicks, timeKey);
      if viewer == Some(data.userId) {
        TallySnoc(mine, data, offsetMinutes);
        userClicks := Bump(userClicks, timeKey);
        mine := mine + [data];
      }
      i := i + 1;
    }
    assert events[..|events|] == events;
  }

  /** Every bucket of the viewer's counts is a bucket of the total, with no more clicks. */
  lemma ViewerKeysWithinTotal(evs: seq<ClickInfo>, viewer: Option<string>, offsetMinutes: int)
    ensures var total := Tally(evs, offsetMinutes);
            var user := Tally(Filter(evs, ByUser(viewer)), offsetMinutes);
            forall k :: k in user ==> k in total && user[k] <= total[k]
  {
    var total := Tally(evs, offsetMinutes);
    var user := Tally(Filter(evs, ByUser(viewer)), offsetMinutes);
    TallyKeys(Filter(evs, ByUser(viewer)), offsetMinutes);
    forall k | k in user ensures k in total && user[k] <= total[k] {
      ViewerWithinTotal(evs, viewer, offsetMinutes, k);
    }
  }

  /** One more event bumps its bucket. */
  lemma TallySnoc(evs: seq<ClickInfo>, e: ClickInfo, offsetMinutes: int)
    ensures Tally(evs + [e], offsetMinutes) == Bump(Tally(evs, offsetMinutes), MinuteKey(e.timestamp, offsetMinutes))
  {
    var s := evs + [e];
    assert s[..|s| - 1] == evs;
  }

  /** One more event is appended to the filtered events exactly when it is kept. */
  lemma FilterSnoc(evs: seq<ClickInfo>, e: ClickInfo, k: Keep)
    ensures Filter(evs + [e], k) == Filter(evs, k) + if Keeps(k, e) then [e] else []
  {
    var s := evs + [e];
    assert s[..|s| - 1] == evs;
  }

  /** The viewer's count in a bucket never exceeds the total count there. */
  lemma {:induction false} ViewerWithinTotal(evs: seq<ClickInfo>, viewer: Option<string>, offsetMinutes: int, k: int)
    ensures Get(Tally(Filter(evs, ByUser(viewer)), offsetMinutes), k) <= Get(Tally(evs, offsetMinutes), k)
  {
    if evs != [] {
      var init := evs[..|evs| - 1];
      var last := evs[|evs| - 1];
      ViewerWithinTotal(init, viewer, offsetMinutes, k);
      assert evs == init + [last];
      FilterSnoc(init, last, ByUser(viewer));
      TallySnoc(init, last, offsetMinutes);
      var mine := Filter(init, ByUser(viewer));
      if viewer == Some(last.userId) {
        TallySnoc(mine, last, offsetMinutes);
      } else {
        assert mine + [] == mine;
      }
    }
  }

  // ---------------------------------------------------------------------------
  // Order independence

  lemma BumpCommutes(m: Counts, a: int, b: int)
    ensures Bump(Bump(m, a), b) == Bump(Bump(m, b), a)
  {
  }

  /** Moving one event to the end does not change the counts. */
  lemma {:induction false} TallyMoveToEnd(p: seq<ClickInfo>, x: ClickInfo, q: seq<ClickInfo>, offsetMinutes: int)
    ensures Tally(p + [x] + q, offsetMinutes) == Bump(Tally(p + q, offsetMinutes), MinuteKey(x.timestamp, offsetMinutes))
    decreases |q|
  {
    if q == [] {
      assert p + [x] + q == p + [x];
      assert (p + [x])[..|p|] == p;
      assert p + q == p;
    } else {
      var q' := q[..|q| - 1];
      var y := q[|q| - 1];
      TallyMoveToEnd(p, x, q', offsetMinutes);
      var s := p + [x] + q;
      assert s[..|s| - 1] == p + [x] + q' && s[|s| - 1] == y;
      var t := p + q;
      assert t[..|t| - 1] == p + q' && t[|t| - 1] == y;
      BumpCommutes(Tally(p + q', offsetMinutes), MinuteKey(x.timestamp, offsetMinutes), MinuteKey(y.timestamp, offsetMinutes));
    }
  }

  /** The counts depend only on which events there are, not on the order they are fetched in. */
  lemma {:induction false} TallyOrderFree(a: seq<ClickInfo>, b: seq<ClickInfo>, offsetMinutes: int)
    requires multiset(a) == multiset(b)
    ensures Tally(a, offsetMinutes) == Tally(b, offsetMinutes)
    decreases |a|
  {
    if a != [] {
      var a' := a[..|a| - 1];
      var x := a[|a| - 1];
      assert a == a' + [x];
      assert x in multiset(b);
      var i :| 0 <= i < |b| && b[i] == x;
      var b' := b[..i] + b[i + 1..];
      assert b == b[..i] + [x] + b[i + 1..];
      assert multiset(b') == multiset(b) - multiset{x};
      assert multiset(a') == multiset(a) - multiset{x};
      TallyOrderFree(a', b', offsetMinutes);
      TallyMoveToEnd(b[..i], x, b[i + 1..], offsetMinutes);
    }
  }

  /** An event occurs in the filtered log as often as in the log when it is kept, and not at all otherwise. */
  lemma {:induction false} FilterMultiplicity(a: seq<ClickInfo>, k: Keep, e: ClickInfo)
    ensures multiset(Filter(a, k))[e] == if Keeps(k, e) then multiset(a)[e] else 0
  {
    if a != [] {
      var init := a[..|a| - 1];
      var last := a[|a| - 1];
      FilterMultiplicity(init, k, e);
      assert a == init + [last];
      assert multiset(a) == multiset(init) + multiset{last};
    }
  }

  /** Filtering a permutation gives a permutation. */
  lemma FilterOrderFree(a: seq<ClickInfo>, b: seq<ClickInfo>, k: Keep)
    requires multiset(a) == multiset(b)
    ensures multiset(Filter(a, k)) == multiset(Filter(b, k))
  {
    forall e ensures multiset(Filter(a, k))[e] == multiset(Filter(b, k))[e] {
      FilterMultiplicity(a, k, e);
      FilterMultiplicity(b, k, e);
    }
  }

  /** The filtered log holds exactly the events of the log that are kept. */
  lemma FilterMembers(a: seq<ClickInfo>, k: Keep)
    ensures forall e :: e in Filter(a, k) <==> e in a && Keeps(k, e)
  {
    forall e ensures e in Filter(a, k) <==> e in a && Keeps(k, e) {
      FilterMultiplicity(a, k, e);
    }
  }

  // ---------------------------------------------------------------------------
  // Sorted union of keys and aligned values

  predicate StrictlyIncreasing(s: seq<int>)
  {
    forall i, j :: 0 <= i < j < |s| ==> s[i] < s[j]
  }

  lemma NonEmpty(s: set<int>)
    requires s != {}
    ensures exists y :: y in s
  {
    if forall y :: y !in s {
      assert false;
    }
  }

  /** `m` is the least element of `s`. */
  predicate IsLeast(s: set<int>, m: int)
  {
    m in s && forall x :: x in s ==> m <= x
  }

  lemma {:induction false} LeastExists(s: set<int>)
    requires s != {}
    ensures exists m :: IsLeast(s, m)
    decreases |s|
  {
    NonEmpty(s);
    var y :| y in s;
    var rest := s - {y};
    if rest == {} {
      forall x | x in s ensures y <= x {
        assert x !in rest;
      }
      assert IsLeast(s, y);
    } else {
      LeastExists(rest);
      var m :| IsLeast(rest, m);
      if y < m {
        forall x | x in s ensures y <= x {
          if x != y { assert x in rest; }
        }
        assert IsLeast(s, y);
      } else {
        forall x | x in s ensures m <= x {
          if x != y { assert x in rest; }
        }
        assert IsLeast(s, m);
      }
    }
  }

  /** `Object.keys(...).sort()` on a set of buckets: each once, in increasing order. */
  function SortedKeys(s: set<int>): (r: seq<int>)
    ensures StrictlyIncreasing(r)
    ensures |r| == |s|
    ensures forall k :: k in r <==> k in s
    decreases |s|
  {
    if s == {} then []
    else
      LeastExists(s);
      var m :| IsLeast(s, m);
      [m] + SortedKeys(s - {m})
  }

  /** `sortedKeys.map(k => counts[k] || 0)`: one value per key, 0 where the key is absent. */
  function Align(keys: seq<int>, m: Counts): (r: seq<nat>)
    ensures |r| == |keys|
    ensures forall i :: 0 <= i < |keys| ==> r[i] == Get(m, keys[i])
  {
    if keys == [] then [] else [Get(m, keys[0])] + Align(keys[1..], m)
  }

  /** The sorted buckets and the two aligned value sequences. */
  datatype Series = Series(keys: seq<int>, totals: seq<nat>, mine: seq<nat>)

  /** src/pages/dashboard.tsx:96-98. */
  function BuildSeries(totalClicks: Counts, userClicks: Counts): (r: Series)
    ensures StrictlyIncreasing(r.keys)
    ensures forall k :: k in r.keys <==> k in totalClicks || k in userClicks
    ensures |r.totals| == |r.keys| && |r.mine| == |r.keys|
    ensures forall i :: 0 <= i < |r.keys| ==>
              r.totals[i] == Get(totalClicks, r.keys[i]) && r.mine[i] == Get(userClicks, r.keys[i])
  {
    var keys := SortedKeys(totalClicks.Keys + userClicks.Keys);
    Series(keys, Align(keys, totalClicks), Align(keys, userClicks))
  }

  // ---------------------------------------------------------------------------
  // Datasets and the whole pipeline

  datatype Dataset = Dataset(title: string, data: seq<nat>)

  /** The chart's x positions (minute buckets) and its datasets; label text formatting is not modelled. */
  datatype Chart = Chart(keys: seq<int>, datasets: seq<Dataset>)

  /** src/pages/dashboard.tsx:105-114: the total always, the viewer's series only when someone is signed in. */
  function Datasets(s: Series, signedIn: bool): (r: seq<Dataset>)
    ensures |r| == if signedIn then 2 else 1
    ensures r[0] == Dataset(TotalLabel, s.totals)
    ensures signedIn ==> r[1] == Dataset(ViewerLabel, s.mine)
  {
    [Dataset(TotalLabel, s.totals)] + if signedIn then [Dataset(ViewerLabel, s.mine)] else []
  }

  /** What the dashboard draws for a log, a time, a window, a viewer and an offset. */
  function Activity(log: seq<ClickInfo>, now: int, hours: int, viewer: Option<string>, offsetMinutes: int): Chart
  {
    var events := Filter(log, Since(Cutoff(now, hours)));
    var s := BuildSeries(Tally(events, offsetMinutes), Tally(Filter(events, ByUser(viewer)), offsetMinutes));
    Chart(s.keys, Datasets(s, viewer.Some?))
  }

  /**
   * `fetchData` (src/pages/dashboard.tsx:93-120): count, then align and choose
   * the datasets. `log` is `None` when reading the clicks fails; the error is
   * only logged and the chart already on screen, `prev`, stays.
   */
  method FetchData(log: Option<seq<ClickInfo>>, prev: Chart, now: int, hours: int, viewer: Option<string>, offsetMinutes: int)
    returns (chart: Chart)
    ensures log.None? ==> chart == prev
    ensures log.Some? ==> chart == Activity(log.value, now, hours, viewer, offsetMinutes)
  {
    if log.None? {
      chart := prev;
    } else {
      var totalClicks, userClicks := ClicksPerMinute(log.value, now, hours, viewer, offsetMinutes);
      var series := BuildSeries(totalClicks, userClicks);
      chart := Chart(series.keys, Datasets(series, viewer.Some?));
    }
  }

  /**
   * The chart's shape: buckets in increasing order, the total's dataset first,
   * the viewer's second exactly when someone is signed in, and one value per
   * bucket in each.
   */
  lemma ActivityShape(log: seq<ClickInfo>, now: int, hours: int, viewer: Option<string>, offsetMinutes: int)
    ensures var c := Activity(log, now, hours, viewer, offsetMinutes);
            && StrictlyIncreasing(c.keys)
            && |c.datasets| == (if viewer.Some? then 2 else 1)
            && c.datasets[0].title == TotalLabel
            && (viewer.Some? ==> c.datasets[1].title == ViewerLabel)
            && forall i :: 0 <= i < |c.datasets| ==> |c.datasets[i].data| == |c.keys|
  {
    var events := Filter(log, Since(Cutoff(now, hours)));
    var s := BuildSeries(Tally(events, offsetMinutes), Tally(Filter(events, ByUser(viewer)), offsetMinutes));
    var ds := Datasets(s, viewer.Some?);
    assert Activity(log, now, hours, viewer, offsetMinutes) == Chart(s.keys, ds);
    assert |s.totals| == |s.keys| && |s.mine| == |s.keys|;
  }

  /**
   * The chart's buckets are exactly the minutes that hold an event of the
   * window, each once and in time order: the viewer's buckets add nothing.
   */
  lemma ChartKeysAreEventMinutes(log: seq<ClickInfo>, now: int, hours: int, viewer: Option<string>, offsetMinutes: int)
    ensures var c := Activity(log, now, hours, viewer, offsetMinutes);
            && StrictlyIncreasing(c.keys)
            && forall k :: k in c.keys <==> k in KeysOf(Filter(log, Since(Cutoff(now, hours))), offsetMinutes)
  {
    var events := Filter(log, Since(Cutoff(now, hours)));
    var mine := Filter(events, ByUser(viewer));
    var total := Tally(events, offsetMinutes);
    var user := Tally(mine, offsetMinutes);
    TallyKeys(events, offsetMinutes);
    TallyKeys(mine, offsetMinutes);
    forall k | k in user ensures k in total {
      ViewerWithinTotal(events, viewer, offsetMinutes, k);
    }
    assert total.Keys + user.Keys == KeysOf(events, offsetMinutes);
  }

  /** Pointwise, the viewer's value never exceeds the total. */
  lemma ChartViewerWithinTotal(log: seq<ClickInfo>, now: int, hours: int, viewer: Option<string>, offsetMinutes: int)
    requires viewer.Some?
    ensures var c := Activity(log, now, hours, viewer, offsetMinutes);
            forall i :: 0 <= i < |c.keys| ==> c.datasets[1].data[i] <= c.datasets[0].data[i]
  {
    var events := Filter(log, Since(Cutoff(now, hours)));
    var c := Activity(log, now, hours, viewer, offsetMinutes);
    forall i | 0 <= i < |c.keys| ensures c.datasets[1].data[i] <= c.datasets[0].data[i] {
      ViewerWithinTotal(events, viewer, offsetMinutes, c.keys[i]);
    }
  }

  /** A filter that keeps none of the events yields nothing. */
  lemma {:induction false} FilterNone(a: seq<ClickInfo>, k: Keep)
    requires forall e :: e in a ==> !Keeps(k, e)
    ensures Filter(a, k) == []
  {
    if a != [] {
      assert a[|a| - 1] in a;
      FilterNone(a[..|a| - 1], k);
    }
  }

  /** With nobody signed in no click counts as the viewer's. */
  lemma NoViewerNoMine(evs: seq<ClickInfo>, offsetMinutes: int)
    ensures Tally(Filter(evs, ByUser(None)), offsetMinutes) == map[]
  {
    FilterNone(evs, ByUser(None));
  }

  /** An empty window draws no buckets and empty series. */
  lemma EmptyWindow(log: seq<ClickInfo>, now: int, hours: int, viewer: Option<string>, offsetMinutes: int)
    requires forall e :: e in log ==> e.timestamp < Cutoff(now, hours)
    ensures var c := Activity(log, now, hours, viewer, offsetMinutes);
            c.keys == [] && forall d :: d in c.datasets ==> d.data == []
  {
    var events := Filter(log, Since(Cutoff(now, hours)));
    FilterNone(log, Since(Cutoff(now, hours)));
    assert Filter(events, ByUser(viewer)) == [];
  }

  /** Fetching the same events in any order draws the same chart. */
  lemma ActivityOrderFree(log1: seq<ClickInfo>, log2: seq<ClickInfo>, now: int, hours: int, viewer: Option<string>, offsetMinutes: int)
    requires multiset(log1) == multiset(log2)
    ensures Activity(log1, now, hours, viewer, offsetMinutes) == Activity(log2, now, hours, viewer, offsetMinutes)
  {
    var e1 := Filter(log1, Since(Cutoff(now, hours)));
    var e2 := Filter(log2, Since(Cutoff(now, hours)));
    FilterOrderFree(log1, log2, Since(Cutoff(now, hours)));
    TallyOrderFree(e1, e2, offsetMinutes);
    FilterOrderFree(e1, e2, ByUser(viewer));
    TallyOrderFree(Filter(e1, ByUser(viewer)), Filter(e2, ByUser(viewer)), offsetMinutes);
  }

  // ---------------------------------------------------------------------------
  // Every event counted once

  function Sum(s: seq<nat>): nat
  {
    if s == [] then 0 else s[0] + Sum(s[1..])
  }

  /** How many times `x` appears in `keys`. */
  function Occurrences(keys: seq<int>, x: int): nat
  {
    if keys == [] then 0 else (if keys[0] == x then 1 else 0) + Occurrences(keys[1..], x)
  }

  lemma {:induction false} OccursOnce(keys: seq<int>, x: int)
    requires StrictlyIncreasing(keys)
    ensures Occurrences(keys, x) == if x in keys then 1 else 0
  {
    if keys != [] {
      OccursOnce(keys[1..], x);
      assert keys[0] == x ==> x !in keys[1..];
    }
  }

  lemma {:induction false} AlignBump(keys: seq<int>, m: Counts, x: int)
    ensures Sum(Align(keys, Bump(m, x))) == Sum(Align(keys, m)) + Occurrences(keys, x)
  {
    if keys != [] {
      AlignBump(keys[1..], m, x);
    }
  }

  /** Aligned over keys that cover every event's bucket once, the counts add up to the number of events. */
  lemma {:induction false} TotalsCountEveryEvent(evs: seq<ClickInfo>, keys: seq<int>, offsetMinutes: int)
    requires StrictlyIncreasing(keys)
    requires forall k :: k in KeysOf(evs, offsetMinutes) ==> k in keys
    ensures Sum(Align(keys, Tally(evs, offsetMinutes))) == |evs|
    decreases |evs|
  {
    if evs == [] {
      AlignEmpty(keys);
    } else {
      var init := evs[..|evs| - 1];
      var last := evs[|evs| - 1];
      assert KeysOf(init, offsetMinutes) <= KeysOf(evs, offsetMinutes);
      TotalsCountEveryEvent(init, keys, offsetMinutes);
      AlignBump(keys, Tally(init, offsetMinutes), MinuteKey(last.timestamp, offsetMinutes));
      OccursOnce(keys, MinuteKey(last.timestamp, offsetMinutes));
    }
  }

  lemma {:induction false} AlignEmpty(keys: seq<int>)
    ensures Sum(Align(keys, map[])) == 0
  {
    if keys != [] {
      AlignEmpty(keys[1..]);
    }
  }

  /** The "Total Clicks" values add up to the number of events in the window. */
  lemma TotalsSumToWindow(log: seq<ClickInfo>, now: int, hours: int, viewer: Option<string>, offsetMinutes: int)
    ensures Sum(Activity(log, now, hours, viewer, offsetMinutes).datasets[0].data) == |Filter(log, Since(Cutoff(now, hours)))|
  {
    var events := Filter(log, Since(Cutoff(now, hours)));
    ChartKeysAreEventMinutes(log, now, hours, viewer, offsetMinutes);
    TotalsCountEveryEvent(events, Activity(log, now, hours, viewer, offsetMinutes).keys, offsetMinutes);
  }

  // ---------------------------------------------------------------------------
  // The hours field

  /**
   * `handleOnclick` (src/pages/dashboard.tsx:123-133): an empty field reads as
   * -1; anything outside [2, 24] falls back to 4, anything inside is used as is.
   */
  function ClampHours(field: Option<int>): (h: int)
    ensures MinHours <= h <= MaxHours
    ensures field.Some? && MinHours <= field.value <= MaxHours ==> h == field.value
    ensures field.None? || field.value < MinHours || field.value > MaxHours ==> h == DefaultHours
  {
    var hoursRefValue := field.GetOr(-1);
    if hoursRefValue < MinHours || hoursRefValue > MaxHours then DefaultHours else hoursRefValue
  }
}
