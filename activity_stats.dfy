/** Per-activity statistics of one member's history (`getActivityStats`,
    app/dashboard/members/page.tsx): the history rows are grouped by activity
    name in a dictionary updated in place, each group counts its rows and
    sums their per-person share, and the groups are listed by total,
    largest first. */
module ActivityStats {

  /** A history row: a transaction the member took part in. */
  datatype HistoryRow = HistoryRow(
    id: string,
    activity_name: string,
    date: string,
    total_amount: real,
    per_person: real)

  /** The dictionary value kept per activity while scanning. */
  datatype Acc = Acc(count: nat, total: real)

  /** One entry of the result. */
  datatype ActivityStat = ActivityStat(name: string, count: nat, total: real)

  // ---------------------------------------------------------------------
  // Specification

  /** Number of rows of `h` for activity `name`. */
  function CountOf(h: seq<HistoryRow>, name: string): (c: nat)
    ensures c <= |h|
  {
    if h == [] then 0
    else CountOf(h[..|h| - 1], name) + (if h[|h| - 1].activity_name == name then 1 else 0)
  }

  /** Sum of the per-person share over the rows of `h` for activity `name`. */
  function TotalOf(h: seq<HistoryRow>, name: string): real
  {
    if h == [] then 0.0
    else TotalOf(h[..|h| - 1], name) + (if h[|h| - 1].activity_name == name then h[|h| - 1].per_person else 0.0)
  }

  predicate Occurs(h: seq<HistoryRow>, name: string)
  {
    exists j :: 0 <= j < |h| && h[j].activity_name == name
  }

  predicate Distinct(names: seq<string>)
  {
    forall i, j :: 0 <= i < j < |names| ==> names[i] != names[j]
  }

  /** The activity names of `h`, each once, in order of first occurrence
      (the order in which the dictionary gets its keys). */
  function Names(h: seq<HistoryRow>): (names: seq<string>)
    ensures forall n :: n in names <==> Occurs(h, n)
  {
    if h == [] then []
    else
      var init := h[..|h| - 1];
      var n := h[|h| - 1].activity_name;
      var names := Names(init);
      assert forall m :: Occurs(h, m) <==> Occurs(init, m) || m == n by {
        forall m ensures Occurs(h, m) <==> Occurs(init, m) || m == n {
          if Occurs(h, m) {
            var j :| 0 <= j < |h| && h[j].activity_name == m;
            if j < |h| - 1 { assert init[j] == h[j]; }
          }
          if Occurs(init, m) {
            var j :| 0 <= j < |init| && init[j].activity_name == m;
            assert h[j] == init[j];
          }
        }
      }
      if n in names then names else names + [n]
  }

  /** No activity name is listed twice. */
  lemma {:induction false} NamesDistinct(h: seq<HistoryRow>)
    ensures Distinct(Names(h))
  {
    if h != [] {
      NamesDistinct(h[..|h| - 1]);
    }
  }

  function StatOf(h: seq<HistoryRow>, name: string): ActivityStat
  {
    ActivityStat(name, CountOf(h, name), TotalOf(h, name))
  }

  /** The dictionary's entries, unsorted. */
  function Entries(h: seq<HistoryRow>): seq<ActivityStat>
  {
    var names := Names(h);
    seq(|names|, k requires 0 <= k < |names| => StatOf(h, names[k]))
  }

  predicate SortedByTotalDesc(s: seq<ActivityStat>)
  {
    forall i, j :: 0 <= i < j < |s| ==> s[i].total >= s[j].total
  }

  predicate DistinctNames(s: seq<ActivityStat>)
  {
    forall i, j :: 0 <= i < j < |s| ==> s[i].name != s[j].name
  }

  predicate HasName(s: seq<ActivityStat>, name: string)
  {
    exists k :: 0 <= k < |s| && s[k].name == name
  }

  function SumCounts(s: seq<ActivityStat>): int
  {
    if s == [] then 0 else s[0].count + SumCounts(s[1..])
  }

  // ---------------------------------------------------------------------
  // Sorting by total, largest first (a stable insertion sort, as
  // `sort((a, b) => b.total - a.total)` keeps equal totals in order)

  function InsertByTotal(x: ActivityStat, s: seq<ActivityStat>): (r: seq<ActivityStat>)
    requires SortedByTotalDesc(s)
    ensures |r| == |s| + 1 && (r[0] == x || (s != [] && r[0] == s[0]))
    ensures SortedByTotalDesc(r)
    ensures multiset(r) == multiset(s) + multiset{x}
  {
    if s == [] || x.total >= s[0].total then
      ConsSorted(x, s);
      [x] + s
    else
      var head, tail := s[0], s[1..];
      assert s == [head] + tail;
      var rest := InsertByTotal(x, tail);
      ConsSorted(head, rest);
      assert multiset([head] + rest) == multiset{head} + multiset(rest);
      [head] + rest
  }

  /** A row whose total is at least that of the head of a sorted list can go in front. */
  lemma ConsSorted(h: ActivityStat, t: seq<ActivityStat>)
    requires SortedByTotalDesc(t)
    requires t == [] || h.total >= t[0].total
    ensures SortedByTotalDesc([h] + t)
  {
    var r := [h] + t;
    forall i, j | 0 <= i < j < |r| ensures r[i].total >= r[j].total {
      assert r[j] == t[j - 1];
      if i > 0 {
        assert r[i] == t[i - 1];
      } else {
        assert t[0].total >= t[j - 1].total || j == 1;
      }
    }
  }

  function SortByTotalDesc(s: seq<ActivityStat>): (r: seq<ActivityStat>)
    ensures SortedByTotalDesc(r)
    ensures multiset(r) == multiset(s)
  {
    if s == [] then []
    else
      assert s == [s[0]] + s[1..];
      InsertByTotal(s[0], SortByTotalDesc(s[1..]))
  }

  /** Sorting keeps the sum of the counts. */
  lemma {:induction false} SortKeepsSumCounts(s: seq<ActivityStat>)
    ensures SumCounts(SortByTotalDesc(s)) == SumCounts(s)
  {
    if s != [] {
      SortKeepsSumCounts(s[1..]);
      InsertKeepsSumCounts(s[0], SortByTotalDesc(s[1..]));
    }
  }

  lemma {:induction false} InsertKeepsSumCounts(x: ActivityStat, s: seq<ActivityStat>)
    requires SortedByTotalDesc(s)
    ensures SumCounts(InsertByTotal(x, s)) == x.count + SumCounts(s)
  {
    if s != [] && x.total < s[0].total {
      var rest := InsertByTotal(x, s[1..]);
      InsertKeepsSumCounts(x, s[1..]);
      assert ([s[0]] + rest)[1..] == rest;
    }
  }

  /** Reordering keeps the set of names. */
  lemma PermutationKeepsNames(a: seq<ActivityStat>, b: seq<ActivityStat>)
    requires multiset(a) == multiset(b)
    ensures forall n :: HasName(a, n) <==> HasName(b, n)
  {
    forall n ensures HasName(a, n) ==> HasName(b, n) {
      if HasName(a, n) {
        var k :| 0 <= k < |a| && a[k].name == n;
        assert a[k] in multiset(b);
      }
    }
    forall n ensures HasName(b, n) ==> HasName(a, n) {
      if HasName(b, n) {
        var k :| 0 <= k < |b| && b[k].name == n;
        assert b[k] in multiset(a);
      }
    }
  }

  lemma DistinctTail(s: seq<ActivityStat>)
    requires s != [] && DistinctNames(s)
    ensures DistinctNames(s[1..]) && !HasName(s[1..], s[0].name)
  {
    forall k | 0 <= k < |s| - 1 ensures s[1..][k].name != s[0].name {
      assert s[1..][k] == s[k + 1];
    }
  }

  /** Putting a row in front of rows that do not share its name keeps names distinct. */
  lemma ConsDistinct(h: ActivityStat, t: seq<ActivityStat>)
    requires DistinctNames(t) && !HasName(t, h.name)
    ensures DistinctNames([h] + t)
  {
    var r := [h] + t;
    forall i, j | 0 <= i < j < |r| ensures r[i].name != r[j].name {
      assert r[j] == t[j - 1];
      if i > 0 {
        assert r[i] == t[i - 1];
      }
    }
  }

  lemma {:induction false} InsertKeepsDistinct(x: ActivityStat, s: seq<ActivityStat>)
    requires SortedByTotalDesc(s) && DistinctNames(s) && !HasName(s, x.name)
    ensures DistinctNames(InsertByTotal(x, s))
  {
    if s == [] || x.total >= s[0].total {
      ConsDistinct(x, s);
    } else {
      var head, tail := s[0], s[1..];
      DistinctTail(s);
      assert !HasName(tail, x.name) by {
        forall k | 0 <= k < |tail| ensures tail[k].name != x.name {
          assert s[k + 1] == tail[k];
        }
      }
      InsertKeepsDistinct(x, tail);
      var rest := InsertByTotal(x, tail);
      assert multiset(rest) == multiset(tail + [x]);
      PermutationKeepsNames(rest, tail + [x]);
      assert !HasName(tail + [x], head.name) by {
        forall k | 0 <= k < |tail| + 1 ensures (tail + [x])[k].name != head.name {
          if k < |tail| { assert (tail + [x])[k] == tail[k]; }
        }
      }
      ConsDistinct(head, rest);
    }
  }

  lemma {:induction false} SortKeepsDistinct(s: seq<ActivityStat>)
    requires DistinctNames(s)
    ensures DistinctNames(SortByTotalDesc(s))
  {
    if s != [] {
      DistinctTail(s);
      SortKeepsDistinct(s[1..]);
      var sorted := SortByTotalDesc(s[1..]);
      PermutationKeepsNames(sorted, s[1..]);
      InsertKeepsDistinct(s[0], sorted);
    }
  }

  // ---------------------------------------------------------------------
  // The loop

  /** What the dictionary and its key order hold after the first `i` rows. */
  ghost predicate TallyInv(h: seq<HistoryRow>, i: nat, stats: map<string, Acc>, order: seq<string>)
    requires i <= |h|
  {
    && order == Names(h[..i])
    && (forall n :: n in stats <==> n in order)
    && (forall n :: n in stats ==> stats[n] == Acc(CountOf(h[..i], n), TotalOf(h[..i], n)))
  }

  /** The `memberHistory.forEach` of `getActivityStats`: the dictionary from
      activity name to count and total, and its keys in insertion order. */
  method Tally(history: seq<HistoryRow>) returns (stats: map<string, Acc>, order: seq<string>)
    ensures order == Names(history)
    ensures forall n :: n in stats <==> Occurs(history, n)
    ensures forall n :: n in stats ==> stats[n] == Acc(CountOf(history, n), TotalOf(history, n))
  {
    stats := map[];
    order := [];
    var i := 0;
    while i < |history|
      invariant 0 <= i <= |history|
      invariant TallyInv(history, i, stats, order)
    {
      var row := history[i];
      var name := row.activity_name;
      ghost var stats0, order0 := stats, order;
      if name !in stats {
        stats := stats[name := Acc(0, 0.0)];
        order := order + [name];
      }
      ghost var seeded := stats;
      stats := stats[name := Acc(stats[name].count + 1, stats[name].total + row.per_person)];
      TallyStep(history, i, stats0, order0, seeded, stats, order);
      i := i + 1;
    }
    assert history[..i] == history;
  }

  /** One pass of the loop body keeps the invariant. */
  lemma TallyStep(h: seq<HistoryRow>, i: nat, stats: map<string, Acc>, order: seq<string>,
                  seeded: map<string, Acc>, stats': map<string, Acc>, order': seq<string>)
    requires i < |h| && TallyInv(h, i, stats, order)
    requires var name := h[i].activity_name;
      && seeded == (if name in stats then stats else stats[name := Acc(0, 0.0)])
      && order' == (if name in stats then order else order + [name])
      && stats' == seeded[name := Acc(seeded[name].count + 1, seeded[name].total + h[i].per_person)]
    ensures TallyInv(h, i + 1, stats', order')
  {
    var name, p, p' := h[i].activity_name, h[..i], h[..i + 1];
    PrefixStep(h, i);
    assert name in stats <==> name in Names(p);
    assert order' == Names(p');
    if name !in stats {
      NotYetSeen(p, name);
    }
    assert seeded[name] == Acc(CountOf(p, name), TotalOf(p, name));
    forall n | n in stats'
      ensures stats'[n] == Acc(CountOf(p', n), TotalOf(p', n))
    {
      if n != name {
        assert stats'[n] == stats[n];
      }
    }
  }

  /** `getActivityStats()`. */
  method GetActivityStats(history: seq<HistoryRow>) returns (result: seq<ActivityStat>)
    ensures result == SortByTotalDesc(Entries(history))
    ensures SortedByTotalDesc(result)
    ensures multiset(result) == multiset(Entries(history))
    ensures forall k :: 0 <= k < |result| ==>
      result[k].count == CountOf(history, result[k].name) &&
      result[k].total == TotalOf(history, result[k].name) &&
      result[k].count >= 1
    ensures forall n :: Occurs(history, n) <==> HasName(result, n)
    ensures DistinctNames(result)
    ensures |result| == |Names(history)|
    ensures SumCounts(result) == |history|
    ensures history == [] ==> result == []
  {
    var stats, order := Tally(history);

    // Object.entries(stats).map(([name, data]) => ({ name, ...data }))
    var entries := seq(|order|, k requires 0 <= k < |order| && order[k] in stats =>
      ActivityStat(order[k], stats[order[k]].count, stats[order[k]].total));
    assert entries == Entries(history);
    // .sort((a, b) => b.total - a.total)
    result := SortByTotalDesc(entries);
    SortedEntriesFacts(history);
  }

  lemma NotYetSeen(h: seq<HistoryRow>, name: string)
    requires name !in Names(h)
    ensures CountOf(h, name) == 0 && TotalOf(h, name) == 0.0
  {
    CountOfAbsent(h, name);
  }

  /** How the statistics of a prefix change when it grows by one row. */
  lemma PrefixStep(h: seq<HistoryRow>, i: nat)
    requires i < |h|
    ensures var p, p', name := h[..i], h[..i + 1], h[i].activity_name;
      && Names(p') == (if name in Names(p) then Names(p) else Names(p) + [name])
      && (forall n :: CountOf(p', n) == CountOf(p, n) + (if n == name then 1 else 0))
      && (forall n :: TotalOf(p', n) == TotalOf(p, n) + (if n == name then h[i].per_person else 0.0))
  {
    assert h[..i + 1][..i] == h[..i];
  }

  /** What the sorted entries of a history satisfy. */
  lemma SortedEntriesFacts(h: seq<HistoryRow>)
    ensures var r := SortByTotalDesc(Entries(h));
      && multiset(r) == multiset(Entries(h))
      && (forall k :: 0 <= k < |r| ==>
            r[k].count == CountOf(h, r[k].name) && r[k].total == TotalOf(h, r[k].name) && r[k].count >= 1)
      && (forall n :: Occurs(h, n) <==> HasName(r, n))
      && DistinctNames(r)
      && |r| == |Names(h)|
      && SumCounts(r) == |h|
      && (h == [] ==> r == [])
  {
    var entries := Entries(h);
    var r := SortByTotalDesc(entries);
    EntriesFacts(h);
    forall k | 0 <= k < |r|
      ensures r[k] in entries
    {
      assert r[k] in multiset(r);
    }
    assert |r| == |multiset(r)| == |entries|;
    PermutationKeepsNames(r, entries);
    SortKeepsDistinct(entries);
    SortKeepsSumCounts(entries);
  }

  // ---------------------------------------------------------------------
  // Properties of the specification

  lemma {:induction false} CountOfAbsent(h: seq<HistoryRow>, name: string)
    requires !Occurs(h, name)
    ensures CountOf(h, name) == 0
    ensures TotalOf(h, name) == 0.0
  {
    if h != [] {
      var init := h[..|h| - 1];
      forall j | 0 <= j < |init| ensures init[j].activity_name != name {
        assert init[j] == h[j];
      }
      CountOfAbsent(init, name);
    }
  }

  lemma {:induction false} CountOfPresent(h: seq<HistoryRow>, name: string)
    requires Occurs(h, name)
    ensures CountOf(h, name) >= 1
  {
    var init := h[..|h| - 1];
    if h[|h| - 1].activity_name != name {
      var j :| 0 <= j < |h| && h[j].activity_name == name;
      assert init[j] == h[j];
      CountOfPresent(init, name);
    }
  }

  /** Adding one row to the history adds one to the count of its activity only. */
  lemma {:induction false} SumCountsAddRow(names: seq<string>, h: seq<HistoryRow>, row: HistoryRow)
    requires Distinct(names)
    ensures var e := seq(|names|, k requires 0 <= k < |names| => StatOf(h, names[k]));
      var e' := seq(|names|, k requires 0 <= k < |names| => StatOf(h + [row], names[k]));
      SumCounts(e') == SumCounts(e) + (if row.activity_name in names then 1 else 0)
  {
    var e := seq(|names|, k requires 0 <= k < |names| => StatOf(h, names[k]));
    var e' := seq(|names|, k requires 0 <= k < |names| => StatOf(h + [row], names[k]));
    if names != [] {
      var rest := names[1..];
      assert Distinct(rest);
      SumCountsAddRow(rest, h, row);
      assert e[1..] == seq(|rest|, k requires 0 <= k < |rest| => StatOf(h, rest[k]));
      assert e'[1..] == seq(|rest|, k requires 0 <= k < |rest| => StatOf(h + [row], rest[k]));
      assert (h + [row])[..|h|] == h;
      assert names[0] == row.activity_name ==> row.activity_name !in rest;
      assert row.activity_name in names <==> names[0] == row.activity_name || row.activity_name in rest;
    }
  }

  lemma {:induction false} SumCountsAppend(s: seq<ActivityStat>, x: ActivityStat)
    ensures SumCounts(s + [x]) == SumCounts(s) + x.count
  {
    if s != [] {
      assert (s + [x])[1..] == s[1..] + [x];
      SumCountsAppend(s[1..], x);
    }
  }

  /** The counts of all entries add up to the length of the history. */
  lemma {:induction false} EntriesCountAll(h: seq<HistoryRow>)
    ensures SumCounts(Entries(h)) == |h|
  {
    if h != [] {
      var init, row := h[..|h| - 1], h[|h| - 1];
      assert init + [row] == h;
      EntriesCountAll(init);
      NamesDistinct(init);
      var names := Names(init);
      SumCountsAddRow(names, init, row);
      var e' := seq(|names|, k requires 0 <= k < |names| => StatOf(h, names[k]));
      if row.activity_name in names {
        assert Entries(h) == e';
      } else {
        var n := row.activity_name;
        assert !Occurs(init, n);
        CountOfAbsent(init, n);
        assert Entries(h) == e' + [StatOf(h, n)];
        SumCountsAppend(e', StatOf(h, n));
      }
    }
  }

  /** Each entry carries an activity of the history, each such activity once, counted at least once. */
  lemma EntriesFacts(h: seq<HistoryRow>)
    ensures DistinctNames(Entries(h))
    ensures forall n :: Occurs(h, n) <==> HasName(Entries(h), n)
    ensures forall x :: x in Entries(h) ==> x == StatOf(h, x.name) && x.count >= 1
    ensures SumCounts(Entries(h)) == |h|
  {
    var e := Entries(h);
    var names := Names(h);
    NamesDistinct(h);
    forall n ensures Occurs(h, n) <==> HasName(e, n) {
      if Occurs(h, n) {
        var k :| 0 <= k < |names| && names[k] == n;
        assert e[k].name == n;
      }
    }
    forall x | x in e ensures x == StatOf(h, x.name) && x.count >= 1 {
      var k :| 0 <= k < |e| && e[k] == x;
      assert names[k] in names;
      CountOfPresent(h, names[k]);
    }
    EntriesCountAll(h);
  }
}
