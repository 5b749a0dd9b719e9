/** The earnings aggregator of lib/computeMembers.ts.

    For every roster member, in roster order, it selects the transactions
    whose participant list contains the member's key, sums their per-person
    share from 0 and counts them. The member key is a type parameter: one
    page stores member names in a transaction's participant list while this
    aggregator matches member ids. */
module MemberStats {

  /** A transaction row: its per-person share and the keys of its participants. */
  datatype Transaction<K> = Transaction(
    id: string,
    activity_name: string,
    total_amount: real,
    per_person: real,
    members: seq<K>)

  /** A roster row. The two totals are columns of the roster table that the
      aggregator overwrites in its output. */
  datatype Member<K> = Member(
    id: K,
    name: string,
    total_earned: real,
    total_transactions: int)

  /** `transactions.filter(t => t.members.includes(id))`, in list order. */
  function Related<K(==)>(ts: seq<Transaction<K>>, id: K): seq<Transaction<K>>
  {
    if ts == [] then []
    else
      var last := ts[|ts| - 1];
      Related(ts[..|ts| - 1], id) + (if id in last.members then [last] else [])
  }

  /** `reduce((sum, t) => sum + t.per_person, 0)`, folding from the left. */
  function SumPerPerson<K>(ts: seq<Transaction<K>>): real
  {
    if ts == [] then 0.0 else SumPerPerson(ts[..|ts| - 1]) + ts[|ts| - 1].per_person
  }

  /** The output row for one member: the member's own fields with both totals set. */
  function MemberRow<K(==)>(ts: seq<Transaction<K>>, m: Member<K>): Member<K>
  {
    var related := Related(ts, m.id);
    m.(total_earned := SumPerPerson(related), total_transactions := |related|)
  }

  // ---------------------------------------------------------------------
  // Reference definitions, stated without the filter

  /** Positions of the transactions that list `id` at least once. */
  function MatchingPositions<K(==)>(ts: seq<Transaction<K>>, id: K): set<nat>
  {
    set j: nat | j < |ts| && id in ts[j].members
  }

  /** Earnings of `id`: each transaction contributes its share when it lists `id`, else nothing. */
  function Earned<K(==)>(ts: seq<Transaction<K>>, id: K): real
  {
    if ts == [] then 0.0
    else
      var last := ts[|ts| - 1];
      Earned(ts[..|ts| - 1], id) + (if id in last.members then last.per_person else 0.0)
  }

  /** The positions matching in a list with one more transaction at its end. */
  lemma MatchingPositionsStep<K>(ts: seq<Transaction<K>>, t: Transaction<K>, id: K)
    ensures |ts| !in MatchingPositions(ts, id)
    ensures MatchingPositions(ts + [t], id)
         == MatchingPositions(ts, id) + (if id in t.members then {|ts|} else {})
  {
    var ts' := ts + [t];
    forall j: nat | j < |ts| ensures ts'[j] == ts[j] { }
    assert ts'[|ts|] == t;
  }

  /** The filter keeps one transaction per matching position. */
  lemma {:induction false} RelatedCount<K>(ts: seq<Transaction<K>>, id: K)
    ensures |Related(ts, id)| == |MatchingPositions(ts, id)|
  {
    if ts != [] {
      var init, last := ts[..|ts| - 1], ts[|ts| - 1];
      RelatedCount(init, id);
      assert |Related(ts, id)| == |Related(init, id)| + (if id in last.members then 1 else 0);
      assert init + [last] == ts;
      MatchingPositionsStep(init, last, id);
    }
  }

  /** Summing the shares of the filtered list gives the member's earnings. */
  lemma {:induction false} RelatedSum<K>(ts: seq<Transaction<K>>, id: K)
    ensures SumPerPerson(Related(ts, id)) == Earned(ts, id)
  {
    if ts != [] {
      var init, last := ts[..|ts| - 1], ts[|ts| - 1];
      RelatedSum(init, id);
      var extra := if id in last.members then [last] else [];
      assert Related(ts, id) == Related(init, id) + extra;
      SumPerPersonAppend(Related(init, id), extra);
    }
  }

  lemma {:induction false} SumPerPersonAppend<K>(a: seq<Transaction<K>>, b: seq<Transaction<K>>)
    requires |b| <= 1
    ensures SumPerPerson(a + b) == SumPerPerson(a) + SumPerPerson(b)
  {
    if b != [] {
      assert (a + b)[..|a + b| - 1] == a;
      assert b[..0] == [];
    } else {
      assert a + b == a;
    }
  }

  /** `computeMembersStats(transactions, members)`: one row per roster member,
      in roster order; each row is the member with `total_earned` the member's
      earnings and `total_transactions` the number of transactions that list
      the member's key, and every other field kept. */
  function ComputeMembersStats<K(==)>(ts: seq<Transaction<K>>, ms: seq<Member<K>>): (r: seq<Member<K>>)
    ensures |r| == |ms|
    ensures forall i :: 0 <= i < |r| ==>
      r[i] == ms[i].(total_earned := Earned(ts, ms[i].id),
                     total_transactions := |MatchingPositions(ts, ms[i].id)|)
  {
    if ms == [] then []
    else
      RelatedCount(ts, ms[0].id);
      RelatedSum(ts, ms[0].id);
      [MemberRow(ts, ms[0])] + ComputeMembersStats(ts, ms[1..])
  }

  // ---------------------------------------------------------------------
  // Properties

  /** Each output row differs from its roster row in the two totals only. */
  lemma KeepsMemberFields<K>(ts: seq<Transaction<K>>, ms: seq<Member<K>>, i: nat)
    requires i < |ms|
    ensures |ComputeMembersStats(ts, ms)| == |ms|
    ensures ComputeMembersStats(ts, ms)[i].id == ms[i].id
    ensures ComputeMembersStats(ts, ms)[i].name == ms[i].name
    ensures ComputeMembersStats(ts, ms)[i].(total_earned := ms[i].total_earned,
                                           total_transactions := ms[i].total_transactions) == ms[i]
  {
  }

  /** With no transactions every member has earned 0 in 0 transactions. */
  lemma NoTransactions<K>(ms: seq<Member<K>>, i: nat)
    requires i < |ms|
    ensures ComputeMembersStats([], ms)[i].total_earned == 0.0
    ensures ComputeMembersStats([], ms)[i].total_transactions == 0
  {
    assert MatchingPositions([], ms[i].id) == {};
  }

  /** Appending a transaction adds one transaction and its share to exactly
      the members it lists; every other member's row is unchanged. */
  lemma {:induction false} AppendTransaction<K>(ts: seq<Transaction<K>>, t: Transaction<K>, ms: seq<Member<K>>, i: nat)
    requires i < |ms|
    ensures var before, after := ComputeMembersStats(ts, ms)[i], ComputeMembersStats(ts + [t], ms)[i];
      if ms[i].id in t.members then
        after == before.(total_earned := before.total_earned + t.per_person,
                         total_transactions := before.total_transactions + 1)
      else after == before
  {
    var id, ts' := ms[i].id, ts + [t];
    assert ts'[..|ts'| - 1] == ts && ts'[|ts'| - 1] == t;
    assert Earned(ts', id) == Earned(ts, id) + (if id in t.members then t.per_person else 0.0);
    MatchingPositionsStep(ts, t, id);
    assert |MatchingPositions(ts', id)| == |MatchingPositions(ts, id)| + (if id in t.members then 1 else 0);
  }

  /** A transaction that lists a member's key several times counts once, with its share once. */
  lemma DuplicateKeyCountedOnce<K>(ts: seq<Transaction<K>>, t: Transaction<K>, ms: seq<Member<K>>, i: nat)
    requires i < |ms|
    requires multiset(t.members)[ms[i].id] >= 2
    ensures ComputeMembersStats(ts + [t], ms)[i].total_transactions
         == ComputeMembersStats(ts, ms)[i].total_transactions + 1
    ensures ComputeMembersStats(ts + [t], ms)[i].total_earned
         == ComputeMembersStats(ts, ms)[i].total_earned + t.per_person
  {
    AppendTransaction(ts, t, ms, i);
  }

  /** No member is credited with more transactions than the list holds. */
  lemma CountBounded<K>(ts: seq<Transaction<K>>, ms: seq<Member<K>>, i: nat)
    requires i < |ms|
    ensures 0 <= ComputeMembersStats(ts, ms)[i].total_transactions <= |ts|
  {
    var id := ms[i].id;
    RelatedCount(ts, id);
    RelatedNoLonger(ts, id);
  }

  lemma {:induction false} RelatedNoLonger<K>(ts: seq<Transaction<K>>, id: K)
    ensures |Related(ts, id)| <= |ts|
  {
    if ts != [] {
      RelatedNoLonger(ts[..|ts| - 1], id);
    }
  }

  /** With a single transaction, every member it lists has earned its share
      once, and every other member nothing. */
  lemma SingleTransaction<K>(t: Transaction<K>, ms: seq<Member<K>>, i: nat)
    requires i < |ms|
    ensures var r := ComputeMembersStats([t], ms)[i];
      if ms[i].id in t.members then r.total_earned == t.per_person && r.total_transactions == 1
      else r.total_earned == 0.0 && r.total_transactions == 0
  {
    var id := ms[i].id;
    assert [t][..0] == [];
    assert Earned([t], id) == Earned([], id) + (if id in t.members then t.per_person else 0.0);
    if id in t.members {
      assert MatchingPositions([t], id) == {0};
    } else {
      assert MatchingPositions([t], id) == {};
    }
  }
}
