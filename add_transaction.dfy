/** The rules of the add-transaction form (app/dashboard/add/page.tsx):
    selecting members, the per-person split of the entered amount, the two
    checks that gate a submission, and the `member_transactions` rows written
    for the members a submission names. */
module AddTransaction {
  import opened Numbers

  // ---------------------------------------------------------------------
  // Member selection

  /** `selected.filter(m => m !== name)`. */
  function RemoveAll(selected: seq<string>, name: string): (r: seq<string>)
    ensures name !in r
    ensures forall x :: x != name ==> multiset(r)[x] == multiset(selected)[x]
    ensures |r| == |selected| - multiset(selected)[name]
  {
    if selected == [] then []
    else
      assert selected == [selected[0]] + selected[1..];
      var rest := RemoveAll(selected[1..], name);
      if selected[0] == name then rest else [selected[0]] + rest
  }

  /** Removing keeps the order of what stays: it distributes over concatenation. */
  lemma {:induction false} RemoveAllAppend(a: seq<string>, b: seq<string>, name: string)
    ensures RemoveAll(a + b, name) == RemoveAll(a, name) + RemoveAll(b, name)
  {
    if a != [] {
      var ab := a + b;
      assert ab[0] == a[0] && ab[1..] == a[1..] + b;
      RemoveAllAppend(a[1..], b, name);
      var tail := RemoveAll(a[1..], name) + RemoveAll(b, name);
      if a[0] == name {
        assert RemoveAll(ab, name) == tail;
      } else {
        assert RemoveAll(ab, name) == [a[0]] + tail;
      }
    } else {
      assert a + b == b;
    }
  }

  /** Removing a name that is not there changes nothing. */
  lemma {:induction false} RemoveAllAbsent(s: seq<string>, name: string)
    requires name !in s
    ensures RemoveAll(s, name) == s
  {
    if s != [] {
      RemoveAllAbsent(s[1..], name);
    }
  }

  /** `handleMemberToggle(name)` applied to the selection: a selected name is
      removed (every occurrence), any other name is appended at the end. */
  function ToggleMember(selected: seq<string>, name: string): (r: seq<string>)
    ensures name in r <==> name !in selected
    ensures name !in selected ==> r == selected + [name]
    ensures name in selected ==> |r| < |selected|
    ensures forall x :: x != name ==> multiset(r)[x] == multiset(selected)[x]
  {
    if name in selected then
      assert multiset(selected)[name] > 0;
      RemoveAll(selected, name)
    else selected + [name]
  }

  /** Deselecting keeps the remaining names in their original order: the
      selection splits around any point into the parts that survive. */
  lemma DeselectKeepsOrder(before: seq<string>, after: seq<string>, name: string)
    requires name in before + after
    ensures ToggleMember(before + after, name) == RemoveAll(before, name) + RemoveAll(after, name)
  {
    RemoveAllAppend(before, after, name);
  }

  /** Toggling an unselected name twice restores the selection. */
  lemma ToggleTwiceRestores(selected: seq<string>, name: string)
    requires name !in selected
    ensures ToggleMember(ToggleMember(selected, name), name) == selected
  {
    RemoveAllAppend(selected, [name], name);
    RemoveAllAbsent(selected, name);
    assert RemoveAll([name], name) == [];
  }

  /** Toggling a selected name twice removes every occurrence of it and
      then puts it back once, at the end. */
  lemma ToggleTwiceSelected(selected: seq<string>, name: string)
    requires name in selected
    ensures ToggleMember(ToggleMember(selected, name), name) == RemoveAll(selected, name) + [name]
  {
    var once := ToggleMember(selected, name);
    assert once == RemoveAll(selected, name);
    assert name !in once;
  }

  /** For a name that was selected, toggling twice does not always restore:
      the name comes back at the end. */
  lemma ToggleTwiceMovesSelectedName()
    ensures ToggleMember(ToggleMember(["A", "B"], "A"), "A") == ["B", "A"]
  {
    assert ["A", "B"][1..] == ["B"];
    assert RemoveAll(["A", "B"], "A") == ["B"];
  }

  // ---------------------------------------------------------------------
  // Per-person split

  /** `p` added up `n` times (subtracted for a negative `n`): multiplication
      by an integer written with additions only, so that a statement about
      the parsed fields stays linear. `TimesIsProduct` ties it to `*`. */
  function Times(p: real, n: int): real
    decreases if n < 0 then -n else n
  {
    if n == 0 then 0.0
    else if n > 0 then Times(p, n - 1) + p
    else Times(p, n + 1) - p
  }

  lemma {:induction false} TimesIsProduct(p: real, n: int)
    ensures Times(p, n) == p * (n as real)
    decreases if n < 0 then -n else n
  {
    if n > 0 {
      TimesIsProduct(p, n - 1);
    } else if n < 0 {
      TimesIsProduct(p, n + 1);
    }
  }

  /** The division at the end of `calculatePerPerson`: the share, taken
      `divisor` times, gives back the total. */
  function Share(total: real, divisor: int): (p: real)
    requires divisor != 0
    ensures p * (divisor as real) == total
    ensures Times(p, divisor) == total
  {
    var d := divisor as real;
    TimesIsProduct(total / d, divisor);
    total / d
  }

  /** The division on the two parse results, with their fallbacks. */
  function PerPerson(total: Option<real>, split: Option<int>): (p: real)
    ensures p * (OrOne(split) as real) == OrZero(total)
  {
    Share(OrZero(total), OrOne(split))
  }

  /** `calculatePerPerson()` on the text of the two form fields: the share,
      taken as many times as the divisor used (`parseInt(split_type) || 1`),
      adds up to the total used (`parseFloat(total_amount) || 0`). */
  function CalculatePerPerson(amount: string, split: string): (p: real)
    ensures Times(p, ParseIntOrOne(split)) == ParseFloatOrZero(amount)
  {
    Share(ParseFloatOrZero(amount), ParseIntOrOne(split))
  }

  /** An amount with no digits yields a share of 0, whatever the split. */
  lemma UnparseableAmountGivesZero(amount: string, split: string)
    requires forall i :: 0 <= i < |amount| ==> !IsDigit(amount[i])
    ensures CalculatePerPerson(amount, split) == 0.0
  {
    NoDigitNoNumber(amount);
  }

  /** A split with no digits divides by 1: the share is the whole total. */
  lemma UnparseableSplitDividesByOne(amount: string, split: string)
    requires forall i :: 0 <= i < |split| ==> !IsDigit(split[i])
    ensures CalculatePerPerson(amount, split) == ParseFloatOrZero(amount)
  {
    NoDigitNoNumber(split);
  }

  // ---------------------------------------------------------------------
  // Submission checks

  datatype SubmitError =
    | NoMemberSelected               // "Pilih minimal 1 anggota"
    | SplitMismatch(split: string)   // "Jumlah anggota harus sesuai dengan pembagian (<split> orang)"

  datatype Outcome = Pass | Fail(error: SubmitError)

  /** The checks at the head of `handleSubmit`, in the order they are made. */
  function ValidateSubmission(selected: seq<string>, split: string): (o: Outcome)
    ensures o == Pass <==> |selected| >= 1 && ParseInt(split) == Some(|selected|)
    ensures selected == [] ==> o == Fail(NoMemberSelected)
    ensures o.Fail? && selected != [] ==> o == Fail(SplitMismatch(split))
  {
    if |selected| == 0 then Fail(NoMemberSelected)
    else if ParseInt(split) != Some(|selected|) then Fail(SplitMismatch(split))
    else Pass
  }

  /** A split that is not a number rejects every submission. */
  lemma UnparseableSplitRejects(selected: seq<string>, split: string)
    requires forall i :: 0 <= i < |split| ==> !IsDigit(split[i])
    ensures ValidateSubmission(selected, split).Fail?
  {
    NoDigitNoNumber(split);
  }

  /** In an accepted submission the divisor of the split is the number of selected members. */
  lemma AcceptedDividesBySelection(selected: seq<string>, amount: string, split: string)
    requires ValidateSubmission(selected, split) == Pass
    ensures ParseIntOrOne(split) == |selected|
    ensures CalculatePerPerson(amount, split) == PerPerson(ParseFloat(amount), Some(|selected|))
  {
  }

  // ---------------------------------------------------------------------
  // member_transactions rows

  /** A member as returned by the lookup of the selected names. */
  datatype MemberRef = MemberRef(id: string, name: string)

  datatype MemberTransaction = MemberTransaction(member_id: string, transaction_id: string, amount: real)

  /** `membersList.map(member => ({ member_id, transaction_id, amount: perPerson }))`. */
  function BuildMemberTransactions(resolved: seq<MemberRef>, transactionId: string, perPerson: real): (rows: seq<MemberTransaction>)
    ensures |rows| == |resolved|
    ensures forall i :: 0 <= i < |rows| ==>
      rows[i].member_id == resolved[i].id && rows[i].transaction_id == transactionId && rows[i].amount == perPerson
  {
    if resolved == [] then []
    else [MemberTransaction(resolved[0].id, transactionId, perPerson)]
         + BuildMemberTransactions(resolved[1..], transactionId, perPerson)
  }

  function SumAmounts(rows: seq<MemberTransaction>): real
  {
    if rows == [] then 0.0 else rows[0].amount + SumAmounts(rows[1..])
  }

  lemma {:induction false} SumOfEqualAmounts(rows: seq<MemberTransaction>, amount: real)
    requires forall i :: 0 <= i < |rows| ==> rows[i].amount == amount
    ensures SumAmounts(rows) == amount * (|rows| as real)
  {
    if rows != [] {
      SumOfEqualAmounts(rows[1..], amount);
    }
  }

  /** Rows for `n` resolved members at the share of a split by `n` add up to the total. */
  lemma RowsShareTotal(total: Option<real>, n: nat, resolved: seq<MemberRef>, transactionId: string)
    requires n >= 1 && |resolved| == n
    ensures SumAmounts(BuildMemberTransactions(resolved, transactionId, PerPerson(total, Some(n)))) == OrZero(total)
  {
    var p := PerPerson(total, Some(n));
    SumOfEqualAmounts(BuildMemberTransactions(resolved, transactionId, p), p);
  }

  /** When every selected name resolves to exactly one member, the rows of an
      accepted submission share out exactly the total entered. */
  lemma AcceptedRowsShareTotal(selected: seq<string>, amount: string, split: string,
                               resolved: seq<MemberRef>, transactionId: string)
    requires ValidateSubmission(selected, split) == Pass
    requires |resolved| == |selected|
    ensures SumAmounts(BuildMemberTransactions(resolved, transactionId, CalculatePerPerson(amount, split)))
         == ParseFloatOrZero(amount)
  {
    AcceptedDividesBySelection(selected, amount, split);
    RowsShareTotal(ParseFloat(amount), |selected|, resolved, transactionId);
  }
}
