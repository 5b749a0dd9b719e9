# galpek dashboard rules in Dafny

galpek is a dashboard for splitting the proceeds of cooperative game
activities among a fixed roster of members. Most of it is forms, tables and
calls to a hosted database. This project models the handful of pure and
in-place rules inside it and proves what they guarantee. Each rule is listed
below with the module that models it.

- **Earnings aggregator** (`computeMembersStats`, module `MemberStats`).
  - For each roster member, in roster order, it filters the transactions that list the member's key.
  - It sums their `per_person` from 0 and counts them.
  - The member key is a type parameter, because one page stores member names in a transaction's participant list while the aggregator matches member ids.
  - The filter and the fold are related to reference definitions stated without them: the set of matching positions, and a masked sum.
- **Add-transaction form** (module `AddTransaction`).
  - The member-selection toggle.
  - The per-person split, with the `|| 0` and `|| 1` parse fallbacks.
  - The two checks at the head of `handleSubmit`, in their order.
  - The `member_transactions` rows built for the members a submission resolves to.
- **Per-activity statistics** (`getActivityStats`, module `ActivityStats`).
  - An imperative method scans the history and updates a dictionary in place (a `map` plus its keys in insertion order).
  - It then builds the entries and sorts them by total, largest first, with a stable insertion sort.
  - The method is proved against specification functions: the count and total of an activity, and the activity names in order of first occurrence.
- **Price table edit** (`handlePriceChange`, module `Prices`).
- **Split label** (`getSplitLabel`, module `SplitLabel`).
- **Number parsing** (module `Numbers`).
  - JavaScript's `parseInt` and `parseFloat` on decimal text: leading white space (every character JavaScript trims, Unicode space separators and line terminators included), a sign, digits and, for `parseFloat`, a fraction.
  - NaN is `None`.
  - `x || d` falls back on `None` and on 0.
  - Decimal printing of integers, as a template string renders a whole number.

Money is `real`, so `per_person * split == total` is exact.

Two behaviours of the code are worth naming, and the model follows the code in both:

- **The divisor.** With no usable split, the code divides by 1, so the share is the whole total.
- **How the split is determined.** The split is the form's `split_type` value, which a submission must match with the number of selected members; it is not computed from the selection.

## Model

| member | source | states |
|---|---|---|
| MemberStats.ComputeMembersStats | lib/computeMembers.ts:1-18 | one output row per roster member, in roster order; each row is the member with `total_earned` equal to the share summed over exactly the transactions that list its key and `total_transactions` equal to how many there are; every other field is kept |
| MemberStats.RelatedCount | lib/computeMembers.ts:3-5 | the filtered list has one transaction per position whose participant list contains the key |
| MemberStats.RelatedSum | lib/computeMembers.ts:7-10 | the reduce from 0 over the filtered list equals the masked sum over the whole list |
| MemberStats.KeepsMemberFields | lib/computeMembers.ts:12-16 | an output row differs from its roster row only in the two totals |
| MemberStats.NoTransactions | lib/computeMembers.ts:3-15 | with no transactions every member has earned 0 in 0 transactions |
| MemberStats.AppendTransaction | lib/computeMembers.ts:3-10 | appending a transaction adds 1 and its share to exactly the members it lists; all other rows are unchanged |
| MemberStats.DuplicateKeyCountedOnce | lib/computeMembers.ts:3-5 | a transaction listing a key several times counts once and adds its share once |
| MemberStats.CountBounded | lib/computeMembers.ts:3-15 | no member is credited with more transactions than the list holds |
| MemberStats.RelatedNoLonger | lib/computeMembers.ts:3-5 | the filter never yields more transactions than it is given |
| MemberStats.SingleTransaction | lib/computeMembers.ts:2-16 | with a single transaction, each member it lists earns its share once and each other member nothing |
| AddTransaction.RemoveAll | app/dashboard/add/page.tsx:79 | removing a name leaves no occurrence of it, keeps every other name's number of occurrences, and shortens the list by the occurrences removed |
| AddTransaction.RemoveAllAppend | app/dashboard/add/page.tsx:79 | removal distributes over concatenation, so what remains keeps its order |
| AddTransaction.RemoveAllAbsent | app/dashboard/add/page.tsx:79 | removing a name that is not there changes nothing |
| AddTransaction.ToggleMember | app/dashboard/add/page.tsx:75-82 | after a toggle the name is selected iff it was not before; an unselected name is appended at the end with the rest unchanged; a selected name is removed and the list gets shorter; other names keep their occurrences |
| AddTransaction.DeselectKeepsOrder | app/dashboard/add/page.tsx:78-79 | deselecting keeps the remaining names in their original order, around any split point of the list |
| AddTransaction.ToggleTwiceRestores | app/dashboard/add/page.tsx:78-80 | toggling an unselected name twice restores the selection |
| AddTransaction.ToggleTwiceSelected | app/dashboard/add/page.tsx:78-80 | toggling a selected name twice removes all its occurrences and puts it back once, at the end |
| AddTransaction.ToggleTwiceMovesSelectedName | app/dashboard/add/page.tsx:78-80 | toggling a selected name twice need not restore the selection: the name comes back at the end |
| AddTransaction.PerPerson | app/dashboard/add/page.tsx:84-88 | for any two parse results, the per-person share times the divisor used (`|| 1`) equals the total used (`|| 0`) |
| AddTransaction.CalculatePerPerson | app/dashboard/add/page.tsx:84-88 | on the text of the two form fields, the share taken as many times as the divisor used (`parseInt(split_type) || 1`) adds up to the total used (`parseFloat(total_amount) || 0`) |
| AddTransaction.UnparseableAmountGivesZero | app/dashboard/add/page.tsx:85 | an amount without digits gives a share of 0 whatever the split |
| AddTransaction.UnparseableSplitDividesByOne | app/dashboard/add/page.tsx:86-87 | a split without digits divides by 1, so the share is the whole total |
| AddTransaction.ValidateSubmission | app/dashboard/add/page.tsx:95-101 | a submission passes iff at least one member is selected and `parseInt(split_type)` equals the number selected; an empty selection fails with the first error, any other failure is the split mismatch |
| AddTransaction.UnparseableSplitRejects | app/dashboard/add/page.tsx:99-101 | a split without digits rejects every submission |
| AddTransaction.AcceptedDividesBySelection | app/dashboard/add/page.tsx:84-101 | in an accepted submission the divisor used is the number of selected members |
| AddTransaction.BuildMemberTransactions | app/dashboard/add/page.tsx:131-135 | one row per resolved member, in order, with that member's id, the same transaction id and the per-person amount |
| AddTransaction.RowsShareTotal | app/dashboard/add/page.tsx:131-135 | the rows for n members at the share of a split by n add up to the total used |
| AddTransaction.AcceptedRowsShareTotal | app/dashboard/add/page.tsx:95-135 | when each selected name resolves to one member, the rows of an accepted submission add up to the total entered |
| ActivityStats.Tally | app/dashboard/members/page.tsx:104-114 | after the scan, the dictionary's keys are exactly the activities of the history, its key order is their order of first occurrence, and each value holds that activity's row count and share total |
| ActivityStats.TallyStep | app/dashboard/members/page.tsx:106-114 | one pass of the loop body (insert a zero entry if absent, add one and the share) keeps the dictionary equal to the statistics of the rows scanned |
| ActivityStats.GetActivityStats | app/dashboard/members/page.tsx:103-119 | the result is sorted by total, largest first, and is a permutation of the dictionary's entries; every activity of the history appears exactly once and no other; each entry's count and total are those of its activity, and its count is at least 1; the counts add up to the history length; an empty history gives an empty result |
| ActivityStats.NotYetSeen | app/dashboard/members/page.tsx:108-110 | an activity not yet met has count 0 and total 0, which is what the inserted entry holds |
| ActivityStats.PrefixStep | app/dashboard/members/page.tsx:106-114 | one more row adds its activity to the key order if new, and adds 1 and its share to that activity only |
| ActivityStats.NamesDistinct | app/dashboard/members/page.tsx:104-110 | no activity name is listed twice among the dictionary's keys |
| ActivityStats.InsertByTotal | app/dashboard/members/page.tsx:118 | inserting into a list sorted by total keeps it sorted and adds exactly the one entry |
| ActivityStats.SortByTotalDesc | app/dashboard/members/page.tsx:118 | the sort's output is ordered by total, non-increasing, and is a permutation of its input |
| ActivityStats.SortKeepsSumCounts | app/dashboard/members/page.tsx:118 | sorting keeps the sum of the counts |
| ActivityStats.PermutationKeepsNames | app/dashboard/members/page.tsx:118 | reordering keeps the set of activity names |
| ActivityStats.SortKeepsDistinct | app/dashboard/members/page.tsx:118 | sorting entries with distinct names keeps them distinct |
| ActivityStats.SortedEntriesFacts | app/dashboard/members/page.tsx:116-118 | the sorted entries satisfy everything `GetActivityStats` promises about its result |
| ActivityStats.CountOfAbsent | app/dashboard/members/page.tsx:108-113 | an activity absent from the history has count 0 and total 0 |
| ActivityStats.CountOfPresent | app/dashboard/members/page.tsx:108-111 | an activity present in the history has count at least 1 |
| ActivityStats.EntriesCountAll | app/dashboard/members/page.tsx:106-117 | the counts of all entries add up to the length of the history |
| ActivityStats.EntriesFacts | app/dashboard/members/page.tsx:104-117 | the entries name each activity of the history once and no other, each with its own count and total and a count of at least 1 |
| Prices.HandlePriceChange | app/dashboard/prices/page.tsx:48-54 | the list keeps its length and order; rows with the id get the parsed price and keep their id and activity name; other rows are unchanged |
| Prices.UnknownIdNoChange | app/dashboard/prices/page.tsx:50-52 | an id that no row carries leaves the list unchanged |
| Prices.ChangeIdempotent | app/dashboard/prices/page.tsx:49-53 | applying the same change twice equals applying it once |
| Prices.LastChangeWins | app/dashboard/prices/page.tsx:49-53 | a later change to the same id overrides an earlier one |
| Prices.UnparseableStoresZero | app/dashboard/prices/page.tsx:51 | text without digits stores a price of 0 |
| Prices.NegativeKept | app/dashboard/prices/page.tsx:51 | a negative number typed in is stored unclamped |
| SplitLabel.GetSplitLabel | app/dashboard/history/page.tsx:74-79 | the label is "Sendiri" iff the split is 1; any other split gives a label starting with "Bagi " |
| SplitLabel.LabelTemplate | app/dashboard/history/page.tsx:76-78 | for every split other than 1 the label is "Bagi " followed by the decimal form of the split; the 2 and 3 cases agree with the template |
| SplitLabel.LabelReadsBack | app/dashboard/history/page.tsx:78 | the number in a label parses back to the split it was made from |
| SplitLabel.LabelInjective | app/dashboard/history/page.tsx:74-79 | different splits get different labels |
| Numbers.OrZero | app/dashboard/add/page.tsx:85 | `x || 0`: NaN gives 0, a number gives itself (0 included) |
| Numbers.OrOne | app/dashboard/add/page.tsx:86 | `x || 1`: never 0; 1 exactly when the parse is NaN, 0 or 1; otherwise the parsed number |
| Numbers.IntToDecimal | app/dashboard/history/page.tsx:78 | the decimal form of an integer is non-empty and starts with a digit iff the integer is not negative; a negative one is '-' followed by digits; the digits have no leading zero unless the integer is 0 (with `ParseIntOfDecimal`, this is the one canonical decimal text) |
| Numbers.ParseIntOfDecimal | app/dashboard/add/page.tsx:86 | `parseInt` reads back exactly the integer that was printed |
| Numbers.ParseFloatOfDecimal | app/dashboard/prices/page.tsx:51 | `parseFloat` reads back a printed integer as the same number |
| Numbers.ParseFloatOfWhole | app/dashboard/add/page.tsx:85-86 | on text of whole digits, `parseFloat` and `parseInt` agree |
| Numbers.NoDigitNoNumber | app/dashboard/add/page.tsx:85-86 | text without a single digit is NaN for both parsers |

## Left out

- Every call to the hosted database, and authentication: reading the roster, history, prices and transactions, and the inserts, updates and deletes. The model takes their inputs and results as parameters.
- The lookup of the selected names in the members table (app/dashboard/add/page.tsx:125-128). The resolved members are a parameter of `BuildMemberTransactions`. `AcceptedRowsShareTotal` assumes each selected name resolves to exactly one member.
- The transaction record inserted at app/dashboard/add/page.tsx:108-121. It stores `parseFloat(total_amount)` without the `|| 0` fallback, so NaN can be stored. It is not modelled.
- React state, effects, toasts, routing and rendering. The state setters are modelled as the pure functions they apply.
- `handleSaveAll` in app/dashboard/prices/page.tsx, a concurrent fan-out of network updates.
- components/ui/SyncMembersButton.tsx, a sequence of database queries and updates. It sums `total_amount` rather than `per_person`, so it is not the same aggregator.
- Locale and date formatting, and the rounded average shown on the members page.
- IEEE-754 behaviour of JavaScript numbers: rounding, `-0` and `Infinity`. Amounts are exact reals.
- `parseInt` and `parseFloat` beyond plain decimal text: hexadecimal prefixes, exponents and `Infinity`.
- Whether the member key is a name or an id. The key is a type parameter, and consistency across files is not claimed.
- A roster-wide conservation law, that all members' earnings add up to each transaction's share times its participants on the roster. `AppendTransaction` gives its per-member form: each listed member gets the share exactly once, and every other member is unchanged. The roster-wide sum would also need the roster's ids to be distinct, which `computeMembersStats` does not demand, so it is not stated.
- ActivityStats.GetActivityStats: JavaScript lists integer-like object keys first, in numeric order, before the others. The model keeps every key in insertion order.
- ActivityStats.GetActivityStats: the keys `constructor`, `toString` and the like are inherited by a plain object, so the `!stats[name]` test treats them as already present. The model treats every name as absent until inserted.
- ActivityStats.SortByTotalDesc: the sort is stable, as `Array.prototype.sort` is. Only sortedness and permutation are proved, not the order among equal totals.
- AddTransaction.CalculatePerPerson: the product is stated as repeated addition (`Times`), which `TimesIsProduct` proves equal to `*`. Stated with `*` next to both parsers, the proof is far too expensive for the solver.
