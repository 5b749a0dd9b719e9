/** The split badge of the transaction history (app/dashboard/history/page.tsx). */
module SplitLabel {
  import opened Numbers

  /** `getSplitLabel(split)`. */
  function GetSplitLabel(split: int): (badge: string)
    ensures badge == "Sendiri" <==> split == 1
    ensures split != 1 ==> |badge| > 5 && badge[..5] == "Bagi "
  {
    if split == 1 then "Sendiri"
    else if split == 2 then "Bagi 2"
    else if split == 3 then "Bagi 3"
    else "Bagi " + IntToDecimal(split)
  }

  /** The 2 and 3 cases agree with the general template: every split other
      than 1 reads "Bagi " followed by its decimal form. */
  lemma LabelTemplate(split: int)
    requires split != 1
    ensures GetSplitLabel(split) == "Bagi " + IntToDecimal(split)
  {
    if split == 2 || split == 3 {
      assert IntToDecimal(split) == NatToDecimal(split) == [DigitChar(split)];
    }
  }

  /** The number in a label reads back as the split it was made from. */
  lemma LabelReadsBack(split: int)
    requires split != 1
    ensures ParseInt(GetSplitLabel(split)[5..]) == Some(split)
  {
    LabelTemplate(split);
    assert GetSplitLabel(split)[5..] == IntToDecimal(split);
    ParseIntOfDecimal(split);
  }

  /** Different splits get different labels. */
  lemma LabelInjective(a: int, b: int)
    requires GetSplitLabel(a) == GetSplitLabel(b)
    ensures a == b
  {
    if a != 1 && b != 1 {
      LabelReadsBack(a);
      LabelReadsBack(b);
    }
  }
}
