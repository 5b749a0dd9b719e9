/** The price table editor (app/dashboard/prices/page.tsx): typing into one
    row's field replaces that row's unit price in the list held on screen. */
module Prices {
  import opened Numbers

  datatype ActivityPrice = ActivityPrice(id: string, activity_name: string, unit_price: real)

  /** `handlePriceChange(id, value)` applied to the list: the rows with this
      id get the parsed price, every other row stays as it is. */
  function HandlePriceChange(prices: seq<ActivityPrice>, id: string, value: string): (r: seq<ActivityPrice>)
    ensures |r| == |prices|
    ensures forall i :: 0 <= i < |r| ==>
      r[i].id == prices[i].id && r[i].activity_name == prices[i].activity_name
    ensures forall i :: 0 <= i < |r| && prices[i].id == id ==> r[i].unit_price == ParseFloatOrZero(value)
    ensures forall i :: 0 <= i < |r| && prices[i].id != id ==> r[i] == prices[i]
  {
    seq(|prices|, i requires 0 <= i < |prices| =>
      if prices[i].id == id then prices[i].(unit_price := ParseFloatOrZero(value)) else prices[i])
  }

  /** An id that no row carries leaves the list unchanged. */
  lemma UnknownIdNoChange(prices: seq<ActivityPrice>, id: string, value: string)
    requires forall i :: 0 <= i < |prices| ==> prices[i].id != id
    ensures HandlePriceChange(prices, id, value) == prices
  {
  }

  /** Making the same change twice is the same as making it once. */
  lemma ChangeIdempotent(prices: seq<ActivityPrice>, id: string, value: string)
    ensures var once := HandlePriceChange(prices, id, value);
      HandlePriceChange(once, id, value) == once
  {
  }

  /** A later change to the same row overrides an earlier one. */
  lemma LastChangeWins(prices: seq<ActivityPrice>, id: string, first: string, second: string)
    ensures HandlePriceChange(HandlePriceChange(prices, id, first), id, second)
         == HandlePriceChange(prices, id, second)
  {
  }

  /** Text that is not a number stores a price of 0. */
  lemma UnparseableStoresZero(prices: seq<ActivityPrice>, id: string, value: string, i: nat)
    requires forall k :: 0 <= k < |value| ==> !IsDigit(value[k])
    requires i < |prices| && prices[i].id == id
    ensures HandlePriceChange(prices, id, value)[i].unit_price == 0.0
  {
    NoDigitNoNumber(value);
  }

  /** No clamping: a negative number typed in is stored as it is. */
  lemma NegativeKept(prices: seq<ActivityPrice>, id: string, n: int, i: nat)
    requires n < 0
    requires i < |prices| && prices[i].id == id
    ensures HandlePriceChange(prices, id, IntToDecimal(n))[i].unit_price == n as real
  {
    ParseFloatOfDecimal(n);
  }
}
