/** The textual trade id, "index-price": the decimal index up to the first dash
    makes it injective whatever the price looks like. */
module TradeIds {

  function DigitChar(d: nat): char
    requires d < 10
  {
    '0' + d as char
  }

  /** The decimal numeral of n, as the program prints it. */
  function Decimal(n: nat): string {
    if n < 10 then [DigitChar(n)] else Decimal(n / 10) + [DigitChar(n % 10)]
  }

  function DigitValue(c: char): nat {
    if '0' <= c <= '9' then (c - '0') as nat else 0
  }

  function ValueOf(s: string): nat {
    if s == [] then 0 else 10 * ValueOf(s[..|s| - 1]) + DigitValue(s[|s| - 1])
  }

  function TradeId(index: nat, price: string): string {
    Decimal(index) + "-" + price
  }

  lemma {:induction false} DecimalReadsBack(n: nat)
    ensures ValueOf(Decimal(n)) == n
    ensures Decimal(n) != [] && forall i :: 0 <= i < |Decimal(n)| ==> '0' <= Decimal(n)[i] <= '9'
  {
    var s := Decimal(n);
    if n < 10 {
      assert s[..|s| - 1] == [];
    } else {
      DecimalReadsBack(n / 10);
      assert s[..|s| - 1] == Decimal(n / 10);
    }
  }

  /** The first dash of an id ends its index. */
  lemma FirstDash(index: nat, price: string)
    ensures var n, s := |Decimal(index)|, TradeId(index, price);
            && n < |s| && s[n] == '-' && s[..n] == Decimal(index) && s[n + 1..] == price
            && forall k :: 0 <= k < n ==> s[k] != '-'
  {
    DecimalReadsBack(index);
  }

  /** Ids are equal only for equal indexes and equal prices, even when a price
      contains digits or dashes itself. */
  lemma TradeIdInjective(i: nat, p: string, j: nat, q: string)
    requires TradeId(i, p) == TradeId(j, q)
    ensures i == j && p == q
  {
    FirstDash(i, p);
    FirstDash(j, q);
    DecimalReadsBack(i);
    DecimalReadsBack(j);
    hide TradeId, Decimal, ValueOf;
  }
}
