/** What several parts of the model share. */
module Basics {

  datatype Option<+T> = None | Some(value: T)

  type Byte = b: int | 0 <= b < 256

  /** VSFTP_DATA_BUFSIZE: how much a transfer moves at a time. */
  const DATA_BUFSIZE := 65536

  predicate AllDigits(s: string) {
    forall i :: 0 <= i < |s| ==> '0' <= s[i] <= '9'
  }

  /** A number as it is printed, in decimal and without leading zeros. */
  function Decimal(n: nat): (s: string)
    ensures s != "" && AllDigits(s)
  {
    var digit := ['0' + (n % 10) as char];
    if n < 10 then digit else Decimal(n / 10) + digit
  }

  /** The number a decimal text denotes. */
  function DecValue(s: string): (v: nat)
    requires AllDigits(s)
  {
    if s == "" then 0 else 10 * DecValue(s[..|s| - 1]) + (s[|s| - 1] as int - '0' as int)
  }

  /** Printing a number and reading it gives the number back. */
  lemma {:induction false} DecimalValue(v: nat)
    ensures DecValue(Decimal(v)) == v
  {
    var s := Decimal(v);
    if v < 10 {
      assert s[..|s| - 1] == "";
    } else {
      DecimalValue(v / 10);
      assert s[..|s| - 1] == Decimal(v / 10);
    }
  }
}
