/**
 Small printers several files share: numbers, padding and joined lists.
 */
module Printing {
  import opened Bytes

  /** strings.Repeat of a space. */
  function Spaces(n: nat): (r: string)
    ensures |r| == n && forall k | 0 <= k < n :: r[k] == ' '
  {
    seq(n, _ => ' ')
  }

  function Decimal(n: nat): (r: string)
    ensures r != "" && forall k | 0 <= k < |r| :: IsDigit(r[k])
  {
    if n < 10 then [('0' as int + n) as char] else Decimal(n / 10) + [('0' as int + n % 10) as char]
  }

  /** The number that digits write. */
  function NatOf(digits: string): int {
    if digits == "" then 0 else NatOf(digits[..|digits| - 1]) * 10 + (digits[|digits| - 1] as int - '0' as int)
  }

  lemma {:induction false} DecimalReads(n: nat)
    ensures NatOf(Decimal(n)) == n
    decreases n
  {
    if n >= 10 {
      DecimalReads(n / 10);
      var d := Decimal(n);
      assert d[..|d| - 1] == Decimal(n / 10);
    } else {
      assert NatOf(Decimal(n)[..0]) == 0;
    }
  }

  /** strings.Join. */
  function Join(parts: seq<string>, sep: string): string {
    if parts == [] then "" else if |parts| == 1 then parts[0] else parts[0] + sep + Join(parts[1..], sep)
  }
}
