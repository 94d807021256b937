/**
 * humanizeSize of cmd/string.go: a byte count rendered with the largest binary
 * unit (B, KiB, MiB, GiB, TiB) that keeps the number below 1024, by repeated
 * right shifts of 10 bits; TiB is the last unit, so its number is unbounded.
 */
module Humanize {
  import opened Wrappers
  import opened GoInts

  datatype Unit = B | KiB | MiB | GiB | TiB

  /** A unit is 1024^Exponent bytes. */
  function Exponent(u: Unit): nat
  {
    match u
    case B => 0
    case KiB => 1
    case MiB => 2
    case GiB => 3
    case TiB => 4
  }

  function UnitName(u: Unit): string
  {
    match u
    case B => "B"
    case KiB => "KiB"
    case MiB => "MiB"
    case GiB => "GiB"
    case TiB => "TiB"
  }

  function Pow1024(k: nat): nat
  {
    if k == 0 then 1 else 1024 * Pow1024(k - 1)
  }

  /** What humanizeSize prints: a count and its unit. */
  datatype Scaled = Scaled(count: nat, unit: Unit)

  /** `x >> 10` on an unsigned integer, which is division by 1024. */
  function Shift10(x: nat): nat
  {
    x / 1024
  }

  /**
   * The branching of humanizeSize.  The unit is chosen by the range the size
   * falls in, and the count is always the size divided (rounding down) by the unit.
   */
  function Scale(size: Uint64): (r: Scaled)
    ensures r.unit == B <==> size < Pow1024(1)
    ensures r.unit == KiB <==> Pow1024(1) <= size < Pow1024(2)
    ensures r.unit == MiB <==> Pow1024(2) <= size < Pow1024(3)
    ensures r.unit == GiB <==> Pow1024(3) <= size < Pow1024(4)
    ensures r.unit == TiB <==> Pow1024(4) <= size
    ensures r.count == size / Pow1024(Exponent(r.unit))
    ensures r.unit != TiB ==> r.count < 1024
    ensures r.unit != B ==> r.count >= 1
  {
    ShiftsAreDivisions(size);
    if size < 1024 then Scaled(size, B)
    else
      var kib := Shift10(size);
      if kib < 1024 then Scaled(kib, KiB)
      else
        var mib := Shift10(kib);
        if mib < 1024 then Scaled(mib, MiB)
        else
          var gib := Shift10(mib);
          if gib < 1024 then Scaled(gib, GiB)
          else Scaled(Shift10(gib), TiB)
  }

  /** k successive shifts by 10 divide by 1024^k. */
  lemma ShiftsAreDivisions(size: nat)
    ensures Pow1024(1) == 1024 && Pow1024(2) == 0x10_0000
    ensures Pow1024(3) == 0x4000_0000 && Pow1024(4) == 0x100_0000_0000
    ensures Shift10(size) == size / Pow1024(1)
    ensures Shift10(Shift10(size)) == size / Pow1024(2)
    ensures Shift10(Shift10(Shift10(size))) == size / Pow1024(3)
    ensures Shift10(Shift10(Shift10(Shift10(size)))) == size / Pow1024(4)
  {
  }

  /** The decimal digits of n, as Go's %d prints an unsigned integer. */
  function Decimal(n: nat): string
    decreases n
  {
    if n < 10 then [DigitChar(n)] else Decimal(n / 10) + [DigitChar(n % 10)]
  }

  function DigitChar(d: nat): char
    requires d < 10
  {
    ('0' as int + d) as char
  }

  predicate IsDigit(c: char)
  {
    '0' <= c <= '9'
  }

  /** humanizeSize: the count in decimal, a space, and the unit's name. */
  function HumanizeSize(size: Uint64): string
  {
    var r := Scale(size);
    Decimal(r.count) + " " + UnitName(r.unit)
  }

  /** Reads back a string of decimal digits. */
  function ParseDecimal(s: string): nat
    requires forall i :: 0 <= i < |s| ==> IsDigit(s[i])
    decreases |s|
  {
    if s == [] then 0
    else
      assert IsDigit(s[|s| - 1]);
      10 * ParseDecimal(s[..|s| - 1]) + (s[|s| - 1] as int - '0' as int)
  }

  function UnitNamed(name: string): Option<Unit>
  {
    if name == "B" then Some(B)
    else if name == "KiB" then Some(KiB)
    else if name == "MiB" then Some(MiB)
    else if name == "GiB" then Some(GiB)
    else if name == "TiB" then Some(TiB)
    else None
  }

  /** The position of the first space in s, or |s| if there is none. */
  function SpaceAt(s: string): (i: nat)
    ensures i <= |s|
    ensures forall j :: 0 <= j < i ==> s[j] != ' '
    ensures i < |s| ==> s[i] == ' '
  {
    if s == [] then 0 else if s[0] == ' ' then 0 else 1 + SpaceAt(s[1..])
  }

  /** Reads a humanized size back into its count and unit. */
  function ParseHumanized(s: string): Option<Scaled>
  {
    var i := SpaceAt(s);
    if i == 0 || i == |s| then None
    else if !(forall j :: 0 <= j < i ==> IsDigit(s[j])) then None
    else match UnitNamed(s[i + 1..])
      case None => None
      case Some(u) => Some(Scaled(ParseDecimal(s[..i]), u))
  }

  /** Decimal yields a non-empty string of digits that reads back as n. */
  lemma {:induction false} DecimalRoundTrip(n: nat)
    ensures |Decimal(n)| > 0
    ensures forall i :: 0 <= i < |Decimal(n)| ==> IsDigit(Decimal(n)[i])
    ensures ParseDecimal(Decimal(n)) == n
    decreases n
  {
    if n >= 10 {
      DecimalRoundTrip(n / 10);
      var d := Decimal(n);
      assert d[..|d| - 1] == Decimal(n / 10);
    }
  }

  /** The printed string determines the count and the unit: it parses back to Scale(size). */
  lemma HumanizeRoundTrip(size: Uint64)
    ensures ParseHumanized(HumanizeSize(size)) == Some(Scale(size))
  {
    var r := Scale(size);
    var digits := Decimal(r.count);
    DecimalRoundTrip(r.count);
    var s := HumanizeSize(size);
    assert s == digits + " " + UnitName(r.unit);
    assert SpaceAt(s) == |digits| by {
      assert forall j :: 0 <= j < |digits| ==> s[j] == digits[j] && s[j] != ' ';
      assert s[|digits|] == ' ';
    }
    assert s[..|digits|] == digits;
    assert s[|digits| + 1..] == UnitName(r.unit);
  }
}
