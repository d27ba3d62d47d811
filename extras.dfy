/** Two helpers of the shared script library: `human_filesize`, which writes a
    byte count in the largest of b, Kb, Mb, Gb, Tb that keeps the number below
    4096, and `generate_uuid`, which draws 32 hexadecimal digits and then sets
    the version and variant digits of section 4.4 of RFC 4122. The random
    digits are a parameter. */
module Extras {
  import opened Text

  /** 1024 to the power k. */
  function Pow1024(k: nat): (r: nat)
    ensures r >= 1
  {
    if k == 0 then 1 else 1024 * Pow1024(k - 1)
  }

  /** The unit names, by power of 1024. */
  function Suffix(k: nat): string
  {
    if k == 0 then "b" else if k == 1 then "Kb" else if k == 2 then "Mb" else if k == 3 then "Gb" else "Tb"
  }

  /** The numeric part and the power of 1024 `human_filesize` settles on:
      a chain of floored divisions by 1024, stopping at the first quotient
      below 4096, and at terabytes in any case. */
  function SizeParts(size: int): (int, nat)
  {
    if size < 4096 then (size, 0)
    else
      var kb := size / 1024;
      if kb < 4096 then (kb, 1)
      else
        var mb := kb / 1024;
        if mb < 4096 then (mb, 2)
        else
          var gb := mb / 1024;
          if gb < 4096 then (gb, 3)
          else (gb / 1024, 4)
  }

  /** `human_filesize(size)`. */
  function HumanFilesize(size: int): string
  {
    var (n, k) := SizeParts(size);
    Decimal(n) + Suffix(k)
  }

  /** The quotient after j floored divisions by 1024. */
  function Quot(size: nat, j: nat): nat
  {
    if j == 0 then size else Quot(size, j - 1) / 1024
  }

  /** `SizeParts` read through `Quot`: the unit is the number of divisions
      done. */
  lemma SizePartsIsQuot(size: nat)
    ensures SizeParts(size) == (Quot(size, SizeParts(size).1), SizeParts(size).1)
  {
    assert Quot(size, 1) == size / 1024;
    assert Quot(size, 2) == size / 1024 / 1024;
    assert Quot(size, 3) == size / 1024 / 1024 / 1024;
    assert Quot(size, 4) == size / 1024 / 1024 / 1024 / 1024;
  }

  lemma MulMono(a: int, b: int, c: nat)
    requires a <= b
    ensures a * c <= b * c
  {
    assert b * c - a * c == (b - a) * c;
  }

  /** One more division by 1024 keeps the quotient bracketing the size,
      in a unit 1024 times larger. */
  lemma BracketStep(size: nat, n: nat, p: nat)
    requires n * p <= size < (n + 1) * p
    ensures (n / 1024) * (1024 * p) <= size < (n / 1024 + 1) * (1024 * p)
  {
    var q, r := n / 1024, n % 1024;
    assert n == 1024 * q + r;
    MulMono(1024 * q, n, p);
    assert (n / 1024) * (1024 * p) == (1024 * q) * p;
    MulMono(n + 1, 1024 * (q + 1), p);
    assert (n / 1024 + 1) * (1024 * p) == (1024 * (q + 1)) * p;
  }

  /** The quotient after j divisions, in units of 1024^j, never overstates
      the size and is less than one unit short of it. */
  lemma {:induction false} QuotBracket(size: nat, j: nat)
    ensures Quot(size, j) * Pow1024(j) <= size < (Quot(size, j) + 1) * Pow1024(j)
  {
    if j > 0 {
      QuotBracket(size, j - 1);
      BracketStep(size, Quot(size, j - 1), Pow1024(j - 1));
    }
  }

  /** The unit is the first power of 1024 whose quotient is below 4096, or
      terabytes: every smaller power goes into the size at least 4096 times,
      and below terabytes the number shown is under 4096. */
  lemma SizePartsChoice(size: nat)
    ensures var (n, k) := SizeParts(size);
            && k <= 4
            && n == Quot(size, k)
            && (k < 4 ==> n < 4096)
            && (forall j :: 0 <= j < k ==> 4096 * Pow1024(j) <= size)
  {
    SizePartsIsQuot(size);
    var (n, k) := SizeParts(size);
    forall j | 0 <= j < k
      ensures 4096 * Pow1024(j) <= size
    {
      assert Quot(size, j) >= 4096 by {
        assert j == 0 || j == 1 || j == 2 || j == 3;
      }
      QuotBracket(size, j);
      MulMono(4096, Quot(size, j), Pow1024(j));
    }
  }

  /** The number shown, in its unit, never overstates the size and is less
      than one unit short of it. */
  lemma SizePartsBracket(size: nat)
    ensures var (n, k) := SizeParts(size);
            n * Pow1024(k) <= size < (n + 1) * Pow1024(k)
  {
    SizePartsIsQuot(size);
    QuotBracket(size, SizeParts(size).1);
  }

  /** Only sizes below 4096 are written in bytes, and then unchanged; any
      larger unit shows a number of at least 4. */
  lemma SizePartsUnits(size: int)
    ensures SizeParts(size).1 == 0 <==> size < 4096
    ensures size < 4096 ==> HumanFilesize(size) == Decimal(size) + "b"
    ensures SizeParts(size).1 > 0 ==> SizeParts(size).0 >= 4
  {
  }

  /** Distinct byte counts below 4096 are written differently. */
  lemma SmallSizesDistinct(a: int, b: int)
    requires a < 4096 && b < 4096 && a != b
    ensures HumanFilesize(a) != HumanFilesize(b)
  {
    if HumanFilesize(a) == HumanFilesize(b) {
      var x := Decimal(a) + "b";
      assert Decimal(a) == x[..|x| - 1];
      assert Decimal(b) == x[..|x| - 1];
      DecimalInjective(a, b);
    }
  }

  const HexDigits: string := "0123456789ABCDEF"

  /** `(s[16] & 0x3) | 0x8` where `s[16]` is a one-character string: a
      decimal digit converts to its value and a letter to NaN, which the
      bitwise operators treat as 0. */
  function VariantIndex(c: char): (r: nat)
  {
    var v: bv32 := if '0' <= c <= '9' then (c - '0') as bv32 else 0;
    ((v & 3) | 8) as nat
  }

  /** The variant digit's index stated arithmetically: 8 plus the drawn
      digit modulo 4, where a letter digit counts as 0. */
  function IntendedVariant(d: nat): nat
  {
    8 + (if d < 10 then d % 4 else 0)
  }

  /** The bitwise expression computes that index for every hexadecimal digit. */
  lemma VariantIndexMatches(d: nat)
    requires d < 16
    ensures VariantIndex(HexDigits[d]) == IntendedVariant(d)
  {
    if d < 10 {
      assert HexDigits[d] - '0' == d as char;
      MaskDigit(d);
    }
  }

  /** For a decimal digit, the low two bits or'ed with 8 are 8 plus the
      digit modulo 4. */
  lemma MaskDigit(d: nat)
    requires d < 10
    ensures ((d as bv32 & 3) | 8) as nat == 8 + d % 4
  {
    if d < 4 {
    } else if d < 8 {
    } else {
    }
  }

  /** `generate_uuid()` with its 32 random digit choices given: 32 digits,
      the 13th fixed to `4` and the 17th to one of `8`, `9`, `A`, `B`. */
  method GenerateUuid(digits: seq<nat>) returns (r: string)
    requires |digits| == 32 && forall k :: 0 <= k < 32 ==> digits[k] < 16
    ensures |r| == 32
    ensures forall k :: 0 <= k < 32 && k != 12 && k != 16 ==> r[k] == HexDigits[digits[k]]
    ensures r[12] == '4'
    ensures r[16] == HexDigits[IntendedVariant(digits[16])]
    ensures forall k :: 0 <= k < 32 ==> r[k] in HexDigits
  {
    var s := new char[32];
    for i := 0 to 32
      invariant forall k :: 0 <= k < i ==> s[k] == HexDigits[digits[k]]
    {
      s[i] := HexDigits[digits[i]];
    }
    s[12] := '4';
    VariantIndexMatches(digits[16]);
    s[16] := HexDigits[VariantIndex(s[16])];
    r := s[..];
  }

  /** The variant digit is one of `8`, `9`, `A`, `B`, and a letter drawn
      there always gives `8`. */
  lemma VariantDigits(d: nat)
    requires d < 16
    ensures HexDigits[IntendedVariant(d)] in "89AB"
    ensures d >= 10 ==> HexDigits[IntendedVariant(d)] == '8'
  {
  }
}
