/** The names the renumbering tool gives to pads: wxString::Format("%s%d", prefix, n). */
module PadNames {

  /** The decimal digit character for a digit value. */
  function DigitChar(d: nat): (c: char)
    requires d < 10
    ensures '0' <= c <= '9'
  {
    ('0' as int + d) as char
  }

  /** The decimal digits of n, most significant first, without leading zeros. */
  function NatToDecimal(n: nat): (s: string)
    ensures |s| >= 1
    ensures n >= 10 ==> |s| >= 2
    ensures forall k | 0 <= k < |s| :: '0' <= s[k] <= '9'
  {
    if n < 10 then [DigitChar(n)] else NatToDecimal(n / 10) + [DigitChar(n % 10)]
  }

  /** printf's "%d": a minus sign for a negative value, then the digits of its magnitude. */
  function IntToDecimal(n: int): (s: string)
    ensures |s| >= 1 && (s[0] == '-' <==> n < 0)
    ensures n < 0 ==> |s| >= 2
    ensures forall k | (if n < 0 then 1 else 0) <= k < |s| :: '0' <= s[k] <= '9'
  {
    if n < 0 then "-" + NatToDecimal(-n) else NatToDecimal(n)
  }

  /** The name given to the pad that receives number n. */
  function PadName(prefix: string, n: int): (s: string)
    ensures |s| > |prefix| && s[..|prefix|] == prefix
  {
    prefix + IntToDecimal(n)
  }

  /** Different numbers have different digit strings. */
  lemma {:induction false} NatToDecimalInjective(a: nat, b: nat)
    ensures NatToDecimal(a) == NatToDecimal(b) ==> a == b
    decreases a
  {
    var s, t := NatToDecimal(a), NatToDecimal(b);
    if s == t && a >= 10 && b >= 10 {
      assert s[..|s| - 1] == NatToDecimal(a / 10);
      assert t[..|t| - 1] == NatToDecimal(b / 10);
      NatToDecimalInjective(a / 10, b / 10);
      assert DigitChar(a % 10) == s[|s| - 1] == t[|t| - 1] == DigitChar(b % 10);
    }
  }

  lemma IntToDecimalInjective(a: int, b: int)
    ensures IntToDecimal(a) == IntToDecimal(b) ==> a == b
  {
    var s, t := IntToDecimal(a), IntToDecimal(b);
    if a < 0 && b < 0 {
      assert s[1..] == NatToDecimal(-a) && t[1..] == NatToDecimal(-b);
      NatToDecimalInjective(-a, -b);
    } else if a >= 0 && b >= 0 {
      NatToDecimalInjective(a, b);
    } else if a < 0 {
      assert s[0] == '-' && t[0] != '-';
    } else {
      assert t[0] == '-' && s[0] != '-';
    }
  }

  /** With a fixed prefix the naming is injective: two pads renumbered with
      different numbers never receive the same name. */
  lemma PadNameInjective(prefix: string, a: int, b: int)
    ensures PadName(prefix, a) == PadName(prefix, b) ==> a == b
  {
    if PadName(prefix, a) == PadName(prefix, b) {
      assert IntToDecimal(a) == PadName(prefix, a)[|prefix|..];
      assert IntToDecimal(b) == PadName(prefix, b)[|prefix|..];
      IntToDecimalInjective(a, b);
    }
  }

  /** Names that "%s%d" produces. */
  lemma PadNameExamples()
    ensures PadName("P", 12) == "P12"
    ensures PadName("", 7) == "7"
    ensures PadName("A", -3) == "A-3"
  {
  }
}
