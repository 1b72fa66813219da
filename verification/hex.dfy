/**
 * Java's `Integer.parseInt(s, 16)`, as `process_table` applies it to every
 * token, and the two-digit rendering of a byte that it inverts.
 */
module Hex {
  import opened Results

  const IntMin: int := -0x8000_0000
  const IntMax: int := 0x7FFF_FFFF

  predicate IsHexDigit(c: char)
  {
    '0' <= c <= '9' || 'a' <= c <= 'f' || 'A' <= c <= 'F'
  }

  predicate AllHex(s: string)
  {
    forall k :: 0 <= k < |s| ==> IsHexDigit(s[k])
  }

  function DigitValue(c: char): (v: nat)
    requires IsHexDigit(c)
    ensures v < 16
  {
    if '0' <= c <= '9' then c as int - '0' as int
    else if 'a' <= c <= 'f' then c as int - 'a' as int + 10
    else c as int - 'A' as int + 10
  }

  /** The value of a string of hex digits, most significant first. */
  function HexValue(s: string): (v: nat)
    requires AllHex(s)
  {
    if |s| == 0 then 0 else HexValue(s[..|s| - 1]) * 16 + DigitValue(s[|s| - 1])
  }

  /** The digits of a non-empty token: everything after a leading `+` or `-`. */
  function Digits(s: string): string
    requires |s| > 0
  {
    if s[0] == '-' || s[0] == '+' then s[1..] else s
  }

  /**
   * `Integer.parseInt(s, 16)`: an optional `+` or `-`, then at least one hex
   * digit, and a value that fits a 32-bit `Int`; anything else is the
   * `NumberFormatException` (`None`).
   */
  function ParseInt(s: string): (r: Option<int>)
    ensures r.Some? <==>
      |s| > 0 && |Digits(s)| > 0 && AllHex(Digits(s))
      && IntMin <= (if s[0] == '-' then -(HexValue(Digits(s)) as int) else HexValue(Digits(s))) <= IntMax
    ensures r.Some? ==> r.value == if s[0] == '-' then -(HexValue(Digits(s)) as int) else HexValue(Digits(s))
    // The three clauses below follow from the two above; they are stated so callers need not unfold HexValue.
    ensures r.Some? ==> IntMin <= r.value <= IntMax
    ensures r.Some? ==> |s| > 0 && forall k :: 0 < k < |s| ==> IsHexDigit(s[k])
    ensures r.Some? && s[0] != '-' ==> r.value >= 0
  {
    if |s| == 0 then None
    else
      var signed := s[0] == '-' || s[0] == '+';
      var digits := if signed then s[1..] else s;
      if |digits| == 0 || !AllHex(digits) then None
      else
        var magnitude: int := HexValue(digits);
        var v: int := if s[0] == '-' then -magnitude else magnitude;
        if IntMin <= v <= IntMax then Some(v) else None
  }

  /** A token whose first character is neither a sign nor a hex digit, or a lone sign, is not a number. */
  lemma ParseIntRejects(s: string)
    requires |s| > 0
    requires (s[0] != '-' && s[0] != '+' && !IsHexDigit(s[0])) || s == "-" || s == "+"
    ensures ParseInt(s) == None
  {
    if s != "-" && s != "+" {
      assert Digits(s)[0] == s[0];
    }
  }

  /** A trailing `0` multiplies the value by 16. */
  lemma HexValueShift(s: string)
    requires AllHex(s)
    ensures AllHex(s + "0") && HexValue(s + "0") == 16 * HexValue(s)
  {
    assert (s + "0")[..|s|] == s;
  }

  lemma HalfMagnitude()
    ensures AllHex("8000") && HexValue("8000") == 0x8000
  {
    HexValueShift("8");
    assert "8" + "0" == "80";
    HexValueShift("80");
    assert "80" + "0" == "800";
    HexValueShift("800");
    assert "800" + "0" == "8000";
  }

  /** `80000000` is 2^31, one more than the largest `Int`. */
  lemma MinMagnitude()
    ensures AllHex("80000000") && HexValue("80000000") == 0x8000_0000
  {
    HalfMagnitude();
    HexValueShift("8000");
    assert "8000" + "0" == "80000";
    HexValueShift("80000");
    assert "80000" + "0" == "800000";
    HexValueShift("800000");
    assert "800000" + "0" == "8000000";
    HexValueShift("8000000");
    assert "8000000" + "0" == "80000000";
  }

  /** The ends of the 32-bit range: `-80000000` is `Int.MIN_VALUE`; `80000000` overflows. */
  lemma ParseIntRange()
    ensures ParseInt("-80000000") == Some(IntMin)
    ensures ParseInt("80000000") == None
    ensures ParseInt("-1") == Some(-1)
  {
    MinMagnitude();
    assert Digits("-80000000") == "80000000";
    assert Digits("-1") == "1";
    assert "1"[..0] == [];
  }

  /** Upper-case hex digit for 0..15. */
  function HexDigit(v: nat): (c: char)
    requires v < 16
    ensures IsHexDigit(c) && DigitValue(c) == v
  {
    if v < 10 then ('0' as int + v) as char else ('A' as int + v - 10) as char
  }

  /** A byte value as two upper-case hex digits, the form a register dump lists it in. */
  function HexByte(v: nat): (s: string)
    requires v < 0x100
    ensures |s| == 2 && AllHex(s)
  {
    [HexDigit(v / 16), HexDigit(v % 16)]
  }

  /** `Integer.parseInt(_, 16)` reads a rendered byte back. */
  lemma ParseHexByte(v: nat)
    requires v < 0x100
    ensures ParseInt(HexByte(v)) == Some(v)
  {
    var s := HexByte(v);
    assert s[..1][..0] == [];
    assert HexValue(s[..1]) == v / 16;
    assert HexValue(s) == (v / 16) * 16 + v % 16;
  }

  /** The empty token is never a number. */
  lemma EmptyIsNotHex()
    ensures ParseInt("") == None
  {
  }
}
