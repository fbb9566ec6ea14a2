/** Hexadecimal digits. */
module Hexadecimal {
  import opened Bytes

  function LowerDigit(v: nat): (c: char)
    requires v < 16
    ensures HexValue(c) == Some(v)
  {
    if v < 10 then ('0' as int + v) as char else ('a' as int + v - 10) as char
  }

  function UpperDigit(v: nat): (c: char)
    requires v < 16
    ensures HexValue(c) == Some(v)
  {
    if v < 10 then ('0' as int + v) as char else ('A' as int + v - 10) as char
  }

  /** The sixteen digits, in order. */
  lemma DigitsSpell(v: nat)
    requires v < 16
    ensures LowerDigit(v) == "0123456789abcdef"[v] && UpperDigit(v) == "0123456789ABCDEF"[v]
  {
  }

  /** The value of a digit of either case. */
  function HexValue(c: char): (v: Option<nat>)
    ensures v.Some? ==> v.value < 16
  {
    if '0' <= c <= '9' then Some((c as int - '0' as int) as nat)
    else if 'a' <= c <= 'f' then Some((c as int - 'a' as int + 10) as nat)
    else if 'A' <= c <= 'F' then Some((c as int - 'A' as int + 10) as nat)
    else None
  }
}
