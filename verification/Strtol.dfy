/** The C library's whole-string integer parsing, as the callers in this repository use it:
    a number counts only when the conversion consumed the entire string without overflow. */
module Strtol {
  import opened Options

  const TWO_63: int := 0x8000_0000_0000_0000
  const TWO_64: int := 0x1_0000_0000_0000_0000

  predicate IsSpace(c: char) {
    c == ' ' || '\t' <= c <= '\r'
  }

  function SkipSpace(s: string): string {
    if s != [] && IsSpace(s[0]) then SkipSpace(s[1..]) else s
  }

  /** The digit value of a character; 36 stands for "no digit in any base". */
  function Digit(c: char): nat {
    if '0' <= c <= '9' then c as int - '0' as int
    else if 'a' <= c <= 'z' then c as int - 'a' as int + 10
    else if 'A' <= c <= 'Z' then c as int - 'A' as int + 10
    else 36
  }

  predicate AllDigits(s: string, base: nat) {
    s != [] && forall i :: 0 <= i < |s| ==> Digit(s[i]) < base
  }

  function DigitsValue(s: string, base: nat): nat {
    if s == [] then 0 else DigitsValue(s[..|s| - 1], base) * base + Digit(s[|s| - 1])
  }

  /** Base 0 selects 16, 8 or 10 from the prefix, as `strtoll` does. */
  function Magnitude(s: string, base: nat): Option<int> {
    if (base == 0 || base == 16) && |s| >= 3 && s[0] == '0' && (s[1] == 'x' || s[1] == 'X')
       && AllDigits(s[2..], 16) then
      Some(DigitsValue(s[2..], 16))
    else
      var b := if base != 0 then base else if s != [] && s[0] == '0' then 8 else 10;
      if AllDigits(s, b) then Some(DigitsValue(s, b)) else None
  }

  /** `strtoll(s, &tail, base)` when it succeeds on all of `s`. */
  function WholeSigned(s: string, base: nat): Option<int> {
    var t := SkipSpace(s);
    var signed := t != [] && (t[0] == '-' || t[0] == '+');
    var mag := Magnitude(if signed then t[1..] else t, base);
    if mag.None? then None
    else
      var v: int := if signed && t[0] == '-' then -mag.value else mag.value;
      if -TWO_63 <= v < TWO_63 then Some(v) else None
  }

  /** `strtoull(s, &tail, base)` when it succeeds on all of `s`. */
  function WholeUnsigned(s: string, base: nat): Option<int> {
    var t := SkipSpace(s);
    var signed := t != [] && (t[0] == '-' || t[0] == '+');
    var mag := Magnitude(if signed then t[1..] else t, base);
    if mag.None? || mag.value >= TWO_64 then None
    else if signed && t[0] == '-' then Some((TWO_64 - mag.value) % TWO_64)
    else Some(mag.value)
  }
}
