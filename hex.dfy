/** Hexadecimal text as Python's `bytes.hex()` writes it and `bytes.fromhex()` reads it. */
module Hex {
  import opened Results

  newtype byte = b: int | 0 <= b < 256

  const LowerHexDigits: string := "0123456789abcdef"

  /** The two lower-case digits `bytes.hex()` writes for one byte. */
  function ByteHex(b: byte): (r: string)
    ensures |r| == 2 && r[0] in LowerHexDigits && r[1] in LowerHexDigits
  {
    [LowerHexDigits[b / 16], LowerHexDigits[b % 16]]
  }

  /** `bytes.hex()`: two lower-case digits per byte, nothing else. */
  function ToHex(bs: seq<byte>): (r: string)
    ensures |r| == 2 * |bs|
    ensures forall c :: c in r ==> c in LowerHexDigits
  {
    if bs == [] then [] else ByteHex(bs[0]) + ToHex(bs[1..])
  }

  /** The characters `bytes.fromhex()` skips between byte pairs (ASCII whitespace). */
  predicate IsAsciiSpace(c: char) {
    c == ' ' || c == '\t' || c == '\n' || c == '\r' || c == '\U{B}' || c == '\U{C}'
  }

  predicate IsHexDigit(c: char) {
    ('0' <= c <= '9') || ('a' <= c <= 'f') || ('A' <= c <= 'F')
  }

  function DigitValue(c: char): (v: int)
    requires IsHexDigit(c)
    ensures 0 <= v < 16
  {
    if '0' <= c <= '9' then c as int - '0' as int
    else if 'a' <= c <= 'f' then c as int - 'a' as int + 10
    else c as int - 'A' as int + 10
  }

  /** `bytes.fromhex()`: byte pairs of digits of either case, with ASCII whitespace
      allowed before each pair; `None` where Python raises `ValueError`. */
  function FromHex(s: string): (r: Option<seq<byte>>)
    ensures r.Some? ==> 2 * |r.value| <= |s|
    ensures r.Some? ==> forall i :: 0 <= i < |s| ==> IsAsciiSpace(s[i]) || IsHexDigit(s[i])
    decreases |s|
  {
    if s == [] then Some([])
    else if IsAsciiSpace(s[0]) then FromHex(s[1..])
    else if |s| >= 2 && IsHexDigit(s[0]) && IsHexDigit(s[1]) then
      match FromHex(s[2..])
      case Some(rest) => Some([(16 * DigitValue(s[0]) + DigitValue(s[1])) as byte] + rest)
      case None => None
    else None
  }

  lemma DigitValueOfLowerHex(n: nat)
    requires n < 16
    ensures IsHexDigit(LowerHexDigits[n]) && DigitValue(LowerHexDigits[n]) == n
  {
  }

  /** A pair of digits at the front of the text reads as one byte before the rest. */
  lemma FromHexPair(hi: char, lo: char, rest: string)
    requires IsHexDigit(hi) && IsHexDigit(lo)
    ensures FromHex([hi, lo] + rest) ==
      if FromHex(rest).Some? then Some([(16 * DigitValue(hi) + DigitValue(lo)) as byte] + FromHex(rest).value)
      else None
  {
    var s := [hi, lo] + rest;
    assert s[0] == hi && s[1] == lo && s[2..] == rest;
  }

  /** Reading back what `bytes.hex()` wrote gives the original bytes. */
  lemma {:induction false} FromHexToHex(bs: seq<byte>)
    ensures FromHex(ToHex(bs)) == Some(bs)
  {
    if bs != [] {
      var b := bs[0];
      var hi, lo := LowerHexDigits[b as nat / 16], LowerHexDigits[b as nat % 16];
      assert ToHex(bs) == [hi, lo] + ToHex(bs[1..]);
      DigitValueOfLowerHex(b as nat / 16);
      DigitValueOfLowerHex(b as nat % 16);
      FromHexPair(hi, lo, ToHex(bs[1..]));
      FromHexToHex(bs[1..]);
      assert (16 * DigitValue(hi) + DigitValue(lo)) as byte == b;
      assert [b] + bs[1..] == bs;
    }
  }

  /** `bytes.hex()` is one-to-one. */
  lemma ToHexInjective(a: seq<byte>, b: seq<byte>)
    requires ToHex(a) == ToHex(b)
    ensures a == b
  {
    FromHexToHex(a);
    FromHexToHex(b);
  }
}
