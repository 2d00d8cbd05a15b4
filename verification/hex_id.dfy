/**
 Parsing of the vendor and product identifiers given to `open`.

 `rawhid_open_device` converts each name with `strtol(name, NULL, 16)` and
 narrows the `long` to `int`.  Only names that begin with the literal characters `0x`
 are ever accepted, so the model evaluates `strtol` for those names: the
 optional `0x` prefix is consumed, then the longest run of hexadecimal digits
 that follows (possibly empty, giving 0).  `long` is taken to be 64 bits
 (LP64), so an out-of-range value saturates at `LongMax`; the narrowing to a
 32-bit `int` keeps the low 32 bits, as two's complement compilers do.
 */
module HexId {

  const IntMin: int := -0x8000_0000
  const IntMax: int := 0x7FFF_FFFF
  const LongMax: int := 0x7FFF_FFFF_FFFF_FFFF

  predicate IsHexDigit(c: char)
  {
    ('0' <= c <= '9') || ('a' <= c <= 'f') || ('A' <= c <= 'F')
  }

  function DigitValue(c: char): (v: nat)
    requires IsHexDigit(c)
    ensures v < 16
  {
    if '0' <= c <= '9' then c as int - '0' as int
    else if 'a' <= c <= 'f' then c as int - 'a' as int + 10
    else c as int - 'A' as int + 10
  }

  /** Length of the longest prefix of `s` made only of hexadecimal digits. */
  function HexRun(s: string): (n: nat)
    ensures n <= |s|
    ensures forall i :: 0 <= i < n ==> IsHexDigit(s[i])
    ensures n < |s| ==> !IsHexDigit(s[n])
  {
    if |s| == 0 || !IsHexDigit(s[0]) then 0 else 1 + HexRun(s[1..])
  }

  predicate AllHex(s: string)
  {
    forall i :: 0 <= i < |s| ==> IsHexDigit(s[i])
  }

  /** Value of a string of hexadecimal digits, most significant first. */
  function HexValue(digits: string): nat
    requires AllHex(digits)
  {
    if |digits| == 0 then 0
    else 16 * HexValue(digits[..|digits| - 1]) + DigitValue(digits[|digits| - 1])
  }

  /** The `(int)` cast of a `long` in `rawhid_open_device`: the result agrees with `v` modulo 2^32. */
  function ToCInt(v: int): (r: int)
    ensures IntMin <= r <= IntMax
    ensures (r - v) % 0x1_0000_0000 == 0
  {
    var low := v % 0x1_0000_0000;
    if low <= IntMax then low else low - 0x1_0000_0000
  }

  /** The narrowing leaves every value that already fits in an `int` unchanged. */
  lemma ToCIntOfInt(v: int)
    requires IntMin <= v <= IntMax
    ensures ToCInt(v) == v
  {
  }

  /** The literal `0x` that `rawhid_open_device` demands at the head of each name. */
  predicate HasHexPrefix(name: string)
  {
    |name| >= 2 && name[0] == '0' && name[1] == 'x'
  }

  /** `strtol(name, NULL, 16)` for a name that begins with `0x`, saturated at `LongMax`. */
  function Strtol(name: string): (v: nat)
    requires HasHexPrefix(name)
    ensures v <= LongMax
  {
    var tail := name[2..];
    var digits := tail[..HexRun(tail)];
    var value := HexValue(digits);
    if value > LongMax then LongMax else value
  }

  /** The identifier `rawhid_open_device` computes for a `0x` name: `(int)strtol(name, NULL, 16)`. */
  function IdValue(name: string): (id: int)
    requires HasHexPrefix(name)
    ensures IntMin <= id <= IntMax
    ensures (id - Strtol(name)) % 0x1_0000_0000 == 0
  {
    ToCInt(Strtol(name))
  }

  /** A name is accepted as an identifier when it begins with `0x` and its value is positive. */
  predicate Accepted(name: string)
  {
    HasHexPrefix(name) && IdValue(name) > 0
  }

  function HexDigit(d: nat): (c: char)
    requires d < 16
    ensures IsHexDigit(c) && DigitValue(c) == d
  {
    if d < 10 then ('0' as int + d) as char else ('a' as int + d - 10) as char
  }

  /** Lower-case hexadecimal spelling of `v`, without leading zeros. */
  function ToHex(v: nat): (s: string)
    ensures |s| > 0 && AllHex(s)
    decreases v
  {
    if v < 16 then [HexDigit(v)] else ToHex(v / 16) + [HexDigit(v % 16)]
  }

  lemma {:induction false} HexValueOfToHex(v: nat)
    ensures HexValue(ToHex(v)) == v
    decreases v
  {
    if v >= 16 {
      var s := ToHex(v);
      assert s[..|s| - 1] == ToHex(v / 16);
      HexValueOfToHex(v / 16);
    }
  }

  lemma HexRunOfAllHex(s: string)
    requires AllHex(s)
    ensures HexRun(s) == |s|
  {
  }

  /** `strtol` reads back the spelling `0x` + `ToHex(v)` as `v`, saturated at `LongMax`. */
  lemma {:induction false} StrtolOfToHex(v: nat)
    ensures HasHexPrefix("0x" + ToHex(v))
    ensures Strtol("0x" + ToHex(v)) == if v > LongMax then LongMax else v
  {
    var name := "0x" + ToHex(v);
    assert name[2..] == ToHex(v);
    HexRunOfAllHex(ToHex(v));
    assert name[2..][..HexRun(name[2..])] == ToHex(v);
    HexValueOfToHex(v);
  }

  /** A run of hex digits followed by nothing or by a non-hex character is consumed whole. */
  lemma {:induction false} HexRunStops(d: string, rest: string)
    requires AllHex(d) && (|rest| == 0 || !IsHexDigit(rest[0]))
    ensures HexRun(d + rest) == |d|
    decreases |d|
  {
    if |d| > 0 {
      assert (d + rest)[1..] == d[1..] + rest;
      HexRunStops(d[1..], rest);
    }
  }

  /**
   Any spelling: `0x`, then hex digits `d` of either case and with any leading
   zeros, then nothing or a character that is not a hex digit.  `strtol` reads
   the value of `d`, saturated at `LongMax`, and ignores the rest.
   */
  lemma StrtolAny(d: string, rest: string)
    requires AllHex(d) && (|rest| == 0 || !IsHexDigit(rest[0]))
    ensures HasHexPrefix("0x" + d + rest)
    ensures Strtol("0x" + d + rest) == if HexValue(d) > LongMax then LongMax else HexValue(d)
  {
    var name := "0x" + d + rest;
    assert name[2..] == d + rest;
    HexRunStops(d, rest);
    assert (d + rest)[..|d|] == d;
  }

  /**
   Every name whose digits `d` spell a positive `int`, whatever their case,
   leading zeros or trailing non-hex text, is accepted as that value.
   */
  lemma IdRoundTrip(d: string, rest: string)
    requires AllHex(d) && (|rest| == 0 || !IsHexDigit(rest[0]))
    requires 0 < HexValue(d) <= IntMax
    ensures Accepted("0x" + d + rest)
    ensures IdValue("0x" + d + rest) == HexValue(d)
  {
    StrtolAny(d, rest);
    ToCIntOfInt(HexValue(d));
  }

  /** The canonical spelling of a positive `int` is accepted as itself. */
  lemma CanonicalIdRoundTrip(v: int)
    requires 0 < v <= IntMax
    ensures Accepted("0x" + ToHex(v))
    ensures IdValue("0x" + ToHex(v)) == v
  {
    StrtolOfToHex(v);
    ToCIntOfInt(v);
  }

  /**
   The narrowing keeps only the low 32 bits: every name whose value fits in
   a `long` and has low 32 bits 1 (`0x100000001`, for one) is read as
   identifier 1 and accepted.
   */
  lemma WrappedIdAccepted(d: string, rest: string)
    requires AllHex(d) && (|rest| == 0 || !IsHexDigit(rest[0]))
    requires HexValue(d) <= LongMax && HexValue(d) % 0x1_0000_0000 == 1
    ensures Accepted("0x" + d + rest) && IdValue("0x" + d + rest) == 1
  {
    StrtolAny(d, rest);
  }

  /**
   A name whose value fits in a `long` and has low 32 bits zero
   (`0x100000000`) or with the top bit set (`0x80000000`) narrows to an `int`
   that is not positive, and is refused.
   */
  lemma WrappedIdRefused(d: string, rest: string)
    requires AllHex(d) && (|rest| == 0 || !IsHexDigit(rest[0]))
    requires HexValue(d) <= LongMax
    requires HexValue(d) % 0x1_0000_0000 == 0 || HexValue(d) % 0x1_0000_0000 >= 0x8000_0000
    ensures !Accepted("0x" + d + rest)
  {
    StrtolAny(d, rest);
  }

  /** Any name whose value is past `LongMax` saturates, narrows to -1, and is refused. */
  lemma SaturatedIdRefused(d: string, rest: string)
    requires AllHex(d) && (|rest| == 0 || !IsHexDigit(rest[0]))
    requires HexValue(d) > LongMax
    ensures IdValue("0x" + d + rest) == -1 && !Accepted("0x" + d + rest)
  {
    StrtolAny(d, rest);
  }

  /** A name with no hexadecimal digit right after its `0x` is refused. */
  lemma EmptyDigitsRefused(name: string)
    requires HasHexPrefix(name)
    requires HexRun(name[2..]) == 0
    ensures !Accepted(name)
  {
    assert name[2..][..0] == "";
  }
}
