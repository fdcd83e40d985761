/**
 * The parts of strconv.ParseInt and of fmt's %o / %d verbs that the header
 * line of the protocol uses: bases 8 and 10, an optional sign, and the
 * signed 32- and 64-bit ranges.
 */
module Numerals {
  import opened Wrappers
  import opened Bytes

  /** A digit of `base` (bases up to 10 use only '0'..'9'). */
  predicate IsDigit(b: byte, base: nat)
  {
    DIGIT0 <= b < DIGIT0 + base
  }

  predicate AllDigits(s: seq<byte>, base: nat)
  {
    forall i :: 0 <= i < |s| ==> IsDigit(s[i], base)
  }

  /** The value of a digit string, most significant digit first. */
  function DigitsValue(s: seq<byte>, base: nat): nat
    requires AllDigits(s, base)
    decreases |s|
  {
    if s == [] then 0
    else DigitsValue(s[..|s| - 1], base) * base + (s[|s| - 1] - DIGIT0)
  }

  /** 1 << (bitSize - 1): the magnitude bound of a signed integer of that width. */
  function Cutoff(bitSize: nat): int
    requires bitSize == 32 || bitSize == 64
  {
    if bitSize == 32 then 0x8000_0000 else 0x8000_0000_0000_0000
  }

  /**
   * strconv.ParseInt(s, base, bitSize) for an explicit base of at most 10:
   * an optional '+' or '-', then at least one digit of the base (no
   * underscores, no base prefix), and the value must fit in a signed
   * integer of bitSize bits.
   */
  function ParseInt(s: seq<byte>, base: nat, bitSize: nat): (r: Option<int>)
    requires 2 <= base <= 10
    requires bitSize == 32 || bitSize == 64
    ensures r.Some? ==> -Cutoff(bitSize) <= r.value < Cutoff(bitSize)
    ensures r.Some? ==> s != [] && (r.value < 0 ==> s[0] == MINUS)
    ensures r.Some? ==> forall i :: 1 <= i < |s| ==> IsDigit(s[i], base)
  {
    if s == [] then None
    else
      var neg := s[0] == MINUS;
      var digits := if s[0] == PLUS || s[0] == MINUS then s[1..] else s;
      if digits == [] || !AllDigits(digits, base) then None
      else
        var u: int := DigitsValue(digits, base);
        if !neg && u >= Cutoff(bitSize) then None
        else if neg && u > Cutoff(bitSize) then None
        else Some(if neg then -u else u)
  }

  /** The digits of n in `base`, without leading zeros ("0" for zero). */
  function FormatUnsigned(n: nat, base: nat): (ds: seq<byte>)
    requires 2 <= base <= 10
    ensures |ds| >= 1 && AllDigits(ds, base)
    ensures DigitsValue(ds, base) == n
    decreases n
  {
    if n < base then [DIGIT0 + n]
    else
      var q, m := n / base, n % base;
      DivMod(n, base);
      var front := FormatUnsigned(q, base);
      var d: byte := DIGIT0 + m;
      DigitsAppend(front, d, base);
      front + [d]
  }

  /** Euclidean division by a positive base. */
  lemma DivMod(n: nat, base: nat)
    requires base >= 2
    ensures n / base * base + n % base == n && 0 <= n % base < base
    ensures n >= base ==> n / base < n
  {
  }

  /** Appending a digit multiplies the value by the base and adds the digit. */
  lemma DigitsAppend(front: seq<byte>, d: byte, base: nat)
    requires AllDigits(front, base) && IsDigit(d, base)
    ensures AllDigits(front + [d], base)
    ensures DigitsValue(front + [d], base) == DigitsValue(front, base) * base + (d - DIGIT0)
  {
    assert (front + [d])[..|front|] == front;
  }

  /** Leading zeros do not change the value of a digit string. */
  lemma {:induction false} LeadingZeros(k: nat, ds: seq<byte>, base: nat)
    requires AllDigits(ds, base) && 1 <= base
    ensures AllDigits(seq(k, _ => DIGIT0) + ds, base)
    ensures DigitsValue(seq(k, _ => DIGIT0) + ds, base) == DigitsValue(ds, base)
    decreases |ds| + k
  {
    var z := seq(k, _ => DIGIT0);
    var s := z + ds;
    if ds == [] {
      assert s == z;
      if k > 0 {
        assert s[..|s| - 1] == seq(k - 1, _ => DIGIT0) + [];
        LeadingZeros(k - 1, [], base);
      }
    } else {
      assert s[..|s| - 1] == z + ds[..|ds| - 1];
      LeadingZeros(k, ds[..|ds| - 1], base);
    }
  }

  /** fmt's %0<width>o / %0<width>d: pad with '0' on the left up to `width`. */
  function ZeroPad(ds: seq<byte>, width: nat): (r: seq<byte>)
    ensures |r| == if |ds| >= width then |ds| else width
    ensures HasSuffix(r, ds)
    ensures forall k :: 0 <= k < |r| - |ds| ==> r[k] == DIGIT0
  {
    if |ds| >= width then ds else seq(width - |ds|, _ => DIGIT0) + ds
  }

  /** fmt's "%04o" of a non-negative value. */
  function FormatOctal4(n: nat): (r: seq<byte>)
  {
    ZeroPad(FormatUnsigned(n, 8), 4)
  }

  /** fmt's "%d" of a non-negative value. */
  function FormatDecimal(n: nat): (r: seq<byte>)
  {
    FormatUnsigned(n, 10)
  }

  /** "%04o" writes at least four octal digits. */
  lemma Octal4Digits(n: nat)
    ensures |FormatOctal4(n)| >= 4 && AllDigits(FormatOctal4(n), 8)
  {
    var ds := FormatUnsigned(n, 8);
    if |ds| < 4 {
      LeadingZeros(4 - |ds|, ds, 8);
    }
  }

  /** A byte that is not a digit of the base does not occur in a digit string. */
  lemma NotAmongDigits(ds: seq<byte>, base: nat, b: byte)
    requires AllDigits(ds, base) && !IsDigit(b, base)
    ensures b !in ds
  {
  }

  /** What "%04o" writes, ParseInt(_, 8, 32) reads back. */
  lemma OctalRoundTrip(n: nat)
    requires n < 0x8000_0000
    ensures |FormatOctal4(n)| >= 4 && AllDigits(FormatOctal4(n), 8)
    ensures ParseInt(FormatOctal4(n), 8, 32) == Some(n)
  {
    var ds := FormatUnsigned(n, 8);
    if |ds| < 4 {
      LeadingZeros(4 - |ds|, ds, 8);
    }
  }

  /** What "%d" writes, ParseInt(_, 10, 64) reads back. */
  lemma DecimalRoundTrip(n: nat)
    requires n < 0x8000_0000_0000_0000
    ensures |FormatDecimal(n)| >= 1 && AllDigits(FormatDecimal(n), 10)
    ensures ParseInt(FormatDecimal(n), 10, 64) == Some(n)
  {
  }

  /** A sign is accepted, so a negative size such as "-1" parses. */
  lemma NegativeSizeParses()
    ensures ParseInt([MINUS, DIGIT0 + 1], 10, 64) == Some(-1)
  {
    var digits := [DIGIT0 + 1];
    assert [MINUS, DIGIT0 + 1][1..] == digits;
    assert digits[..0] == [];
    assert DigitsValue(digits, 10) == 1;
  }

  /** The sign ParseInt accepts in front of the digits: none, '+' or '-'. */
  predicate IsSign(sign: seq<byte>)
  {
    sign == [] || sign == [PLUS] || sign == [MINUS]
  }

  /**
   * An optionally signed, non-empty string of digits parses to its value,
   * negated after '-', when that value fits in bitSize signed bits, and is
   * refused when it does not.
   */
  lemma ParseIntSigned(sign: seq<byte>, digits: seq<byte>, base: nat, bitSize: nat)
    requires 2 <= base <= 10 && (bitSize == 32 || bitSize == 64)
    requires IsSign(sign) && digits != [] && AllDigits(digits, base)
    ensures var v: int := if sign == [MINUS] then -(DigitsValue(digits, base) as int) else DigitsValue(digits, base);
            ParseInt(sign + digits, base, bitSize)
            == if -Cutoff(bitSize) <= v < Cutoff(bitSize) then Some(v) else None
  {
    var s := sign + digits;
    if sign == [] {
      assert s == digits && IsDigit(s[0], base);
    } else {
      assert s[0] == sign[0] && s[1..] == digits;
    }
  }

  /** Nothing else parses: an accepted string is a sign followed by digits. */
  lemma ParseIntShape(s: seq<byte>, base: nat, bitSize: nat)
    requires 2 <= base <= 10 && (bitSize == 32 || bitSize == 64)
    ensures ParseInt(s, base, bitSize).Some? ==>
              exists sign, digits :: IsSign(sign) && digits != [] && AllDigits(digits, base) && s == sign + digits
  {
    if ParseInt(s, base, bitSize).Some? {
      var sign := if s[0] == PLUS || s[0] == MINUS then s[..1] else [];
      assert s == sign + s[|sign|..];
    }
  }

  /** An unsigned octal mode parses exactly when it is below 1 << 31. */
  lemma ModeRange(s: seq<byte>)
    requires |s| >= 1 && AllDigits(s, 8)
    ensures ParseInt(s, 8, 32).Some? <==> DigitsValue(s, 8) < 0x8000_0000
  {
  }
}
