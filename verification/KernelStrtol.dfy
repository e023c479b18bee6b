/** kstrtol with base 10, as the kernel documents it: what vkbd.c and vinput.c parse with. */
module KernelStrtol {
  import opened Decimal

  const LONG_MAX: int := 0x7FFF_FFFF_FFFF_FFFF
  const LONG_MIN: int := -0x8000_0000_0000_0000
  const ULLONG_MAX: int := 0xFFFF_FFFF_FFFF_FFFF

  predicate IsLong(v: int) {
    LONG_MIN <= v <= LONG_MAX
  }

  datatype Parsed = Einval | Erange | Value(v: int)

  /** The number of digits a string begins with. */
  function DigitCount(s: string): (n: nat)
    ensures n <= |s| && AllDigits(s[..n])
    decreases |s|
  {
    if s == "" || !IsDigit(s[0]) then 0 else
    var n := DigitCount(s[1..]);
    assert s[..n + 1] == [s[0]] + s[1..][..n];
    n + 1
  }

  /** Digits, not too many, then at most a newline. */
  function ParseUnsigned(s: string): Parsed {
    var n := DigitCount(s);
    if n == 0 then Einval
    else if Number(s[..n]) > ULLONG_MAX then Erange
    else if s[n..] == "" || s[n..] == "\n" then Value(Number(s[..n]))
    else Einval
  }

  /** `kstrtol`: one sign, and the result within a long. */
  function Kstrtol(s: string): (r: Parsed)
    ensures r.Value? ==> IsLong(r.v)
  {
    if s != "" && s[0] == '-' then
      var r := ParseUnsigned(s[1..]);
      if r.Value? then (if -r.v < LONG_MIN then Erange else Value(-r.v)) else r
    else
      var r := ParseUnsigned(if s != "" && s[0] == '+' then s[1..] else s);
      if r.Value? && r.v > LONG_MAX then Erange else r
  }

  lemma {:induction false} CountOf(d: string, rest: string)
    requires AllDigits(d) && (rest == "" || !IsDigit(rest[0]))
    ensures DigitCount(d + rest) == |d|
    decreases |d|
  {
    if d != "" {
      assert (d + rest)[1..] == d[1..] + rest;
      CountOf(d[1..], rest);
    } else {
      assert d + rest == rest;
    }
  }

  /** Some digits, with or without a newline, parse as their number. */
  lemma ParseDigits(d: string, end: string)
    requires AllDigits(d) && (end == "" || end == "\n")
    ensures ParseUnsigned(d + end) ==
            if d == "" then Einval else if Number(d) > ULLONG_MAX then Erange else Value(Number(d))
  {
    CountOf(d, end);
    assert (d + end)[..|d|] == d && (d + end)[|d|..] == end;
  }

  /** A text of a sign or none, at least one digit and a newline or none, and its value. */
  predicate Reads(s: string, sign: string, d: string, end: string, v: int) {
    && s == sign + d + end
    && (sign == "" || sign == "+" || sign == "-") && d != "" && AllDigits(d) && (end == "" || end == "\n")
    && var m: int := Number(d);
       v == if sign == "-" then -m else m
  }

  /** The digits of a text that parses, and what follows them. */
  lemma UnsignedReads(s: string)
    requires ParseUnsigned(s).Value?
    ensures var n := DigitCount(s);
            && s == s[..n] + s[n..] && s[..n] != "" && AllDigits(s[..n]) && (s[n..] == "" || s[n..] == "\n")
            && ParseUnsigned(s).v == Number(s[..n])
  {
  }

  lemma ParsedReads(s: string, v: int) returns (sign: string, d: string, end: string)
    requires Kstrtol(s) == Value(v)
    ensures Reads(s, sign, d, end, v)
  {
    if s != "" && (s[0] == '-' || s[0] == '+') {
      UnsignedReads(s[1..]);
      var n := DigitCount(s[1..]);
      sign, d, end := [s[0]], s[1..][..n], s[1..][n..];
      assert s == [s[0]] + s[1..];
      assert sign + d + end == [s[0]] + (d + end);
    } else {
      UnsignedReads(s);
      var n := DigitCount(s);
      sign, d, end := "", s[..n], s[n..];
      assert "" + d + end == d + end;
    }
  }

  lemma ReadsParsed(s: string, sign: string, d: string, end: string, v: int)
    requires Reads(s, sign, d, end, v) && -0x8000_0000_0000_0000 <= v <= 0x7FFF_FFFF_FFFF_FFFF
    ensures Kstrtol(s) == Value(v)
  {
    ParseDigits(d, end);
    if sign == "" {
      assert s == d + end && IsDigit(s[0]);
    } else {
      assert s[1..] == d + end;
    }
  }

  /**
   Exactly the texts that parse, and as what: a sign or none, digits, a newline or none,
   with a value that fits a long.
   */
  lemma KstrtolIs(s: string, v: int)
    ensures Kstrtol(s) == Value(v) <==>
            && -0x8000_0000_0000_0000 <= v <= 0x7FFF_FFFF_FFFF_FFFF
            && exists sign, d, end :: Reads(s, sign, d, end, v)
  {
    if Kstrtol(s) == Value(v) { var sign, d, end := ParsedReads(s, v); }
    if -0x8000_0000_0000_0000 <= v <= 0x7FFF_FFFF_FFFF_FFFF {
      forall sign, d, end | Reads(s, sign, d, end, v) ensures Kstrtol(s) == Value(v) {
        ReadsParsed(s, sign, d, end, v);
      }
    }
  }
}
