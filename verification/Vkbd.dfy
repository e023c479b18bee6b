/**
 The virtual keyboard of examples/vkbd.c: an entry is printed by read as a signed decimal
 and parsed by send with kstrtol.
 */
module Vkbd {
  import opened CString
  import opened Decimal
  import opened KernelStrtol

  // Reading and sending.

  /** `%+ld\n` */
  function Printed(v: int): string {
    (if v < 0 then "-" + Digits(-v) else "+" + Digits(v)) + "\n"
  }

  /** The sign, the magnitude without leading zeros, and a newline. */
  lemma PrintedReads(v: int)
    ensures var t := Printed(v);
            && |t| > 2 && t[0] == (if v < 0 then '-' else '+') && t[|t|-1] == '\n'
            && var d := t[1..|t|-1];
               AllDigits(d) && Number(d) == (if v < 0 then -v else v) && (d[0] == '0' <==> v == 0)
  {
    var n := if v < 0 then -v else v;
    NumberOfDigits(n);
    FirstDigit(n);
    assert Printed(v)[1..|Printed(v)|-1] == Digits(n);
  }

  /** What snprintf leaves in a buffer of n bytes: all of it, or the first n - 1 characters. */
  function Truncated(s: string, n: nat): string
    requires n > 0
  {
    if |s| < n then s else s[..n-1]
  }

  /** The bytes snprintf stores into a buffer of n bytes: a string and its terminator, or none. */
  function Stored(s: string, n: nat): (bytes: seq<char>)
    ensures |bytes| <= n
  {
    if n == 0 then [] else Truncated(s, n) + [NUL]
  }

  /** The entry a buffer stands for: 0 when it cannot be parsed. */
  function Entry(buff: string): (key: int)
    ensures IsLong(key)
  {
    var r := Kstrtol(if buff != "" && buff[0] == '+' then buff[1..] else buff);
    if r.Value? then r.v else 0
  }

  datatype Kind = Release | Press

  /** What is logged, and what input_report_key is given: its code is an unsigned int. */
  datatype Report = Report(kind: Kind, key: int, code: nat)

  /** Lines 65 to 74; negating the least long overflows. */
  function ReportOf(entry: int): Report
    requires IsLong(entry)
  {
    var kind := if entry < 0 then Release else Press;
    var key := if entry >= 0 then entry else if entry == LONG_MIN then LONG_MIN else -entry;
    Report(kind, key, key % 0x1_0000_0000)
  }

  /** Exactly for every entry but the least long, the report is its sign and magnitude. */
  lemma ReportIsSignAndMagnitude(entry: int)
    requires IsLong(entry)
    ensures ReportOf(entry).kind == Release <==> entry < 0
    ensures entry != LONG_MIN <==> ReportOf(entry).key == (if entry < 0 then -entry else entry)
    ensures (-0x1_0000_0000 < entry < 0x1_0000_0000) <==>
            ReportOf(entry).code == (if entry < 0 then -entry else entry)
    ensures ReportOf(entry).code < 0x1_0000_0000
    ensures entry != LONG_MIN ==>
              ((if entry < 0 then -entry else entry) - ReportOf(entry).code) % 0x1_0000_0000 == 0
  {
    var key := ReportOf(entry).key;
    assert key - key % 0x1_0000_0000 == 0x1_0000_0000 * (key / 0x1_0000_0000);
  }

  function SignedNumber(negative: bool, d: string): int
    requires AllDigits(d)
  {
    var n: int := Number(d);
    if negative then -n else n
  }

  /** A minus, some digits and perhaps a newline. */
  lemma EntryOfNegative(s: string, d: string)
    requires AllDigits(d) && IsLong(SignedNumber(true, d))
    requires ParseUnsigned(s) == (if d == "" then Einval else Value(Number(d)))
    ensures Entry("-" + s) == SignedNumber(true, d)
  {
    assert ("-" + s)[1..] == s;
  }

  /** A plus, some digits and perhaps a newline: the code itself drops the plus. */
  lemma EntryOfPositive(s: string, d: string)
    requires AllDigits(d) && IsLong(SignedNumber(false, d)) && (s == "" || s[0] !in "+-")
    requires ParseUnsigned(s) == (if d == "" then Einval else Value(Number(d)))
    ensures Entry("+" + s) == SignedNumber(false, d)
  {
    assert ("+" + s)[1..] == s;
  }

  /** A sign and some digits, as read prints them, are entered as the signed number. */
  lemma EntryOfSigned(negative: bool, d: string, end: string)
    requires AllDigits(d) && (end == "" || end == "\n") && IsLong(SignedNumber(negative, d))
    ensures Entry((if negative then "-" else "+") + (d + end)) == SignedNumber(negative, d)
  {
    ParseDigits(d, end);
    if negative {
      EntryOfNegative(d + end, d);
    } else {
      assert d != "" ==> (d + end)[0] == d[0] && IsDigit(d[0]);
      EntryOfPositive(d + end, d);
    }
  }

  function Magnitude(v: int): nat {
    if v < 0 then -v else v
  }

  /** A buffer too short for the newline loses digits, and so the value, unless it is 0. */
  lemma TooShort(v: int, n: nat)
    requires IsLong(v) && 0 < n < |Printed(v)|
    ensures Entry(Truncated(Printed(v), n)) == v <==> v == 0
  {
    var d := Digits(Magnitude(v));
    var k := if n >= 2 then n - 2 else 0;
    assert k < |d|;
    if n == 1 {
      assert Truncated(Printed(v), n) == "";
    } else {
      assert Truncated(Printed(v), n) == (if v < 0 then "-" else "+") + (d[..k] + "");
      NumberOfDigits(Magnitude(v));
      if v != 0 {
        ShorterIsSmaller(Magnitude(v), k);
      } else {
        assert d[..k] == "";
      }
      EntryOfSigned(v < 0, d[..k], "");
    }
  }

  lemma StoredText(v: int, n: nat)
    requires IsLong(v) && n > 0
    ensures NUL in Stored(Printed(v), n) && Text(Stored(Printed(v), n)) == Truncated(Printed(v), n)
  {
    var t := Truncated(Printed(v), n);
    var d := Digits(Magnitude(v));
    forall j | 0 <= j < |t| ensures t[j] != NUL {
      assert t[j] == Printed(v)[j];
      assert 0 < j <= |d| ==> Printed(v)[j] == d[j-1] && IsDigit(d[j-1]);
    }
    assert Stored(Printed(v), n)[|t|] == NUL;
    NulAtIs(Stored(Printed(v), n), |t|);
  }

  /**
   The round trip: sending back what read has printed into a buffer of n bytes stores the
   same entry again if and only if the buffer has room for all of it but the terminator,
   or the entry is 0.
   */
  lemma ReadSendRoundTrip(v: int, n: nat)
    requires IsLong(v) && n > 0
    ensures NUL in Stored(Printed(v), n)
    ensures Entry(Text(Stored(Printed(v), n))) == v <==> n >= |Printed(v)| || v == 0
  {
    StoredText(v, n);
    if n < |Printed(v)| {
      TooShort(v, n);
    } else {
      var d := Digits(Magnitude(v));
      NumberOfDigits(Magnitude(v));
      var end := if n == |Printed(v)| then "" else "\n";
      assert Truncated(Printed(v), n) == (if v < 0 then "-" else "+") + (d + end);
      EntryOfSigned(v < 0, d, end);
    }
  }

  /** Any buffer of 21 bytes or more will do. */
  lemma RoomForAnyLong(v: int, n: nat)
    requires IsLong(v) && n >= 21
    ensures |Printed(v)| <= 21 && NUL in Stored(Printed(v), n) && Entry(Text(Stored(Printed(v), n))) == v
  {
    PowersOfTen();
    DigitsLength(Magnitude(v), 19);
    ReadSendRoundTrip(v, n);
  }

  // The driver.

  const KEY_MAX: nat := 0x2ff

  class Keyboard {
    var lastEntry: int
    const keymap: array<nat>   // vkeymap
    const keybit: array<bool>  // the key codes the input device declares
    var reports: seq<Report>

    ghost predicate Valid()
      reads this
    {
      IsLong(lastEntry) && keymap.Length == KEY_MAX && keybit.Length == KEY_MAX + 1
    }

    /** `vkbd_init` and `vinput_vkbd_init`: every key code below KEY_MAX, and no other. */
    constructor ()
      ensures Valid() && lastEntry == 0 && reports == []
      ensures forall c :: 0 <= c <= KEY_MAX ==> keybit[c] == (c < KEY_MAX)
    {
      lastEntry, reports := 0, [];
      keymap := new nat[0x2ff](_ => 0);
      keybit := new bool[0x300](_ => false);
      new;
      var i := 0;
      while i < 0x2ff
        invariant 0 <= i <= 0x2ff && forall j :: 0 <= j < i ==> keymap[j] == j
        invariant forall c :: 0 <= c < 0x300 ==> !keybit[c]
        modifies keymap
      {
        keymap[i] := i;
        i := i + 1;
      }
      i := 0;
      while i < 0x2ff
        invariant 0 <= i <= 0x2ff && forall j :: 0 <= j < 0x2ff ==> keymap[j] == j
        invariant forall c :: 0 <= c < 0x300 ==> keybit[c] == (c < i)
        modifies keybit
      {
        keybit[keymap[i]] := true;
        i := i + 1;
      }
    }

    /** `vinput_vkbd_read`: the length snprintf returns is that of the whole text. */
    method Read(len: nat) returns (buff: seq<char>, ret: nat)
      requires Valid()
      ensures buff == Stored(Printed(lastEntry), len) && ret == |Printed(lastEntry)|
    {
      var sign := if lastEntry < 0 then "-" else "+";
      var text := sign + Digits(if lastEntry < 0 then -lastEntry else lastEntry) + "\n";
      buff := if len == 0 then [] else (if |text| < len then text else text[..len-1]) + [NUL];
      ret := |text|;
    }

    /** `vinput_vkbd_send` */
    method Send(buff: string, len: int) returns (ret: int)
      requires Valid()
      modifies this
      ensures Valid() && lastEntry == Entry(buff) && ret == len
      ensures reports == old(reports) + [ReportOf(Entry(buff))]
    {
      var key := 0;
      var parsed;
      if buff != "" && buff[0] == '+' {
        parsed := Kstrtol(buff[1..]);
      } else {
        parsed := Kstrtol(buff);
      }
      if parsed.Value? { key := parsed.v; }
      lastEntry := key;
      var kind := Press;
      if key < 0 {
        kind := Release;
        key := if key == LONG_MIN then LONG_MIN else -key;
      }
      reports := reports + [Report(kind, key, key % 0x1_0000_0000)];
      ret := len;
    }
  }
}
