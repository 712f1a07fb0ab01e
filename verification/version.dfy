/** The API version of the symbol manifest: the `u16` parse of each side of a
    `"major.minor"` value and the packing of the two into one `u32`
    (tools/src/bin/generate-bindings.rs, the `"Version"` arm of `load_symbols`). */
module ApiVersion {
  import opened Wrappers

  newtype u16 = x: int | 0 <= x < 0x1_0000
  newtype u32 = x: int | 0 <= x < 0x1_0000_0000

  predicate IsDigit(c: char)
  {
    '0' <= c <= '9'
  }

  predicate IsDigits(s: string)
  {
    forall i :: 0 <= i < |s| ==> IsDigit(s[i])
  }

  /** The number written by a string of decimal digits, most significant first. */
  function DigitsValue(s: string): nat
    requires IsDigits(s)
  {
    if s == "" then 0
    else 10 * DigitsValue(s[..|s| - 1]) + (s[|s| - 1] as int - '0' as int)
  }

  /** `u16::from_str`: an optional leading `'+'`, then one or more decimal
      digits whose value fits in 16 bits; anything else is an error. */
  function ParseU16(s: string): Option<u16>
  {
    if s == "" then None
    else
      var digits := if s[0] == '+' then s[1..] else s;
      if digits == "" || !IsDigits(digits) || DigitsValue(digits) > 0xFFFF then None
      else Some(DigitsValue(digits) as u16)
  }

  /** The shortest decimal text of `n` (independent reference for the parser). */
  function DecimalText(n: nat): (s: string)
    ensures s != "" && IsDigits(s)
  {
    if n < 10 then ['0' + n as char]
    else DecimalText(n / 10) + ['0' + (n % 10) as char]
  }

  lemma {:induction false} DecimalTextValue(n: nat)
    ensures DigitsValue(DecimalText(n)) == n
  {
    if n >= 10 {
      var s := DecimalText(n);
      assert s[..|s| - 1] == DecimalText(n / 10);
      DecimalTextValue(n / 10);
    }
  }

  /** Every 16-bit number parses back from its decimal text, with or without a
      leading `'+'`; a larger number is refused instead of wrapping around. */
  lemma ParseDecimalText(n: nat)
    ensures n <= 0xFFFF ==> ParseU16(DecimalText(n)) == Some(n as u16)
    ensures n <= 0xFFFF ==> ParseU16("+" + DecimalText(n)) == Some(n as u16)
    ensures n > 0xFFFF ==> ParseU16(DecimalText(n)) == None
  {
    DecimalTextValue(n);
    assert ("+" + DecimalText(n))[1..] == DecimalText(n);
  }

  /** A successful parse reads one or more digits after an optional `'+'`, and nothing else. */
  lemma ParseU16Accepts(s: string)
    requires ParseU16(s).Some?
    ensures s != "" && '.' !in s && '-' !in s
    ensures var digits := if s[0] == '+' then s[1..] else s;
      digits != "" && IsDigits(digits) && DigitsValue(digits) == ParseU16(s).value as int
  {
    var digits := if s[0] == '+' then s[1..] else s;
    forall i | 0 <= i < |s|
      ensures s[i] != '.' && s[i] != '-'
    {
      if s[0] != '+' {
        assert digits[i] == s[i];
      } else if i > 0 {
        assert digits[i - 1] == s[i];
      }
    }
  }

  /** `s.split_once(c)`: the text before and after the first `c`, or nothing
      when `c` does not occur. */
  function SplitOnce(s: string, c: char): (r: Option<(string, string)>)
    ensures r.None? <==> c !in s
    ensures r.Some? ==> s == r.value.0 + [c] + r.value.1 && c !in r.value.0
  {
    if s == "" then None
    else if s[0] == c then Some(("", s[1..]))
    else match SplitOnce(s[1..], c)
      case None => None
      case Some((before, after)) => Some(([s[0]] + before, after))
  }

  /** The split happens at the first occurrence of the separator. */
  lemma {:induction false} SplitOnceAt(before: string, after: string, c: char)
    requires c !in before
    ensures SplitOnce(before + [c] + after, c) == Some((before, after))
  {
    var s := before + [c] + after;
    if before == [] {
      assert s[0] == c && s[1..] == after;
    } else {
      assert s[1..] == before[1..] + [c] + after;
      SplitOnceAt(before[1..], after, c);
      assert [before[0]] + before[1..] == before;
    }
  }

  /** `((major as u32) << 16) | (minor as u32)`: the two 16-bit halves occupy
      disjoint bits, so the shift and the or are a multiplication and an addition. */
  function Pack(major: u16, minor: u16): u32
  {
    (major as int * 0x1_0000 + minor as int) as u32
  }

  /** `v >> 16` */
  function Major(v: u32): u16
  {
    (v as int / 0x1_0000) as u16
  }

  /** `v & 0xFFFF` */
  function Minor(v: u32): u16
  {
    (v as int % 0x1_0000) as u16
  }

  /** Unpacking a packed version gives back both halves, and every `u32` is
      the packing of its halves. */
  lemma PackRoundTrip(major: u16, minor: u16, v: u32)
    ensures Major(Pack(major, minor)) == major && Minor(Pack(major, minor)) == minor
    ensures Pack(Major(v), Minor(v)) == v
  {
  }

  datatype VersionError =
    | MissingDot      // `split_once('.')` found no dot
    | InvalidMajor    // the text before the first dot is not a `u16`
    | InvalidMinor    // the text after the first dot is not a `u16`

  /** The value of a public `"Version"` record, as `load_symbols` reads it. */
  function ParseVersion(value: string): Result<u32, VersionError>
  {
    match SplitOnce(value, '.')
    case None => Err(MissingDot)
    case Some((major, minor)) =>
      match ParseU16(major)
      case None => Err(InvalidMajor)
      case Some(ma) =>
        match ParseU16(minor)
        case None => Err(InvalidMinor)
        case Some(mi) => Ok(Pack(ma, mi))
  }

  /** A version written `"M.m"` with `M` and `m` in 16 bits reads as `M * 65536 + m`. */
  lemma ParseVersionText(major: nat, minor: nat)
    requires major <= 0xFFFF && minor <= 0xFFFF
    ensures ParseVersion(DecimalText(major) + "." + DecimalText(minor)).Ok?
    ensures ParseVersion(DecimalText(major) + "." + DecimalText(minor)).value as int
      == major * 0x1_0000 + minor
  {
    var m, n := DecimalText(major), DecimalText(minor);
    forall i | 0 <= i < |m| ensures m[i] != '.' {
      assert IsDigit(m[i]);
    }
    SplitOnceAt(m, n, '.');
    ParseDecimalText(major);
    ParseDecimalText(minor);
  }

  /** An accepted version has exactly one dot, with a parseable number on each side. */
  lemma ParseVersionOneDot(value: string)
    requires ParseVersion(value).Ok?
    ensures multiset(value)['.'] == 1
  {
    var (major, minor) := SplitOnce(value, '.').value;
    ParseU16Accepts(major);
    ParseU16Accepts(minor);
    assert value == major + ['.'] + minor;
    assert multiset(value) == multiset(major) + multiset{'.'} + multiset(minor);
  }

  /** A version without a dot is refused. */
  lemma MissingDotRefused()
    ensures ParseVersion("12") == Err(MissingDot)
    ensures ParseVersion("") == Err(MissingDot)
  {
  }

  /** Splitting happens at the first dot, so a third component makes the minor part unparseable. */
  lemma ThreeComponentsRefused()
    ensures ParseVersion("1.2.3") == Err(InvalidMinor)
  {
    SplitOnceAt("1", "2.3", '.');
    assert !IsDigits("2.3") by { assert !IsDigit("2.3"[1]); }
  }

  /** A major part beyond 16 bits is refused, not truncated. */
  lemma OutOfRangeMajorRefused()
    ensures ParseVersion("70000.1") == Err(InvalidMajor)
  {
    assert DecimalText(7) == "7";
    assert DecimalText(70) == "70";
    assert DecimalText(700) == "700";
    assert DecimalText(7000) == "7000";
    assert DecimalText(70000) == "70000";
    ParseDecimalText(70000);
    assert ParseU16("70000") == None;
    assert '.' !in "70000";
    SplitOnceAt("70000", "1", '.');
    var v := "70000" + "." + "1";
    assert v == "70000.1";
  }

  /** An empty side is refused. */
  lemma EmptyPartRefused()
    ensures ParseVersion("1.") == Err(InvalidMinor)
    ensures ParseVersion(".5") == Err(InvalidMajor)
  {
    SplitOnceAt("1", "", '.');
    SplitOnceAt("", "5", '.');
  }

  /** `u16::from_str` refuses a minus sign. */
  lemma MinusSignRefused()
    ensures ParseVersion("-1.0") == Err(InvalidMajor)
  {
    SplitOnceAt("-1", "0", '.');
    assert !IsDigits("-1") by { assert !IsDigit("-1"[0]); }
  }

  /** `u16::from_str` accepts a leading plus sign on either side. */
  lemma PlusSignAccepted()
    ensures ParseVersion("+1.+2") == Ok(Pack(1, 2))
  {
    assert DecimalText(1) == "1" && DecimalText(2) == "2";
    ParseDecimalText(1);
    ParseDecimalText(2);
    assert "+" + DecimalText(1) == "+1" && "+" + DecimalText(2) == "+2";
    assert ParseU16("+1") == Some(1) && ParseU16("+2") == Some(2);
    SplitOnceAt("+1", "+2", '.');
    var v := "+1" + "." + "+2";
    assert v == "+1.+2";
  }
}
