/** The header synthesiser `generate_bindings_header`
    (tools/src/bin/generate-bindings.rs:97-108): a version macro followed by one
    `#include` per public header, joined with newlines. */
module BindingsHeader {
  import opened ApiVersion
  import opened Strings
  import opened Symbols

  const HEX_DIGITS := "0123456789ABCDEF"

  predicate IsUpperHex(c: char)
  {
    '0' <= c <= '9' || 'A' <= c <= 'F'
  }

  predicate IsUpperHexText(s: string)
  {
    forall i :: 0 <= i < |s| ==> IsUpperHex(s[i])
  }

  function HexDigitValue(c: char): nat
    requires IsUpperHex(c)
  {
    if c <= '9' then c as int - '0' as int else c as int - 'A' as int + 10
  }

  /** The number written by a string of uppercase hex digits (independent
      reference for the formatter). */
  function HexValue(s: string): nat
    requires IsUpperHexText(s)
  {
    if s == "" then 0 else 16 * HexValue(s[..|s| - 1]) + HexDigitValue(s[|s| - 1])
  }

  function Pow16(n: nat): (p: nat)
    ensures p >= 1
  {
    if n == 0 then 1 else 16 * Pow16(n - 1)
  }

  /** The `width` lowest hex digits of `v`, uppercase, most significant first. */
  function HexPad(v: nat, width: nat): string
  {
    if width == 0 then "" else HexPad(v / 16, width - 1) + [HEX_DIGITS[v % 16]]
  }

  /** `format!("{:08X}", v)` for a `u32`: eight digits always suffice. */
  function Hex8(v: u32): string
  {
    HexPad(v as nat, 8)
  }

  lemma MulBounds(m: int, k: int)
    requires m > 0
    ensures k >= 1 ==> m * k >= m
    ensures k <= -1 ==> m * k <= -m
  {
  }

  /** The remainder is the unique `b` with `x == m * a + b` and `0 <= b < m`. */
  lemma ModUnique(x: int, m: int, a: int, b: int)
    requires m > 0 && x == m * a + b && 0 <= b < m
    ensures x % m == b
  {
    var k := x / m - a;
    assert m * k == b - x % m;
    MulBounds(m, k);
  }

  lemma ModSplit(v: nat, p: nat)
    requires p >= 1
    ensures 16 * ((v / 16) % p) + v % 16 == v % (16 * p)
  {
    var q, r := v / 16, v % 16;
    var a, b := q / p, q % p;
    assert q == p * a + b;
    assert v == 16 * q + r;
    assert 16 * q == (16 * p) * a + 16 * b;
    ModUnique(v, 16 * p, a, 16 * b + r);
  }

  /** Each digit reads back as its value. */
  lemma HexDigitRoundTrip(d: nat)
    requires d < 16
    ensures IsUpperHex(HEX_DIGITS[d]) && HexDigitValue(HEX_DIGITS[d]) == d
  {
  }

  /** `HexPad` writes exactly `width` uppercase digits whose value is `v` modulo `16^width`. */
  lemma {:induction false} HexPadValue(v: nat, width: nat)
    ensures |HexPad(v, width)| == width && IsUpperHexText(HexPad(v, width))
    ensures HexValue(HexPad(v, width)) == v % Pow16(width)
  {
    if width > 0 {
      var init, d := HexPad(v / 16, width - 1), HEX_DIGITS[v % 16];
      HexPadValue(v / 16, width - 1);
      var s := init + [d];
      assert HexPad(v, width) == s;
      HexDigitRoundTrip(v % 16);
      assert IsUpperHexText(s);
      assert s[..|s| - 1] == init;
      assert HexValue(s) == 16 * HexValue(init) + v % 16;
      ModSplit(v, Pow16(width - 1));
    }
  }

  /** The version literal is exactly eight uppercase hex digits and reads back as the version. */
  lemma Hex8RoundTrip(v: u32)
    ensures |Hex8(v)| == 8 && IsUpperHexText(Hex8(v))
    ensures HexValue(Hex8(v)) == v as nat
  {
    HexPadValue(v as nat, 8);
    assert Pow16(8) == 0x1_0000_0000 by {
      assert Pow16(0) == 1;
      assert Pow16(1) == 16;
      assert Pow16(2) == 0x100;
      assert Pow16(3) == 0x1000;
      assert Pow16(4) == 0x1_0000;
      assert Pow16(5) == 0x10_0000;
      assert Pow16(6) == 0x100_0000;
      assert Pow16(7) == 0x1000_0000;
    }
    ModUnique(v as nat, 0x1_0000_0000, 0, v as nat);
  }

  const API_VERSION_DEFINE := "#define API_VERSION 0x"

  /** `format!("#define API_VERSION 0x{:08X}", api_version)` */
  function DefineLine(v: u32): string
  {
    API_VERSION_DEFINE + Hex8(v)
  }

  /** `format!("#include \"{}\"", header)` */
  function IncludeLine(header: string): string
  {
    "#include \"" + header + "\""
  }

  /** One include line per header, in order. */
  function IncludeLines(headers: seq<string>): (lines: seq<string>)
    ensures |lines| == |headers|
    ensures forall i :: 0 <= i < |headers| ==> lines[i] == IncludeLine(headers[i])
  {
    if headers == [] then [] else [IncludeLine(headers[0])] + IncludeLines(headers[1..])
  }

  /** The lines `generate_bindings_header` collects before joining them. */
  function HeaderLines(api: ApiSymbols): seq<string>
  {
    [DefineLine(api.apiVersion)] + IncludeLines(api.headers)
  }

  /** `generate_bindings_header`: pushes the version line, then one include
      line per header, and joins the lines with `"\n"`. */
  method GenerateBindingsHeader(api: ApiSymbols) returns (text: string)
    ensures text == Join(HeaderLines(api), "\n")
  {
    var lines := [DefineLine(api.apiVersion)];
    var i := 0;
    while i < |api.headers|
      invariant 0 <= i <= |api.headers|
      invariant |lines| == i + 1 && lines[0] == DefineLine(api.apiVersion)
      invariant forall j :: 0 <= j < i ==> lines[j + 1] == IncludeLine(api.headers[j])
    {
      lines := lines + [IncludeLine(api.headers[i])];
      i := i + 1;
    }
    assert lines == HeaderLines(api);
    text := Join(lines, "\n");
  }

  /** When no header path holds a newline, the text splits back into exactly
      `1 + |headers|` lines: the version line, then the include lines in order. */
  lemma HeaderTextLines(api: ApiSymbols)
    requires forall i :: 0 <= i < |api.headers| ==> '\n' !in api.headers[i]
    ensures var lines := Split(Join(HeaderLines(api), "\n"), '\n');
      |lines| == 1 + |api.headers| &&
      lines[0] == DefineLine(api.apiVersion) &&
      forall i :: 0 <= i < |api.headers| ==> lines[i + 1] == IncludeLine(api.headers[i])
  {
    var lines := HeaderLines(api);
    Hex8RoundTrip(api.apiVersion);
    forall i | 0 <= i < |lines| ensures '\n' !in lines[i] {
      if i == 0 {
        assert forall k :: 0 <= k < 8 ==> IsUpperHex(Hex8(api.apiVersion)[k]);
      } else {
        assert lines[i] == "#include \"" + api.headers[i - 1] + "\"";
      }
    }
    SplitJoin(lines, '\n');
  }

  /** The text never ends with a newline: its last character closes the last line. */
  lemma HeaderNoTrailingNewline(api: ApiSymbols)
    ensures var text := Join(HeaderLines(api), "\n");
      |text| >= 1 && text[|text| - 1] != '\n'
  {
    var lines := HeaderLines(api);
    Hex8RoundTrip(api.apiVersion);
    JoinLast(lines, "\n");
  }

  /** Writing one more digit appends the digit of `v % 16` to the digits of `v / 16`. */
  lemma HexPadStep(v: nat, width: nat, init: string, d: nat)
    requires HexPad(v / 16, width) == init && d == v % 16
    ensures HexPad(v, width + 1) == init + [HEX_DIGITS[d]]
  {
  }

  lemma HexPadLow()
    ensures HexPad(1, 4) == "0001"
  {
    HexPadStep(0, 0, "", 0);
    HexPadStep(0, 1, "0", 0);
    HexPadStep(0, 2, "00", 0);
    HexPadStep(1, 3, "000", 1);
  }

  lemma HexPadMiddle()
    ensures HexPad(0x100, 6) == "000100"
  {
    HexPadLow();
    HexPadStep(0x10, 4, "0001", 0);
    HexPadStep(0x100, 5, "00010", 0);
  }

  /** The version 0x00010002 is written `00010002`. */
  lemma Hex8Example()
    ensures Hex8(0x0001_0002) == "00010002"
  {
    HexPadMiddle();
    HexPadStep(0x1000, 6, "000100", 0);
    HexPadStep(0x1_0002, 7, "0001000", 2);
  }

  /** Three lines joined with newlines. */
  lemma JoinThree(a: string, b: string, c: string)
    ensures Join([a, b, c], "\n") == a + "\n" + b + "\n" + c
  {
    assert [a, b, c][1..] == [b, c] && [b, c][1..] == [c];
    assert Join([b, c], "\n") == b + "\n" + c;
    assert a + "\n" + (b + "\n" + c) == a + "\n" + b + "\n" + c;
  }

  lemma DefineExample()
    ensures DefineLine(0x0001_0002) == "#define API_VERSION 0x00010002"
  {
    Hex8Example();
  }

  lemma IncludeExample()
    ensures IncludeLines(["a.h", "b.h"]) == ["#include \"a.h\"", "#include \"b.h\""]
  {
    var includes := IncludeLines(["a.h", "b.h"]);
    assert includes[0] == "#include \"a.h\"";
    assert includes[1] == "#include \"b.h\"";
  }

  lemma HeaderLinesExample(api: ApiSymbols)
    requires api.apiVersion == 0x0001_0002 && api.headers == ["a.h", "b.h"]
    ensures HeaderLines(api) == ["#define API_VERSION 0x00010002", "#include \"a.h\"", "#include \"b.h\""]
  {
    DefineExample();
    IncludeExample();
  }

  lemma JoinExample()
    ensures Join(["#define API_VERSION 0x00010002", "#include \"a.h\"", "#include \"b.h\""], "\n")
      == "#define API_VERSION 0x00010002\n#include \"a.h\"\n#include \"b.h\""
  {
    JoinThree("#define API_VERSION 0x00010002", "#include \"a.h\"", "#include \"b.h\"");
  }

  /** The version 0x00010002 with headers `a.h` and `b.h` gives the three expected lines. */
  lemma HeaderExample(api: ApiSymbols)
    requires api.apiVersion == 0x0001_0002 && api.headers == ["a.h", "b.h"]
    ensures Join(HeaderLines(api), "\n")
      == "#define API_VERSION 0x00010002\n#include \"a.h\"\n#include \"b.h\""
  {
    HeaderLinesExample(api);
    JoinExample();
  }
}
