/** Octets and the two text conversions the scanner prints with:
    `%.2X` (two upper-case hexadecimal digits) and `%4d` on a signed octet. */
module Bytes {

  /** An unsigned octet (`uint8_t`). */
  newtype uint8 = x: int | 0 <= x < 0x100

  datatype Option<+T> = None | Some(value: T)

  /** `(int8_t) b`: two's-complement reinterpretation of an octet. */
  function Signed(b: uint8): (r: int)
    ensures -128 <= r < 128
    ensures (r + 0x100) % 0x100 == b as int
  {
    if b < 0x80 then b as int else b as int - 0x100
  }

  /** One upper-case hexadecimal digit, as `%X` prints it. */
  function HexDigit(d: nat): (c: char)
    requires d < 16
    ensures IsHexDigit(c)
  {
    if d < 10 then ('0' as int + d) as char else ('A' as int + d - 10) as char
  }

  predicate IsHexDigit(c: char) {
    ('0' <= c <= '9') || ('A' <= c <= 'F')
  }

  /** Value of an upper-case hexadecimal digit. */
  function HexValue(c: char): (d: nat)
    requires IsHexDigit(c)
    ensures d < 16 && HexDigit(d) == c
  {
    if c <= '9' then c as int - '0' as int else c as int - 'A' as int + 10
  }

  /** `%.2X` of one octet. */
  function HexByte(b: uint8): (s: string)
    ensures |s| == 2 && IsHexDigit(s[0]) && IsHexDigit(s[1])
    ensures HexValue(s[0]) * 16 + HexValue(s[1]) == b as int
  {
    [HexDigit(b as int / 16), HexDigit(b as int % 16)]
  }

  /** Inverse of HexByte on a pair of upper-case digits. */
  function UnhexByte(hi: char, lo: char): uint8
    requires IsHexDigit(hi) && IsHexDigit(lo)
  {
    (HexValue(hi) * 16 + HexValue(lo)) as uint8
  }

  lemma HexByteRoundTrip(b: uint8)
    ensures UnhexByte(HexByte(b)[0], HexByte(b)[1]) == b
  {
  }

  /** The octets printed back to back as `%.2X` with no separator,
      built from the front as a loop that prints byte after byte does. */
  function HexBytes(v: seq<uint8>): (s: string)
    ensures |s| == 2 * |v|
  {
    if v == [] then "" else HexBytes(v[..|v| - 1]) + HexByte(v[|v| - 1])
  }

  /** Reads back a text of upper-case hexadecimal digit pairs. */
  function UnhexBytes(s: string): Option<seq<uint8>>
    decreases |s|
  {
    if s == [] then Some([])
    else if |s| < 2 || !IsHexDigit(s[|s| - 2]) || !IsHexDigit(s[|s| - 1]) then None
    else match UnhexBytes(s[..|s| - 2])
      case None => None
      case Some(front) => Some(front + [UnhexByte(s[|s| - 2], s[|s| - 1])])
  }

  /** The hexadecimal rendering loses nothing: the octets can be read back. */
  lemma {:induction false} HexBytesRoundTrip(v: seq<uint8>)
    ensures UnhexBytes(HexBytes(v)) == Some(v)
  {
    if v != [] {
      var front := v[..|v| - 1];
      HexBytesRoundTrip(front);
      var s := HexBytes(v);
      assert s[..|s| - 2] == HexBytes(front);
      HexByteRoundTrip(v[|v| - 1]);
      assert front + [v[|v| - 1]] == v;
    }
  }

  /** Octet `i` occupies characters 2i and 2i+1 of the rendering. */
  lemma {:induction false} HexBytesAt(v: seq<uint8>, i: nat)
    requires i < |v|
    ensures HexBytes(v)[2 * i .. 2 * i + 2] == HexByte(v[i])
  {
    var front := v[..|v| - 1];
    if i < |v| - 1 {
      HexBytesAt(front, i);
      assert HexBytes(v)[..2 * |front|] == HexBytes(front);
    }
  }

  /** `%c` of each octet: the octet value becomes the character code, unchanged. */
  function Chars(v: seq<uint8>): (s: string)
    ensures |s| == |v|
  {
    if v == [] then "" else Chars(v[..|v| - 1]) + [v[|v| - 1] as int as char]
  }

  lemma {:induction false} CharsVerbatim(v: seq<uint8>)
    ensures forall i :: 0 <= i < |v| ==> Chars(v)[i] as int == v[i] as int
  {
    if v != [] {
      CharsVerbatim(v[..|v| - 1]);
    }
  }

  /** Decimal digits of a natural number, most significant first. */
  function Digits(n: nat): (s: string)
    ensures 1 <= |s|
    ensures forall i :: 0 <= i < |s| ==> '0' <= s[i] <= '9'
    decreases n
  {
    if n < 10 then [('0' as int + n) as char] else Digits(n / 10) + [('0' as int + n % 10) as char]
  }

  /** Value of a text of decimal digits. */
  function DigitsValue(s: string): nat
    requires forall i :: 0 <= i < |s| ==> '0' <= s[i] <= '9'
  {
    if s == [] then 0 else 10 * DigitsValue(s[..|s| - 1]) + (s[|s| - 1] as int - '0' as int)
  }

  lemma {:induction false} DigitsRoundTrip(n: nat)
    ensures DigitsValue(Digits(n)) == n
    decreases n
  {
    if n >= 10 {
      DigitsRoundTrip(n / 10);
      var s := Digits(n);
      assert s[..|s| - 1] == Digits(n / 10);
    }
  }

  /** `%d`: optional minus sign, then the digits of the magnitude. */
  function Decimal(x: int): string
  {
    if x < 0 then "-" + Digits(-x) else Digits(x)
  }

  /** `%4d`: the decimal text right-justified in a column of width four. */
  function Width4(x: int): string
  {
    var d := Decimal(x);
    (if |d| < 4 then Spaces(4 - |d|) else "") + d
  }

  function Spaces(n: nat): (r: string)
    ensures |r| == n && forall i :: 0 <= i < n ==> r[i] == ' '
  {
    if n == 0 then "" else Spaces(n - 1) + " "
  }

  /** Every signed octet fits the four-character column, so the column
      always has width exactly four and ends with the value's decimal text. */
  lemma RssiColumn(b: uint8)
    ensures |Width4(Signed(b))| == 4
    ensures var d := Decimal(Signed(b)); Width4(Signed(b))[4 - |d|..] == d
    ensures forall i :: 0 <= i < 4 - |Decimal(Signed(b))| ==> Width4(Signed(b))[i] == ' '
  {
    var x := Signed(b);
    var m: nat := if x < 0 then -x else x;
    assert m <= 128;
    DigitsShort(m);
    var d := Decimal(x);
    assert |d| <= 4;
  }

  lemma {:induction false} DigitsShort(m: nat)
    requires m < 1000
    ensures |Digits(m)| <= 3
  {
    if m >= 10 {
      DigitsShort(m / 10);
      if m / 10 >= 10 {
        assert |Digits(m / 10 / 10)| == 1;
      }
    }
  }

  /** The texts of successive `printf` calls, one after another. */
  function Join(pieces: seq<string>): string
  {
    if pieces == [] then "" else Join(pieces[..|pieces| - 1]) + pieces[|pieces| - 1]
  }

  lemma JoinAppend(pieces: seq<string>, piece: string)
    ensures Join(pieces + [piece]) == Join(pieces) + piece
  {
    assert (pieces + [piece])[..|pieces|] == pieces;
  }
}
