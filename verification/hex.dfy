/**
 * Hexadecimal text: the default filter and the decoding behind Skein.wrap(string),
 * __utils.itoa, and the row layout that toHexString produces.
 */
module HexText {
  import opened Wrappers
  import opened ByteCodec

  predicate IsHexDigit(c: char) {
    '0' <= c <= '9' || 'a' <= c <= 'f' || 'A' <= c <= 'F'
  }

  predicate IsUpperHexDigit(c: char) {
    '0' <= c <= '9' || 'A' <= c <= 'F'
  }

  predicate AllHexDigits(s: string) {
    forall i :: 0 <= i < |s| ==> IsHexDigit(s[i])
  }

  // ---------------------------------------------------------------- parsing

  /** The default separator of wrap: every run of characters outside [a-fA-F0-9] is deleted. */
  function HexFilter(s: string): (d: string)
    ensures AllHexDigits(d)
    ensures |d| <= |s|
  {
    if s == [] then [] else (if IsHexDigit(s[0]) then [s[0]] else []) + HexFilter(s[1..])
  }

  /** Filtering keeps a string of hex digits as it is ... */
  lemma {:induction false} HexFilterKeepsDigits(s: string)
    requires AllHexDigits(s)
    ensures HexFilter(s) == s
  {
    if s != [] {
      HexFilterKeepsDigits(s[1..]);
      assert s == [s[0]] + s[1..];
    }
  }

  /** ... drops a string with no hex digit in it entirely ... */
  lemma {:induction false} HexFilterDropsSeparators(s: string)
    requires forall i :: 0 <= i < |s| ==> !IsHexDigit(s[i])
    ensures HexFilter(s) == []
  {
    if s != [] {
      HexFilterDropsSeparators(s[1..]);
    }
  }

  /** ... works piecewise, so separators anywhere drop out independently ... */
  lemma {:induction false} HexFilterAppend(a: string, b: string)
    ensures HexFilter(a + b) == HexFilter(a) + HexFilter(b)
  {
    if a == [] {
      assert a + b == b;
    } else {
      var head: string := if IsHexDigit(a[0]) then [a[0]] else [];
      assert (a + b)[0] == a[0] && (a + b)[1..] == a[1..] + b;
      assert HexFilter(a + b) == head + HexFilter(a[1..] + b);
      HexFilterAppend(a[1..], b);
      assert HexFilter(a) == head + HexFilter(a[1..]);
    }
  }

  /** ... and so applying it twice is applying it once. */
  lemma HexFilterIdempotent(s: string)
    ensures HexFilter(HexFilter(s)) == HexFilter(s)
  {
    HexFilterKeepsDigits(HexFilter(s));
  }

  /** Value of one hex digit, case-insensitively. */
  function DigitValue(c: char): (v: nat)
    requires IsHexDigit(c)
    ensures v < 16
  {
    if '0' <= c <= '9' then c as int - '0' as int
    else if 'A' <= c <= 'F' then c as int - 'A' as int + 10
    else c as int - 'a' as int + 10
  }

  /**
   * Node's Buffer.from(digits, 'hex'): each pair of digits becomes one byte, high digit first;
   * a last unpaired digit is dropped.
   */
  function HexDecode(d: string): (bytes: seq<Byte>)
    requires AllHexDigits(d)
    ensures |bytes| == |d| / 2
    ensures forall k :: 0 <= k < |bytes| ==> bytes[k] == 16 * DigitValue(d[2 * k]) + DigitValue(d[2 * k + 1])
  {
    if |d| < 2 then [] else [16 * DigitValue(d[0]) + DigitValue(d[1])] + HexDecode(d[2..])
  }

  /** The bytes Skein.wrap makes of a string under the default separator. */
  function WrapBytes(text: string): (bytes: seq<Byte>) {
    HexDecode(HexFilter(text))
  }

  // ---------------------------------------------------------------- printing

  /** The entry of the __ascii table for n: an upper-case hex digit. */
  function Digit(n: nat): (c: char)
    requires n < 16
    ensures IsUpperHexDigit(c) && IsHexDigit(c) && DigitValue(c) == n
  {
    if n < 10 then ('0' as int + n) as char else ('A' as int + n - 10) as char
  }

  /** The upper-case hex numeral of v without leading zeros ("0" for zero). */
  function Digits(v: nat): (s: string)
    ensures 1 <= |s|
    ensures forall i :: 0 <= i < |s| ==> IsUpperHexDigit(s[i]) && IsHexDigit(s[i])
    decreases v
  {
    if v < 16 then [Digit(v)] else Digits(v / 16) + [Digit(v % 16)]
  }

  /** The value of a numeral, most significant digit first. */
  function HexValue(s: string): (v: nat)
    requires AllHexDigits(s)
  {
    if s == [] then 0 else 16 * HexValue(s[..|s| - 1]) + DigitValue(s[|s| - 1])
  }

  /** The numeral itoa produces denotes the number it was given, without a leading zero. */
  lemma {:induction false} DigitsDenote(v: nat)
    ensures HexValue(Digits(v)) == v
    ensures v > 0 ==> Digits(v)[0] != '0'
    decreases v
  {
    if v >= 16 {
      DigitsDenote(v / 16);
      var s := Digits(v);
      assert s[..|s| - 1] == Digits(v / 16);
      assert s[0] == Digits(v / 16)[0];
    }
  }

  function Repeat(c: char, n: nat): (s: string)
    ensures |s| == n && forall i :: 0 <= i < n ==> s[i] == c
  {
    if n == 0 then "" else [c] + Repeat(c, n - 1)
  }

  /** String.prototype.padStart(sz, pad) with a one-character pad; no pad means no padding. */
  function PadStart(s: string, sz: nat, pad: Option<char>): (p: string)
    ensures pad.Some? && |s| < sz ==>
              |p| == sz && p[sz - |s|..] == s && forall i :: 0 <= i < sz - |s| ==> p[i] == pad.value
    ensures pad.None? || sz <= |s| ==> p == s
  {
    if pad.Some? && |s| < sz then Repeat(pad.value, sz - |s|) + s else s
  }

  /**
   * __utils.itoa(v, sz, pad): collects hex digits from the least significant end until the
   * rest of the value is zero, then pads to sz; with sz > 0 it stops after sz digits, and if
   * digits were left over it returns the low sz digits unpadded. sz == 0 stands for an
   * absent size, which lets the loop run until the value is exhausted.
   */
  method Itoa(v: nat, sz: nat, pad: Option<char>) returns (s: string)
    requires v < 0x8000_0000
    ensures sz > 0 && |Digits(v)| > sz ==> s == Digits(v)[|Digits(v)| - sz..]
    ensures sz == 0 || |Digits(v)| <= sz ==> s == PadStart(Digits(v), sz, pad)
  {
    s := "";
    var vv := v;
    var cnt := 0;
    while sz == 0 || cnt < sz
      invariant Digits(vv) + s == Digits(v)
      invariant |s| == cnt && (sz > 0 ==> cnt <= sz)
      decreases vv
    {
      cnt := cnt + 1;
      var nn := vv % 16;
      s := [Digit(nn)] + s;
      if vv >= 16 {
        assert Digits(vv) == Digits(vv / 16) + [Digit(nn)];
      }
      vv := vv / 16;
      if vv == 0 {
        s := PadStart(s, sz, pad);
        return;
      }
    }
    assert Digits(v)[|Digits(v)| - sz..] == s;
  }

  /** The two characters toHexString prints for a byte. */
  function HexByte(b: Byte): (digits: string) {
    [Digit(b / 16), Digit(b % 16)]
  }

  /** Two hex digits decode to the one byte they spell. */
  lemma DecodePair(d: string)
    requires |d| == 2 && AllHexDigits(d)
    ensures HexDecode(d) == [16 * DigitValue(d[0]) + DigitValue(d[1])]
  {
    assert d[2..] == [];
  }

  /** The two digits of a byte denote it: hex decoding gives the byte back. */
  lemma HexByteDecodes(b: Byte)
    ensures |HexByte(b)| == 2 && IsUpperHexDigit(HexByte(b)[0]) && IsUpperHexDigit(HexByte(b)[1])
    ensures HexDecode(HexByte(b)) == [b]
  {
    var d := HexByte(b);
    assert 16 * DigitValue(d[0]) + DigitValue(d[1]) == b by {
      assert DigitValue(d[0]) == b / 16 && DigitValue(d[1]) == b % 16;
    }
    DecodePair(d);
  }

  /** A byte has a numeral of one or two digits. */
  lemma DigitsOfByte(b: Byte)
    ensures b < 16 ==> Digits(b) == [Digit(b)]
    ensures b >= 16 ==> Digits(b) == [Digit(b / 16), Digit(b % 16)]
  {
    if b >= 16 {
      assert Digits(b / 16) == [Digit(b / 16)];
    }
  }

  /** Padded to two digits with '0', the numeral of a byte is its two-digit image. */
  lemma ItoaPadsByte(b: Byte)
    ensures |Digits(b)| <= 2
    ensures PadStart(Digits(b), 2, Some('0')) == HexByte(b)
  {
    DigitsOfByte(b);
    if b < 16 {
      assert Repeat('0', 1) == [Digit(b / 16)];
    }
  }

  /** itoa(b, 2, '0') is exactly two upper-case digits for every byte, and they denote b. */
  lemma ItoaOfByte(b: Byte)
    ensures |Digits(b)| <= 2
    ensures PadStart(Digits(b), 2, Some('0')) == HexByte(b)
    ensures |HexByte(b)| == 2 && IsUpperHexDigit(HexByte(b)[0]) && IsUpperHexDigit(HexByte(b)[1])
    ensures HexDecode(HexByte(b)) == [b]
  {
    ItoaPadsByte(b);
    HexByteDecodes(b);
  }



  /** One cell of the hex column: two digits and a space. */
  function HexCell(b: Byte): (cell: string) {
    HexByte(b) + " "
  }

  /** The hex column of a row, built cell by cell as toHexString appends to bin. */
  function HexColumn(r: seq<Byte>): (s: string)
    ensures |s| == 3 * |r|
  {
    if r == [] then "" else HexColumn(r[..|r| - 1]) + HexCell(r[|r| - 1])
  }

  /** The character toHexString shows for a byte in the text column. */
  function Printable(b: Byte): (c: char)
    ensures 0x20 <= c as int <= 0x7E
  {
    if 0x20 <= b <= 0x7E then b as char else '.'
  }

  /** The text column of a row, built character by character as toHexString appends to txt. */
  function TextColumn(r: seq<Byte>): (s: string)
    ensures |s| == |r|
    ensures forall i :: 0 <= i < |r| ==> s[i] == Printable(r[i])
  {
    if r == [] then "" else TextColumn(r[..|r| - 1]) + [Printable(r[|r| - 1])]
  }

  /** The padding of a short last row: three spaces per missing cell. */
  function Blanks(n: nat): (s: string)
    ensures |s| == 3 * n
  {
    if n == 0 then "" else Blanks(n - 1) + "   "
  }

  /** One line of the dump for a row of at most sixteen bytes. */
  function Line(r: seq<Byte>): (line: string)
    requires |r| <= 16
  {
    HexColumn(r) + Blanks(16 - |r|) + "\t" + TextColumn(r) + "\n"
  }

  /** The dump of a byte sequence: one line per sixteen bytes, the last one possibly short. */
  function HexDump(bytes: seq<Byte>): (dump: string)
    decreases |bytes|
  {
    if bytes == [] then ""
    else if |bytes| <= 16 then Line(bytes)
    else Line(bytes[..16]) + HexDump(bytes[16..])
  }

  /** Every line is 50 characters plus one per byte shown, whatever the bytes. */
  lemma LineLength(r: seq<Byte>)
    requires |r| <= 16
    ensures |Line(r)| == 50 + |r|
  {
  }

  /** The dump has one line per started row of sixteen bytes. */
  lemma {:induction false} HexDumpLength(bytes: seq<Byte>)
    ensures |HexDump(bytes)| == 50 * ((|bytes| + 15) / 16) + |bytes|
    decreases |bytes|
  {
    if |bytes| > 16 {
      HexDumpLength(bytes[16..]);
      LineLength(bytes[..16]);
    } else if bytes != [] {
      LineLength(bytes);
    }
  }

  /** Completing a row after whole rows adds exactly that row's line to the dump. */
  lemma {:induction false} HexDumpAppendRow(a: seq<Byte>, rows: nat, r: seq<Byte>)
    requires |a| == 16 * rows && 1 <= |r| <= 16
    ensures HexDump(a + r) == HexDump(a) + Line(r)
    decreases rows
  {
    if a == [] {
      assert a + r == r;
    } else {
      var rest := a[16..];
      assert (a + r)[..16] == a[..16];
      assert (a + r)[16..] == rest + r;
      assert HexDump(a + r) == Line(a[..16]) + HexDump(rest + r);
      HexDumpAppendRow(rest, rows - 1, r);
      assert HexDump(a) == Line(a[..16]) + HexDump(rest) by {
        if |a| == 16 {
          assert rest == [] && a[..16] == a;
        }
      }
    }
  }

  /** Appending one byte to a row appends its cell to the hex column and its character to the text column. */
  lemma ExtendRow(bytes: seq<Byte>, lo: nat, i: nat)
    requires lo <= i < |bytes|
    ensures HexColumn(bytes[lo..i + 1]) == HexColumn(bytes[lo..i]) + HexCell(bytes[i])
    ensures TextColumn(bytes[lo..i + 1]) == TextColumn(bytes[lo..i]) + [Printable(bytes[i])]
  {
    assert bytes[lo..i + 1][..i - lo] == bytes[lo..i];
  }

  /** A row closed at hi adds its line to the dump of the whole rows before it. */
  lemma CloseRow(bytes: seq<Byte>, rows: nat, hi: nat)
    requires 16 * rows < hi <= |bytes| && hi - 16 * rows <= 16
    ensures HexDump(bytes[..hi]) == HexDump(bytes[..16 * rows]) + Line(bytes[16 * rows..hi])
  {
    var lo := 16 * rows;
    assert bytes[..hi] == bytes[..lo] + bytes[lo..hi];
    HexDumpAppendRow(bytes[..lo], rows, bytes[lo..hi]);
  }

  /** The last row, however short, closes the dump. */
  lemma CloseLast(bytes: seq<Byte>, rows: nat, str: string, bin: string, pad: string, txt: string)
    requires 16 * rows < |bytes| <= 16 * rows + 16
    requires str == HexDump(bytes[..16 * rows])
    requires bin == HexColumn(bytes[16 * rows..|bytes|]) && txt == TextColumn(bytes[16 * rows..|bytes|])
    requires pad == Blanks(16 - (|bytes| - 16 * rows))
    ensures str + (bin + pad + "\t" + txt + "\n") == HexDump(bytes)
  {
    var a, r := bytes[..16 * rows], bytes[16 * rows..|bytes|];
    assert bin + pad + "\t" + txt + "\n" == Line(r) by {
      LineShape(r, bin, pad, txt);
    }
    assert HexDump(bytes) == HexDump(a) + Line(r) by {
      assert a + r == bytes;
      HexDumpAppendRow(a, rows, r);
    }
  }

  /** The columns toHexString accumulates for a row, joined as it joins them, are that row's line. */
  lemma LineShape(r: seq<Byte>, bin: string, pad: string, txt: string)
    requires |r| <= 16
    requires bin == HexColumn(r) && pad == Blanks(16 - |r|) && txt == TextColumn(r)
    ensures bin + pad + "\t" + txt + "\n" == Line(r)
  {
  }

  /** A full row needs no padding: its columns joined with a tab are its line. */
  lemma FullLineShape(r: seq<Byte>, bin: string, txt: string)
    requires |r| == 16 && bin == HexColumn(r) && txt == TextColumn(r)
    ensures bin + "\t" + txt + "\n" == Line(r)
  {
    assert Blanks(0) == "";
    assert bin + Blanks(16 - |r|) == bin;
  }

  /**
   * What toHexString has built after i bytes: the lines of the whole rows in str, the open
   * row's columns in bin and txt.
   */
  ghost predicate DumpState(bytes: seq<Byte>, i: nat, rows: nat, cols: nat, str: string, bin: string, txt: string) {
    16 * rows + cols == i <= |bytes| && cols < 16 &&
    str == HexDump(bytes[..16 * rows]) &&
    bin == HexColumn(bytes[16 * rows..i]) && txt == TextColumn(bytes[16 * rows..i])
  }

  /** One more byte that does not complete its row extends both open columns. */
  lemma DumpCell(bytes: seq<Byte>, i: nat, rows: nat, cols: nat, str: string, bin: string, txt: string)
    requires DumpState(bytes, i, rows, cols, str, bin, txt) && i < |bytes| && cols + 1 < 16
    ensures DumpState(bytes, i + 1, rows, cols + 1, str, bin + HexCell(bytes[i]), txt + [Printable(bytes[i])])
  {
    ExtendRow(bytes, 16 * rows, i);
  }

  /** The sixteenth byte of a row closes it: its line joins str and the columns start empty. */
  lemma DumpRow(bytes: seq<Byte>, i: nat, rows: nat, cols: nat, str: string, bin: string, txt: string)
    requires DumpState(bytes, i, rows, cols, str, bin, txt) && i < |bytes| && cols + 1 == 16
    ensures DumpState(bytes, i + 1, rows + 1, 0,
                      str + ((bin + HexCell(bytes[i])) + "\t" + (txt + [Printable(bytes[i])]) + "\n"), "", "")
  {
    var lo, hi := 16 * rows, 16 * (rows + 1);
    var line := (bin + HexCell(bytes[i])) + "\t" + (txt + [Printable(bytes[i])]) + "\n";
    assert line == Line(bytes[lo..i + 1]) by {
      ExtendRow(bytes, lo, i);
      FullLineShape(bytes[lo..i + 1], bin + HexCell(bytes[i]), txt + [Printable(bytes[i])]);
    }
    assert str + line == HexDump(bytes[..hi]) by {
      CloseRow(bytes, rows, i + 1);
    }
    assert bytes[hi..i + 1] == [];
  }

  /** When the bytes end with a whole row, str already is the dump of all of them. */
  lemma DumpEndClosed(bytes: seq<Byte>, rows: nat, cols: nat, str: string, bin: string, txt: string)
    requires DumpState(bytes, |bytes|, rows, cols, str, bin, txt) && cols == 0
    ensures str == HexDump(bytes)
  {
    assert bytes[..16 * rows] == bytes;
  }

  /** When a short row is open at the end, str plus that row padded and closed is the dump. */
  lemma DumpEndOpen(bytes: seq<Byte>, rows: nat, cols: nat, str: string, bin: string, txt: string)
    requires DumpState(bytes, |bytes|, rows, cols, str, bin, txt) && cols > 0
    ensures str + ((bin + Blanks(16 - cols)) + "\t" + txt + "\n") == HexDump(bytes)
  {
    CloseLast(bytes, rows, str, bin, Blanks(16 - cols), txt);
  }

  /** The hex digits of a row, two per byte, with nothing between them. */
  function HexPairs(r: seq<Byte>): (s: string)
    ensures |s| == 2 * |r| && AllHexDigits(s)
  {
    if r == [] then "" else HexPairs(r[..|r| - 1]) + HexByte(r[|r| - 1])
  }

  /** Under wrap's filter the spaces of the hex column vanish and only the digit pairs remain. */
  lemma {:induction false} HexColumnDigits(r: seq<Byte>)
    ensures HexFilter(HexColumn(r)) == HexPairs(r)
  {
    if r != [] {
      var init := r[..|r| - 1];
      var b := r[|r| - 1];
      HexColumnDigits(init);
      HexByteDecodes(b);
      assert AllHexDigits(HexByte(b));
      HexFilterKeepsDigits(HexByte(b));
      assert HexFilter(" ") == "";
      HexFilterAppend(HexByte(b), " ");
      HexFilterAppend(HexColumn(init), HexCell(b));
      assert HexColumn(r) == HexColumn(init) + HexCell(b);
    }
  }

  /** Wrapping the hex column of a row gives the row back: the dump and wrap agree on the format. */
  lemma {:induction false} HexColumnRoundTrip(r: seq<Byte>)
    ensures WrapBytes(HexColumn(r)) == r
  {
    HexColumnDigits(r);
    HexPairsDecode(r);
  }

  lemma {:induction false} HexPairsDecode(r: seq<Byte>)
    ensures HexDecode(HexPairs(r)) == r
  {
    if r != [] {
      var init := r[..|r| - 1];
      var b := r[|r| - 1];
      HexPairsDecode(init);
      HexByteDecodes(b);
      assert AllHexDigits(HexByte(b));
      assert HexPairs(r) == HexPairs(init) + HexByte(b);
      HexDecodeAppend(HexPairs(init), HexByte(b));
      assert r == init + [b];
    }
  }

  /** Decoding whole pairs is done pair by pair. */
  lemma HexDecodeAppend(a: string, b: string)
    requires AllHexDigits(a) && AllHexDigits(b) && |a| % 2 == 0
    ensures AllHexDigits(a + b)
    ensures HexDecode(a + b) == HexDecode(a) + HexDecode(b)
  {
    var ab := a + b;
    assert AllHexDigits(ab);
    var h := |a| / 2;
    assert |ab| / 2 == h + |b| / 2;
    var l, r := HexDecode(ab), HexDecode(a) + HexDecode(b);
    forall k | 0 <= k < |l| ensures l[k] == r[k] {
      if k < h {
        SamePairSameByte(ab, a, k, k);
      } else {
        var j := k - h;
        assert 2 * k == |a| + 2 * j && ab[2 * k] == b[2 * j] && ab[2 * k + 1] == b[2 * j + 1];
        SamePairSameByte(ab, b, k, j);
      }
    }
  }

  /** Two digit strings with the same pair at positions k and j decode to the same byte there. */
  lemma SamePairSameByte(d: string, e: string, k: nat, j: nat)
    requires AllHexDigits(d) && AllHexDigits(e) && k < |d| / 2 && j < |e| / 2
    requires d[2 * k] == e[2 * j] && d[2 * k + 1] == e[2 * j + 1]
    ensures HexDecode(d)[k] == HexDecode(e)[j]
  {
  }


}
