/**
 * Whole uses of the Skein class: the behaviours the unit tests of skein.js exercise, the
 * round trips a reader relies on, storage shared between cuts, and the inputs that show the
 * three defects of the as-written operations next to their corrected versions.
 */
module SkeinScenarios {
  import opened Wrappers
  import opened ByteCodec
  import opened HexText
  import opened Skeins

  /** A fresh skein of the given capacity with the values put into it one by one. */
  method Filled(capacity: nat, values: seq<Byte>) returns (skein: Skein)
    requires |values| <= capacity
    ensures fresh(skein) && fresh(skein.buf) && skein.Valid()
    ensures skein.position == |values| && skein.limit == capacity && skein.Capacity() == capacity
    ensures skein.buf[..|values|] == values
  {
    skein := new Skein.Allocate(capacity);
    var i := 0;
    while i < |values|
      invariant 0 <= i <= |values| && skein.Valid() && fresh(skein.buf)
      invariant skein.position == i && skein.limit == capacity && skein.Capacity() == capacity
      invariant skein.buf[..i] == values[..i]
    {
      var r := skein.Put(values[i]);
      i := i + 1;
    }
  }

  /** Reads every remaining byte with get, in order. */
  method ReadAll(skein: Skein) returns (read: seq<Byte>)
    requires skein.Valid()
    modifies skein`position
    ensures read == old(skein.buf[skein.position..skein.limit])
    ensures skein.position == skein.limit
  {
    read := [];
    while skein.HasRemaining()
      invariant skein.Valid() && old(skein.position) <= skein.position
      invariant read == skein.buf[old(skein.position)..skein.position]
      decreases skein.Remaining()
    {
      var g := skein.Get();
      read := read + [g.value];
    }
  }

  /**
   * Two bytes put here, three put into a second skein that is flipped, the second appended
   * with putSkein, this one flipped: five bytes remain here, none there, and they read 1 to 5.
   */
  method PutSkeinScenario() returns (remaining: nat, otherRemaining: nat, read: seq<Byte>)
    ensures remaining == 5 && otherRemaining == 0
    ensures read == [1, 2, 3, 4, 5]
  {
    var skein := Filled(1024, [1, 2]);
    var skein2 := Filled(1024, [3, 4, 5]);
    skein2.Flip();
    var r := skein.PutSkein(skein2, None);
    skein.Flip();
    assert skein.buf[..5] == [1, 2] + [3, 4, 5];
    remaining, otherRemaining := skein.Remaining(), skein2.Remaining();
    read := ReadAll(skein);
  }

  /**
   * putArray(values, from, count) into an empty skein of 1024 bytes, flip, get: a count above
   * 1024 is refused with nothing written; otherwise the slice fits and is all there is to read.
   */
  method PutArrayThenGet(values: seq<Byte>, from: Option<nat>, count: Option<nat>) returns (put: Outcome, size: nat, first: Result<Byte>)
    requires |values| <= 1024
    ensures put == if count.Some? && 1024 < count.value then Fail(BufferOverflow) else Pass
    ensures put.Fail? ==> size == 0 && first == Err(BufferOverflow)
    ensures put.Pass? ==>
              var piece := ArrayPiece(values, from, count);
              size == |piece| && first == if piece == [] then Err(BufferOverflow) else Ok(piece[0])
  {
    var skein := new Skein.Allocate(1024);
    ghost var piece := ArrayPiece(values, from, count);
    put := skein.PutArray(values, from, count);
    if put.Pass? {
      assert Overwrite(skein.buf[..], 0, piece)[..|piece|] == piece;
      assert skein.buf[..|piece|] == piece;
    }
    skein.Flip();
    size := skein.Remaining();
    first := skein.Get();
  }

  /** putArray of the whole array, from index 2 on, and one element from index 3. */
  method PutArrayScenario() returns (puts: seq<Outcome>, sizes: seq<nat>, firsts: seq<Result<Byte>>)
    ensures puts == [Pass, Pass, Pass]
    ensures sizes == [5, 3, 1]
    ensures firsts == [Ok(1), Ok(3), Ok(4)]
  {
    var values: seq<Byte> := [1, 2, 3, 4, 5];
    var p1, n1, g1 := PutArrayThenGet(values, None, None);
    var p2, n2, g2 := PutArrayThenGet(values, Some(2), None);
    var p3, n3, g3 := PutArrayThenGet(values, Some(3), Some(1));
    puts, sizes, firsts := [p1, p2, p3], [n1, n2, n3], [g1, g2, g3];
  }

  /** A fresh skein of the given capacity after putArray(values): the values lie at its front. */
  method WithArray(capacity: nat, values: seq<Byte>) returns (skein: Skein)
    requires |values| <= capacity
    ensures fresh(skein) && fresh(skein.buf) && skein.Valid()
    ensures skein.position == |values| && skein.limit == capacity && skein.Capacity() == capacity
    ensures skein.buf[..|values|] == values
  {
    skein := new Skein.Allocate(capacity);
    var r := skein.PutArray(values, None, None);
  }

  /** A cut of three bytes from five holds exactly the first three. */
  method CutScenario() returns (pieceRemaining: nat, rest: nat, read: seq<Byte>)
    ensures pieceRemaining == 3 && rest == 2
    ensures read == [1, 2, 3]
  {
    var skein := WithArray(1024, [1, 2, 3, 4, 5]);
    skein.Flip();
    var piece := skein.Cut(3);
    pieceRemaining, rest := piece.Remaining(), skein.Remaining();
    assert piece.buf[0..3] == [1, 2, 3];
    read := ReadAll(piece);
  }

  /** Node's hex decoding of the digits 0 1 f 0 0 F: case does not matter. */
  lemma DecodeSample(d: string)
    requires |d| == 6 && d[0] == '0' && d[1] == '1' && d[2] == 'f' && d[3] == '0' && d[4] == '0' && d[5] == 'F'
    ensures AllHexDigits(d) && HexDecode(d) == [0x01, 0xF0, 0x0F]
  {
    assert AllHexDigits(d);
    var bytes := HexDecode(d);
    assert bytes[0] == 0x01 && bytes[1] == 0xF0 && bytes[2] == 0x0F;
  }

  /** Any separator without hex digits between the pairs "01", "f0" and "0F" leaves the bytes 01 F0 0F. */
  lemma WrapWithSeparator(sep: string)
    requires forall i :: 0 <= i < |sep| ==> !IsHexDigit(sep[i])
    ensures WrapBytes("01" + sep + "f0" + sep + "0F") == [0x01, 0xF0, 0x0F]
  {
    var a := "01" + sep;
    var b := a + "f0";
    var c := b + sep;
    HexFilterDropsSeparators(sep);
    HexFilterKeepsDigits("01");
    HexFilterKeepsDigits("f0");
    HexFilterKeepsDigits("0F");
    HexFilterAppend("01", sep);
    HexFilterAppend(a, "f0");
    HexFilterAppend(b, sep);
    HexFilterAppend(c, "0F");
    var d := HexFilter(c + "0F");
    assert d == "01" + "f0" + "0F";
    DecodeSample(d);
  }

  /** Skein.wrap of "01", "f0" and "0F" joined by the separator, then every byte read with get. */
  method WrapAndRead(sep: string) returns (read: seq<Byte>)
    requires forall i :: 0 <= i < |sep| ==> !IsHexDigit(sep[i])
    ensures read == [0x01, 0xF0, 0x0F]
  {
    var skein := new Skein.WrapHex("01" + sep + "f0" + sep + "0F");
    WrapWithSeparator(sep);
    read := ReadAll(skein);
  }

  /** wrap of hex text: spaces, or commas and spaces, between the pairs are dropped; case does not matter. */
  method WrapScenario() returns (spaced: seq<Byte>, commas: seq<Byte>)
    ensures spaced == [0x01, 0xF0, 0x0F]
    ensures commas == [0x01, 0xF0, 0x0F]
  {
    spaced := WrapAndRead(" ");
    commas := WrapAndRead(", ");
  }

  /** An unsigned value put at the mark and read back after reset is the value put, in either order. */
  method UIntThroughSkein(order: Order, v: int, sz: nat) returns (put: Outcome, got: Result<int>)
    ensures put == if sz > 8 then Fail(BufferOverflow)
                   else if !ValidWidth(sz) || !InUIntRange(v, sz) then Fail(OutOfRange)
                   else Pass
    ensures put.Pass? ==> got == Ok(v)
  {
    var skein := new Skein.Allocate(8);
    skein.SetOrder(order);
    skein.Mark();
    put := skein.PutUInt(v, sz);
    skein.Reset();
    got := skein.GetUInt(sz);
    if put.Pass? {
      UIntRoundTrip(order, v, sz);
    }
  }

  /** A signed value written and read back through flip is the value written, in either order. */
  method IntThroughSkein(order: Order, v: int, sz: nat) returns (put: Outcome, got: Result<int>)
    ensures put == if sz > 8 then Fail(BufferOverflow)
                   else if !ValidWidth(sz) || !InIntRange(v, sz) then Fail(OutOfRange)
                   else Pass
    ensures put.Pass? ==> got == Ok(v)
  {
    var skein := new Skein.Allocate(8);
    skein.SetOrder(order);
    put := skein.PutInt(v, sz);
    skein.Flip();
    got := skein.GetInt(sz);
    if put.Pass? {
      IntRoundTrip(order, v, sz);
    }
  }

  /**
   * A float or double image stored and loaded in the same order comes back as it was; stored
   * little-endian it lies in memory reversed.
   */
  method ImageThroughSkein(order: Order, image: seq<Byte>) returns (got: Result<seq<Byte>>, stored: seq<Byte>)
    requires |image| == 4 || |image| == 8
    ensures got == Ok(image)
    ensures stored == if order == BigEndian then image else Reverse(image)
  {
    var skein := new Skein.Allocate(8);
    skein.SetOrder(order);
    var r := skein.PutImage(image);
    skein.Flip();
    stored := skein.buf[..|image|];
    got := skein.GetImage(|image|);
    OrientedInvolution(order, image);
  }

  /** Eight bytes put, four read, compact: the four unread ones are at the front, ready to append after. */
  method CompactScenario() returns (position: nat, limit: nat, front: seq<Byte>)
    ensures position == 4 && limit == 10
    ensures front == [5, 6, 7, 8]
  {
    var skein := WithArray(10, [1, 2, 3, 4, 5, 6, 7, 8]);
    skein.Flip();
    var r := skein.Skip(4);
    assert skein.buf[4..8] == [5, 6, 7, 8];
    skein.Compact();
    position, limit := skein.position, skein.limit;
    front := skein.buf[..4];
  }

  /**
   * A byte written through a cut is read through the skein it was cut from and through a
   * duplicate: the storage is shared. Moving one cursor leaves the others where they were.
   */
  method AliasingScenario() returns (seen: Byte, dupSeen: Byte, skeinPosition: nat, dupPosition: nat)
    ensures seen == 9 && dupSeen == 9
    ensures skeinPosition == 1 && dupPosition == 0
  {
    var skein := WithArray(4, [1, 2, 3, 4]);
    skein.Flip();
    var dup := skein.Duplicate();
    var piece := skein.Cut(2);
    var r := piece.Put(9);
    assert skein.buf[0] == 9;
    skein.Rewind();
    var g := skein.Get();
    skeinPosition, dupPosition := skein.position, dup.position;
    var h := dup.Get();
    seen, dupSeen := g.value, h.value;
  }

  /**
   * putArray as written into a one-byte skein with a two-element array and no count: it fails,
   * yet the first element is written and the position has moved. The corrected version fails
   * with nothing written.
   */
  method PutArrayPartialWrite() returns (r: Outcome, position: nat, first: Byte, r': Outcome, position': nat, first': Byte)
    ensures r == Fail(BufferOverflow) && position == 1 && first == 7
    ensures r' == Fail(BufferOverflow) && position' == 0 && first' == 0
  {
    var skein := new Skein.Allocate(1);
    r := skein.PutArray([7, 8], None, None);
    position, first := skein.position, skein.buf[0];

    var checked := new Skein.Allocate(1);
    r' := checked.PutArrayChecked([7, 8], None, None);
    position', first' := checked.position, checked.buf[0];
  }

  /**
   * putBuffer as written into a four-byte skein with a four-byte source, from 2, count 4: it
   * passes and sets the position to 6, past the limit of 4, though only two bytes were copied.
   * The corrected version advances by the two bytes copied.
   */
  method PutBufferPastLimit() returns (r: Outcome, position: nat, limit: nat, r': Outcome, position': nat)
    ensures r == Pass && position == 6 && limit == 4 && position > limit
    ensures r' == Pass && position' == 2
  {
    var source := new Byte[4](i => i + 1);
    var skein := new Skein.Allocate(4);
    r := skein.PutBuffer(source, Some(2), Some(4));
    position, limit := skein.position, skein.limit;

    var checked := new Skein.Allocate(4);
    r' := checked.PutBufferChecked(source, Some(2), Some(4));
    position' := checked.position;
  }

  /**
   * putShort as written never stores anything, however deep the call stack, so the skein keeps
   * its zeros and its position; the corrected putShort stores its two's-complement image and
   * getShort reads it back.
   */
  method PutShortRecursion(v: int, stack: nat) returns (r: Outcome, position: nat, stored: seq<Byte>, r': Outcome, got: Result<int>)
    requires InIntRange(v, 2)
    ensures r == Fail(StackExhausted) && position == 0 && stored == [0, 0]
    ensures r' == Pass && got == Ok(v)
  {
    var skein := new Skein.Allocate(2);
    r := skein.PutShortAsWritten(v, stack);
    position, stored := skein.position, skein.buf[..];

    var fixed := new Skein.Allocate(2);
    r' := fixed.PutShort(v);
    fixed.Flip();
    got := fixed.GetShort();
    IntRoundTrip(fixed.order, v, 2);
  }
}
