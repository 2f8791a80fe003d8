/**
 * The Skein byte buffer: a fixed-capacity byte array, shared between the cursors cut or
 * duplicated from one another, and per cursor a position, a limit, a mark and a byte order.
 */
module Skeins {
  import opened Wrappers
  import opened ByteCodec
  import opened HexText

  /** s with w written over it from index at on; every other byte is kept. */
  function Overwrite(s: seq<Byte>, at: nat, w: seq<Byte>): (r: seq<Byte>)
    requires at + |w| <= |s|
    ensures |r| == |s|
    ensures forall k :: 0 <= k < |s| ==> r[k] == if at <= k < at + |w| then w[k - at] else s[k]
  {
    s[..at] + w + s[at + |w|..]
  }

  /** Overwriting with one more byte is overwriting with the rest, then storing that byte after them. */
  lemma OverwriteSnoc(s: seq<Byte>, at: nat, w: seq<Byte>, x: Byte)
    requires at + |w| < |s|
    ensures Overwrite(s, at, w + [x]) == Overwrite(s, at, w)[at + |w| := x]
  {
  }

  /** Writing the bytes one by one at their places leaves the same array as one overwrite. */
  method WriteAt(a: array<Byte>, at: nat, w: seq<Byte>)
    requires at + |w| <= a.Length
    modifies a
    ensures a[..] == Overwrite(old(a[..]), at, w)
  {
    var i := 0;
    while i < |w|
      invariant 0 <= i <= |w|
      invariant forall k :: 0 <= k < a.Length ==> a[k] == if at <= k < at + i then w[k - at] else old(a[k])
    {
      a[at + i] := w[i];
      i := i + 1;
    }
  }

  /** The image as it lies in memory: floats and doubles are stored reversed in little-endian order. */
  function Oriented(order: Order, image: seq<Byte>): (stored: seq<Byte>)
    ensures |stored| == |image|
  {
    match order
    case BigEndian => image
    case LittleEndian => Reverse(image)
  }

  /** Reading back what was stored in the same order gives the image again, in either order. */
  lemma OrientedInvolution(order: Order, image: seq<Byte>)
    ensures Oriented(order, Oriented(order, image)) == image
  {
    if order == LittleEndian {
      ReverseInvolution(image);
    }
  }

  /** The part of values[from..to) that exists, as Array.prototype.slice clamps it. */
  function Slice(values: seq<Byte>, from: nat, to: nat): (piece: seq<Byte>)
    ensures |piece| <= |values|
  {
    var start := if from < |values| then from else |values|;
    var end := if to < |values| then to else |values|;
    if end <= start then [] else values[start..end]
  }

  /** The elements putArray(values, pos, offset) sends to put. */
  function ArrayPiece(values: seq<Byte>, from: Option<nat>, count: Option<nat>): (piece: seq<Byte>)
    ensures from.None? && count.None? ==> piece == values
    ensures count.Some? ==> |piece| <= count.value
    ensures var start := if from.Some? then from.value else 0;
            forall k :: 0 <= k < |piece| ==> start + k < |values| && piece[k] == values[start + k]
  {
    var start := if from.Some? then from.value else 0;
    Slice(values, start, if count.Some? then start + count.value else |values|)
  }

  function Min(a: int, b: int): (m: int) {
    if a < b then a else b
  }

  /** One byte of toHexString: its two digits and a space to the hex column, its character to the text column. */
  method AppendCell(bin: string, txt: string, b: Byte) returns (bin': string, txt': string)
    ensures bin' == bin + HexCell(b) && txt' == txt + [Printable(b)]
  {
    var digits := Itoa(b, 2, Some('0'));
    ItoaOfByte(b);
    bin' := bin + (digits + " ");
    txt' := txt + [if 0x20 <= b <= 0x7E then b as char else '.'];
  }

  /** The padding loop of toHexString: three spaces for each cell a short last row lacks. */
  method PadColumn(bin: string, cols: nat) returns (padded: string)
    requires cols <= 16
    ensures padded == bin + Blanks(16 - cols)
  {
    padded := bin;
    var c := cols;
    while c < 16
      invariant cols <= c <= 16
      invariant padded == bin + Blanks(c - cols)
    {
      padded := padded + "   ";
      c := c + 1;
    }
  }

  /** Buffer.from: fresh storage holding a copy of the given bytes. */
  method Store(bytes: seq<Byte>) returns (a: array<Byte>)
    ensures fresh(a) && a[..] == bytes
  {
    a := new Byte[|bytes|](k requires 0 <= k < |bytes| => bytes[k]);
  }

  /**
   * One pass of toHexString's loop: the byte's cell and character join the open row, and a
   * row that reaches sixteen bytes is emitted as a line and reopened empty.
   */
  method DumpStep(ghost bytes: seq<Byte>, ghost i: nat, ghost rows: nat, cols: nat, str: string, bin: string, txt: string, bb: Byte)
    returns (ghost rows': nat, cols': nat, str': string, bin': string, txt': string)
    requires DumpState(bytes, i, rows, cols, str, bin, txt) && i < |bytes| && bb == bytes[i]
    ensures DumpState(bytes, i + 1, rows', cols', str', bin', txt')
  {
    if cols + 1 == 16 {
      DumpRow(bytes, i, rows, cols, str, bin, txt);
      rows' := rows + 1;
    } else {
      DumpCell(bytes, i, rows, cols, str, bin, txt);
      rows' := rows;
    }
    bin', txt' := AppendCell(bin, txt, bb);
    cols', str' := cols + 1, str;
    if cols' == 16 {
      cols' := 0;
      str' := str + (bin' + "\t" + txt' + "\n");
      bin', txt' := "", "";
    }
  }

  /** get on a cursor over the given bytes, starting at start: the i-th byte comes out. */
  method NextByte(dup: Skein, ghost bytes: seq<Byte>, ghost start: nat, ghost i: nat) returns (bb: Byte)
    requires dup.Valid() && dup.position == start + i && dup.limit == start + |bytes| && i < |bytes|
    requires bytes == dup.buf[start..start + |bytes|]
    modifies dup`position
    ensures dup.Valid() && dup.position == start + i + 1 && dup.limit == start + |bytes|
    ensures bytes == dup.buf[start..start + |bytes|]
    ensures bb == bytes[i]
  {
    var got := dup.Get();
    bb := got.value;
  }

  /** The loop of toHexString: gets every remaining byte of the cursor, emitting each full row. */
  method DumpRows(dup: Skein, ghost bytes: seq<Byte>) returns (ghost rows: nat, cols: nat, str: string, bin: string, txt: string)
    requires dup.Valid() && bytes == dup.buf[dup.position..dup.limit]
    modifies dup`position
    ensures DumpState(bytes, |bytes|, rows, cols, str, bin, txt)
  {
    ghost var i := 0;
    ghost var start := dup.position;
    rows, cols, str, bin, txt := 0, 0, "", "", "";
    while dup.HasRemaining()
      invariant dup.Valid() && dup.position == start + i && dup.limit == start + |bytes|
      invariant bytes == dup.buf[start..start + |bytes|]
      invariant DumpState(bytes, i, rows, cols, str, bin, txt)
      decreases dup.limit - dup.position
    {
      var bb := NextByte(dup, bytes, start, i);
      rows, cols, str, bin, txt := DumpStep(bytes, i, rows, cols, str, bin, txt, bb);
      i := i + 1;
    }
  }

  class Skein {
    var buf: array<Byte>
    var position: nat
    var limit: nat
    var mark: nat
    var order: Order

    /** 0 <= position <= limit <= capacity; no modelled operation lets the mark pass the limit. */
    ghost predicate Valid()
      reads this
    {
      position <= limit <= buf.Length && mark <= limit
    }

    function Capacity(): (c: nat)
      reads this
      ensures Valid() ==> limit <= c
    {
      buf.Length
    }

    function Remaining(): (r: nat)
      reads this
      requires Valid()
      ensures position + r == limit
    {
      limit - position
    }

    function HasRemaining(): (more: bool)
      reads this
      requires Valid()
      ensures more <==> position < limit
    {
      Remaining() > 0
    }

    /** new Skein(size) and Skein.allocate(size): fresh zero-filled storage, big-endian. */
    constructor Allocate(capacity: nat)
      ensures Valid() && fresh(buf)
      ensures buf.Length == capacity && forall i :: 0 <= i < capacity ==> buf[i] == 0
      ensures position == 0 && mark == 0 && limit == capacity && order == BigEndian
    {
      buf := new Byte[capacity](_ => 0);
      position, limit, mark := 0, capacity, 0;
      order := BigEndian;
    }

    /** new Skein(buffer, order) and Skein.wrap(buffer): a cursor over existing storage, not a copy. */
    constructor Wrap(storage: array<Byte>, o: Order)
      ensures Valid() && buf == storage && buf[..] == old(storage[..])
      ensures position == 0 && mark == 0 && limit == storage.Length && order == o
    {
      buf := storage;
      position, limit, mark := 0, storage.Length, 0;
      order := o;
    }

    /**
     * new Skein(array) and Skein.wrap(array): Buffer.from copies the values into fresh storage,
     * keeping the low eight bits of each.
     */
    constructor FromArray(values: seq<int>)
      ensures Valid() && fresh(buf)
      ensures buf.Length == |values| && forall i :: 0 <= i < |values| ==> buf[i] == values[i] % 256
      ensures position == 0 && mark == 0 && limit == |values| && order == BigEndian
    {
      var a := Store(seq(|values|, k requires 0 <= k < |values| => values[k] % 256));
      buf := a;
      position, limit, mark := 0, |values|, 0;
      order := BigEndian;
    }

    /**
     * Skein.wrap(text) with the default separator: non-hex characters are dropped and the
     * remaining digits are decoded pair by pair into fresh storage.
     */
    constructor WrapHex(text: string)
      ensures Valid() && fresh(buf)
      ensures buf[..] == WrapBytes(text)
      ensures position == 0 && mark == 0 && limit == buf.Length && order == BigEndian
    {
      var digits := HexFilter(text);
      var a := Store(HexDecode(digits));
      buf := a;
      position, limit, mark := 0, a.Length, 0;
      order := BigEndian;
    }

    /** The order setter: later multi-byte accesses use the codec of the new order. */
    method SetOrder(o: Order)
      modifies this`order
      ensures order == o
    {
      if order != o {
        order := o;
      }
    }

    method Put(b: Byte) returns (r: Outcome)
      requires Valid()
      modifies this`position, buf
      ensures Valid()
      ensures r == if old(Remaining()) == 0 then Fail(BufferOverflow) else Pass
      ensures r.Fail? ==> position == old(position) && buf[..] == old(buf[..])
      ensures r.Pass? ==> position == old(position) + 1 && buf[..] == old(buf[..])[old(position) := b]
    {
      if Remaining() == 0 {
        return Fail(BufferOverflow);
      }
      buf[position] := b;
      position := position + 1;
      r := Pass;
    }

    method Get() returns (r: Result<Byte>)
      requires Valid()
      modifies this`position
      ensures Valid()
      ensures old(Remaining()) == 0 ==> r == Err(BufferOverflow) && position == old(position)
      ensures old(Remaining()) > 0 ==> r == Ok(buf[old(position)]) && position == old(position) + 1
    {
      if Remaining() == 0 {
        return Err(BufferOverflow);
      }
      r := Ok(buf[position]);
      position := position + 1;
    }

    /**
     * Writes the image of an unsigned value in the current order. The remaining check comes
     * first; then Node refuses a width outside 1..6 or a value that does not fit.
     */
    method PutUInt(v: int, sz: nat) returns (r: Outcome)
      requires Valid()
      modifies this`position, buf
      ensures Valid()
      ensures r == if old(Remaining()) < sz then Fail(BufferOverflow)
                   else if !ValidWidth(sz) || !InUIntRange(v, sz) then Fail(OutOfRange)
                   else Pass
      ensures r.Fail? ==> position == old(position) && buf[..] == old(buf[..])
      ensures r.Pass? ==> position == old(position) + sz &&
                          buf[..] == Overwrite(old(buf[..]), old(position), EncodeUInt(order, v, sz))
    {
      if Remaining() < sz {
        return Fail(BufferOverflow);
      }
      if !ValidWidth(sz) || !InUIntRange(v, sz) {
        return Fail(OutOfRange);
      }
      WriteAt(buf, position, EncodeUInt(order, v, sz));
      position := position + sz;
      r := Pass;
    }

    method GetUInt(sz: nat) returns (r: Result<int>)
      requires Valid()
      modifies this`position
      ensures Valid()
      ensures old(Remaining()) < sz ==> r == Err(BufferOverflow) && position == old(position)
      ensures sz <= old(Remaining()) && !ValidWidth(sz) ==> r == Err(OutOfRange) && position == old(position)
      ensures sz <= old(Remaining()) && ValidWidth(sz) ==>
                r == Ok(DecodeUInt(order, buf[old(position)..old(position) + sz])) && position == old(position) + sz
    {
      if Remaining() < sz {
        return Err(BufferOverflow);
      }
      if !ValidWidth(sz) {
        return Err(OutOfRange);
      }
      r := Ok(DecodeUInt(order, buf[position..position + sz]));
      position := position + sz;
    }

    /** Writes the two's-complement image of a signed value in the current order. */
    method PutInt(v: int, sz: nat) returns (r: Outcome)
      requires Valid()
      modifies this`position, buf
      ensures Valid()
      ensures r == if old(Remaining()) < sz then Fail(BufferOverflow)
                   else if !ValidWidth(sz) || !InIntRange(v, sz) then Fail(OutOfRange)
                   else Pass
      ensures r.Fail? ==> position == old(position) && buf[..] == old(buf[..])
      ensures r.Pass? ==> position == old(position) + sz &&
                          buf[..] == Overwrite(old(buf[..]), old(position), EncodeInt(order, v, sz))
    {
      if Remaining() < sz {
        return Fail(BufferOverflow);
      }
      if !ValidWidth(sz) || !InIntRange(v, sz) {
        return Fail(OutOfRange);
      }
      WriteAt(buf, position, EncodeInt(order, v, sz));
      position := position + sz;
      r := Pass;
    }

    method GetInt(sz: nat) returns (r: Result<int>)
      requires Valid()
      modifies this`position
      ensures Valid()
      ensures old(Remaining()) < sz ==> r == Err(BufferOverflow) && position == old(position)
      ensures sz <= old(Remaining()) && !ValidWidth(sz) ==> r == Err(OutOfRange) && position == old(position)
      ensures sz <= old(Remaining()) && ValidWidth(sz) ==>
                r == Ok(DecodeInt(order, buf[old(position)..old(position) + sz])) && position == old(position) + sz
    {
      if Remaining() < sz {
        return Err(BufferOverflow);
      }
      if !ValidWidth(sz) {
        return Err(OutOfRange);
      }
      r := Ok(DecodeInt(order, buf[position..position + sz]));
      position := position + sz;
    }

    /**
     * putShort as written: its first and only action is to call putShort again on the same
     * receiver, so the calls nest until the call stack is exhausted, before anything is checked
     * or written. stack is the number of nested calls the engine still admits.
     */
    method PutShortAsWritten(v: int, stack: nat) returns (r: Outcome)
      ensures r == Fail(StackExhausted)
      decreases stack
    {
      if stack == 0 {
        return Fail(StackExhausted);
      }
      r := PutShortAsWritten(v, stack - 1);
    }

    /** The evident intent of putShort: a 2-byte putInt, the counterpart of getShort. */
    method PutShort(v: int) returns (r: Outcome)
      requires Valid()
      modifies this`position, buf
      ensures Valid()
      ensures r == if old(Remaining()) < 2 then Fail(BufferOverflow)
                   else if !InIntRange(v, 2) then Fail(OutOfRange)
                   else Pass
      ensures r.Fail? ==> position == old(position) && buf[..] == old(buf[..])
      ensures r.Pass? ==> position == old(position) + 2 &&
                          buf[..] == Overwrite(old(buf[..]), old(position), EncodeInt(order, v, 2))
    {
      r := PutInt(v, 2);
    }

    method GetShort() returns (r: Result<int>)
      requires Valid()
      modifies this`position
      ensures Valid()
      ensures old(Remaining()) < 2 ==> r == Err(BufferOverflow) && position == old(position)
      ensures 2 <= old(Remaining()) ==>
                r == Ok(DecodeInt(order, buf[old(position)..old(position) + 2])) && position == old(position) + 2
    {
      r := GetInt(2);
    }

    /** Stores an IEEE 754 image, given most significant byte first, in the current order. */
    method PutImage(image: seq<Byte>) returns (r: Outcome)
      requires Valid()
      modifies this`position, buf
      ensures Valid()
      ensures r == if old(Remaining()) < |image| then Fail(BufferOverflow) else Pass
      ensures r.Fail? ==> position == old(position) && buf[..] == old(buf[..])
      ensures r.Pass? ==> position == old(position) + |image| &&
                          buf[..] == Overwrite(old(buf[..]), old(position), Oriented(order, image))
    {
      if Remaining() < |image| {
        return Fail(BufferOverflow);
      }
      WriteAt(buf, position, Oriented(order, image));
      position := position + |image|;
      r := Pass;
    }

    /** Loads an IEEE 754 image of the given width, returned most significant byte first. */
    method GetImage(width: nat) returns (r: Result<seq<Byte>>)
      requires Valid()
      modifies this`position
      ensures Valid()
      ensures old(Remaining()) < width ==> r == Err(BufferOverflow) && position == old(position)
      ensures width <= old(Remaining()) ==>
                r == Ok(Oriented(order, buf[old(position)..old(position) + width])) && position == old(position) + width
    {
      if Remaining() < width {
        return Err(BufferOverflow);
      }
      r := Ok(Oriented(order, buf[position..position + width]));
      position := position + width;
    }

    /** putFloat: the binary32 image of the value is supplied, as four bytes. */
    method PutFloat(image: seq<Byte>) returns (r: Outcome)
      requires Valid() && |image| == 4
      modifies this`position, buf
      ensures Valid()
      ensures r == if old(Remaining()) < 4 then Fail(BufferOverflow) else Pass
      ensures r.Fail? ==> position == old(position) && buf[..] == old(buf[..])
      ensures r.Pass? ==> position == old(position) + 4 &&
                          buf[..] == Overwrite(old(buf[..]), old(position), Oriented(order, image))
    {
      r := PutImage(image);
    }

    method GetFloat() returns (r: Result<seq<Byte>>)
      requires Valid()
      modifies this`position
      ensures Valid()
      ensures old(Remaining()) < 4 ==> r == Err(BufferOverflow) && position == old(position)
      ensures 4 <= old(Remaining()) ==>
                r == Ok(Oriented(order, buf[old(position)..old(position) + 4])) && position == old(position) + 4
    {
      r := GetImage(4);
    }

    /** putDouble: the binary64 image of the value is supplied, as eight bytes. */
    method PutDouble(image: seq<Byte>) returns (r: Outcome)
      requires Valid() && |image| == 8
      modifies this`position, buf
      ensures Valid()
      ensures r == if old(Remaining()) < 8 then Fail(BufferOverflow) else Pass
      ensures r.Fail? ==> position == old(position) && buf[..] == old(buf[..])
      ensures r.Pass? ==> position == old(position) + 8 &&
                          buf[..] == Overwrite(old(buf[..]), old(position), Oriented(order, image))
    {
      r := PutImage(image);
    }

    method GetDouble() returns (r: Result<seq<Byte>>)
      requires Valid()
      modifies this`position
      ensures Valid()
      ensures old(Remaining()) < 8 ==> r == Err(BufferOverflow) && position == old(position)
      ensures 8 <= old(Remaining()) ==>
                r == Ok(Oriented(order, buf[old(position)..old(position) + 8])) && position == old(position) + 8
    {
      r := GetImage(8);
    }

    /**
     * putArray as written: only an explicit count is checked against remaining; the elements
     * are then put one at a time, so a slice longer than remaining is written up to the limit
     * before the put that finds no room fails.
     */
    method PutArray(values: seq<Byte>, from: Option<nat>, count: Option<nat>) returns (r: Outcome)
      requires Valid()
      modifies this`position, buf
      ensures Valid()
      ensures var piece := ArrayPiece(values, from, count);
              r == if count.Some? && old(Remaining()) < count.value then Fail(BufferOverflow)
                   else if |piece| <= old(Remaining()) then Pass
                   else Fail(BufferOverflow)
      ensures count.Some? && old(Remaining()) < count.value ==> position == old(position) && buf[..] == old(buf[..])
      ensures !(count.Some? && old(Remaining()) < count.value) ==>
                var piece := ArrayPiece(values, from, count);
                var k := Min(|piece|, old(Remaining()));
                position == old(position) + k && buf[..] == Overwrite(old(buf[..]), old(position), piece[..k])
    {
      if count.Some? && Remaining() < count.value {
        return Fail(BufferOverflow);
      }
      var piece := ArrayPiece(values, from, count);
      var i := 0;
      while i < |piece|
        invariant 0 <= i <= |piece| && i <= old(Remaining())
        invariant Valid() && position == old(position) + i
        invariant buf[..] == Overwrite(old(buf[..]), old(position), piece[..i])
      {
        r := Put(piece[i]);
        if r.Fail? {
          return;
        }
        OverwriteSnoc(old(buf[..]), old(position), piece[..i], piece[i]);
        assert piece[..i + 1] == piece[..i] + [piece[i]];
        i := i + 1;
      }
      r := Pass;
    }

    /** putArray with the check it evidently intends: the whole slice must fit, or nothing is written. */
    method PutArrayChecked(values: seq<Byte>, from: Option<nat>, count: Option<nat>) returns (r: Outcome)
      requires Valid()
      modifies this`position, buf
      ensures Valid()
      ensures var piece := ArrayPiece(values, from, count);
              r == if old(Remaining()) < |piece| then Fail(BufferOverflow) else Pass
      ensures r.Fail? ==> position == old(position) && buf[..] == old(buf[..])
      ensures r.Pass? ==> var piece := ArrayPiece(values, from, count);
                          position == old(position) + |piece| && buf[..] == Overwrite(old(buf[..]), old(position), piece)
    {
      var piece := ArrayPiece(values, from, count);
      if Remaining() < |piece| {
        return Fail(BufferOverflow);
      }
      WriteAt(buf, position, piece);
      position := position + |piece|;
      r := Pass;
    }

    /**
     * putBuffer as written: the whole source length is checked, Node's copy moves what fits
     * of source[from, from + count), and position is then SET to from + count.
     */
    method PutBuffer(source: array<Byte>, from: Option<nat>, count: Option<nat>) returns (r: Outcome)
      requires Valid()
      requires from.Some? ==> from.value <= source.Length
      modifies this`position, buf
      ensures r == if old(Remaining()) < source.Length then Fail(BufferOverflow) else Pass
      ensures r.Fail? ==> position == old(position) && buf[..] == old(buf[..])
      ensures r.Pass? ==>
                var start := if from.Some? then from.value else 0;
                var n := if count.Some? then count.value else source.Length;
                var moved := Min(n, source.Length - start);
                position == start + n &&
                buf[..] == Overwrite(old(buf[..]), old(position), old(source[start..start + moved]))
    {
      if source.Length > Remaining() {
        return Fail(BufferOverflow);
      }
      var start := if from.Some? then from.value else 0;
      var n := if count.Some? then count.value else source.Length;
      var moved := Min(n, source.Length - start);
      WriteAt(buf, position, source[start..start + moved]);
      position := start + n;
      r := Pass;
    }

    /**
     * putBuffer as evidently intended: the bytes actually copied must fit, and position
     * advances by their number.
     */
    method PutBufferChecked(source: array<Byte>, from: Option<nat>, count: Option<nat>) returns (r: Outcome)
      requires Valid()
      requires from.Some? ==> from.value <= source.Length
      modifies this`position, buf
      ensures Valid()
      ensures var start := if from.Some? then from.value else 0;
              var n := if count.Some? then count.value else source.Length;
              var moved := Min(n, source.Length - start);
              (r == if old(Remaining()) < moved then Fail(BufferOverflow) else Pass) &&
              (r.Pass? ==> position == old(position) + moved &&
                           buf[..] == Overwrite(old(buf[..]), old(position), old(source[start..start + moved])))
      ensures r.Fail? ==> position == old(position) && buf[..] == old(buf[..])
    {
      var start := if from.Some? then from.value else 0;
      var n := if count.Some? then count.value else source.Length;
      var moved := Min(n, source.Length - start);
      if Remaining() < moved {
        return Fail(BufferOverflow);
      }
      WriteAt(buf, position, source[start..start + moved]);
      position := position + moved;
      r := Pass;
    }

    /**
     * putSkein(other, sz): copies sz bytes (all of other's remaining ones by default) from
     * other's position to this position and advances both. The source bytes are read before
     * any is written, so cursors over the same storage copy correctly.
     */
    method PutSkein(other: Skein, sz: Option<nat>) returns (r: Outcome)
      requires Valid() && other.Valid() && other != this
      modifies this`position, other`position, buf
      ensures Valid() && other.Valid()
      ensures var n := if sz.Some? then sz.value else old(other.Remaining());
              r == if sz.Some? && sz.value > old(other.Remaining()) then Fail(BufferOverflow)
                   else if n > old(Remaining()) then Fail(BufferOverflow)
                   else Pass
      ensures r.Fail? ==> position == old(position) && other.position == old(other.position) && buf[..] == old(buf[..])
      ensures r.Pass? ==>
                var n := if sz.Some? then sz.value else old(other.Remaining());
                position == old(position) + n && other.position == old(other.position) + n &&
                buf[..] == Overwrite(old(buf[..]), old(position), old(other.buf[other.position..other.position + n]))
    {
      var n: nat;
      if sz.None? {
        n := other.Remaining();
      } else if sz.value > other.Remaining() {
        return Fail(BufferOverflow);
      } else {
        n := sz.value;
      }
      if n > Remaining() {
        return Fail(BufferOverflow);
      }
      var bytes := other.buf[other.position..other.position + n];
      WriteAt(buf, position, bytes);
      other.position := other.position + n;
      position := position + n;
      r := Pass;
    }

    /** Ready to write from scratch: position and mark 0, limit at capacity; bytes untouched. */
    method Clear()
      requires Valid()
      modifies this`position, this`limit, this`mark
      ensures Valid()
      ensures position == 0 && mark == 0 && limit == Capacity()
    {
      mark, position := 0, 0;
      limit := buf.Length;
    }

    /** From writing to reading what was written: limit at the old position, position and mark 0. */
    method Flip()
      requires Valid()
      modifies this`position, this`limit, this`mark
      ensures Valid()
      ensures limit == old(position) && position == 0 && mark == 0
    {
      limit := position;
      mark, position := 0, 0;
    }

    /** Read again from the start: position and mark 0, limit kept. */
    method Rewind()
      requires Valid()
      modifies this`position, this`mark
      ensures Valid()
      ensures position == 0 && mark == 0
    {
      mark, position := 0, 0;
    }

    method Mark()
      requires Valid()
      modifies this`mark
      ensures Valid()
      ensures mark == position
    {
      mark := position;
    }

    /** Back to the last marked position (0 if none was marked since the last reset of the mark). */
    method Reset()
      requires Valid()
      modifies this`position
      ensures Valid()
      ensures position == old(mark)
    {
      position := mark;
    }

    /**
     * Moves the unread bytes [position, limit) to the front, then makes the rest of the
     * capacity writable after them. The mark is not touched.
     */
    method Compact()
      requires Valid()
      modifies this`position, this`limit, buf
      ensures Valid()
      ensures position == old(limit) - old(position) && limit == Capacity()
      ensures forall k :: 0 <= k < position ==> buf[k] == old(buf[position + k])
      ensures forall k :: position <= k < Capacity() ==> buf[k] == old(buf[k])
    {
      var p, n := position, limit - position;
      var i := 0;
      while i < n
        invariant 0 <= i <= n
        invariant forall k :: 0 <= k < i ==> buf[k] == old(buf[k + p])
        invariant forall k :: i <= k < buf.Length ==> buf[k] == old(buf[k])
      {
        buf[i] := buf[p + i];
        i := i + 1;
      }
      position := n;
      limit := buf.Length;
    }

    method Skip(sz: nat) returns (r: Outcome)
      requires Valid()
      modifies this`position
      ensures Valid()
      ensures r == if sz > old(Remaining()) then Fail(BufferOverflow) else Pass
      ensures position == if r.Pass? then old(position) + sz else old(position)
    {
      if sz > Remaining() {
        return Fail(BufferOverflow);
      }
      position := position + sz;
      r := Pass;
    }

    /**
     * Splits off the next sz bytes as a cursor of its own over the same storage and order,
     * and consumes them here.
     */
    method Cut(sz: nat) returns (piece: Skein)
      requires Valid() && sz <= Remaining()
      modifies this`position
      ensures Valid() && fresh(piece) && piece.Valid()
      ensures piece.buf == buf && piece.order == order && piece.mark == 0
      ensures piece.position == old(position) && piece.limit == old(position) + sz
      ensures position == old(position) + sz
    {
      piece := new Skein.Wrap(buf, order);
      piece.position := position;
      piece.limit := position + sz;
      position := position + sz;
    }

    /** A second cursor over the same storage and order, at the same position and limit. */
    method Duplicate() returns (dup: Skein)
      requires Valid()
      ensures fresh(dup) && dup.Valid()
      ensures dup.buf == buf && dup.order == order && dup.mark == 0
      ensures dup.position == position && dup.limit == limit
    {
      dup := new Skein.Wrap(buf, order);
      dup.position := position;
      dup.limit := limit;
    }

    /** The dump of the unread bytes; it reads through a duplicate, so this cursor does not move. */
    method ToHexString() returns (s: string)
      requires Valid()
      ensures s == HexDump(buf[position..limit])
    {
      var dup := Duplicate();
      ghost var bytes := buf[position..limit];
      ghost var rows;
      var cols, str, bin, txt;
      rows, cols, str, bin, txt := DumpRows(dup, bytes);
      if cols > 0 {
        DumpEndOpen(bytes, rows, cols, str, bin, txt);
        bin := PadColumn(bin, cols);
        str := str + (bin + "\t" + txt + "\n");
      } else {
        DumpEndClosed(bytes, rows, cols, str, bin, txt);
      }
      s := str;
    }
  }
}
