/**
 * The fixed-width integer images a Skein reads and writes through Node's Buffer
 * (readUIntBE/LE, writeUIntBE/LE, readIntBE/LE, writeIntBE/LE): pure functions on byte
 * sequences, one pair per byte order, and the facts that make putUInt/getUInt and
 * putInt/getInt inverse to each other.
 */
module ByteCodec {

  type Byte = b: int | 0 <= b < 256

  /** Skein.LITTLE_ENDIAN (0) and Skein.BIG_ENDIAN (1). */
  datatype Order = LittleEndian | BigEndian

  function Pow256(n: nat): (p: nat)
    ensures p >= 1
  {
    if n == 0 then 1 else 256 * Pow256(n - 1)
  }

  /** Node accepts byte lengths 1 to 6 for its variable-width integer accessors. */
  predicate ValidWidth(n: nat) {
    1 <= n <= 6
  }

  predicate InUIntRange(v: int, n: nat) {
    0 <= v < Pow256(n)
  }

  /** -2^(8n-1) <= v <= 2^(8n-1) - 1, the range Node's writeInt* accepts. */
  predicate InIntRange(v: int, n: nat) {
    -(Pow256(n) as int) <= 2 * v < Pow256(n)
  }

  /** The low n bytes of v, least significant first. */
  function UIntToLE(v: nat, n: nat): (s: seq<Byte>)
    ensures |s| == n
  {
    if n == 0 then [] else [v % 256] + UIntToLE(v / 256, n - 1)
  }

  /** The low n bytes of v, most significant first. */
  function UIntToBE(v: nat, n: nat): (s: seq<Byte>)
    ensures |s| == n
  {
    if n == 0 then [] else UIntToBE(v / 256, n - 1) + [v % 256]
  }

  /** The unsigned value of bytes stored least significant first. */
  function LEToUInt(s: seq<Byte>): (v: nat)
    ensures v < Pow256(|s|)
  {
    if s == [] then 0 else s[0] + 256 * LEToUInt(s[1..])
  }

  /** The unsigned value of bytes stored most significant first. */
  function BEToUInt(s: seq<Byte>): (v: nat)
    ensures v < Pow256(|s|)
  {
    if s == [] then 0 else 256 * BEToUInt(s[..|s| - 1]) + s[|s| - 1]
  }

  function Reverse(s: seq<Byte>): (r: seq<Byte>)
    ensures |r| == |s|
  {
    seq(|s|, i requires 0 <= i < |s| => s[|s| - 1 - i])
  }

  lemma ReverseInvolution(s: seq<Byte>)
    ensures Reverse(Reverse(s)) == s
  {
  }

  lemma {:induction false} LERoundTrip(v: nat, n: nat)
    requires v < Pow256(n)
    ensures LEToUInt(UIntToLE(v, n)) == v
  {
    if n > 0 {
      var s := UIntToLE(v, n);
      assert s[0] == v % 256 && s[1..] == UIntToLE(v / 256, n - 1);
      assert v / 256 < Pow256(n - 1);
      LERoundTrip(v / 256, n - 1);
    }
  }

  lemma {:induction false} LEBytesRoundTrip(s: seq<Byte>)
    ensures UIntToLE(LEToUInt(s), |s|) == s
  {
    if s != [] {
      var v := LEToUInt(s);
      assert v == s[0] + 256 * LEToUInt(s[1..]);
      assert v % 256 == s[0] && v / 256 == LEToUInt(s[1..]);
      LEBytesRoundTrip(s[1..]);
      assert s == [s[0]] + s[1..];
    }
  }

  /** The big-endian image is the little-endian image read backwards. */
  lemma {:induction false} BEIsReversedLE(v: nat, n: nat)
    ensures UIntToBE(v, n) == Reverse(UIntToLE(v, n))
  {
    if n > 0 {
      BEIsReversedLE(v / 256, n - 1);
      var t := UIntToLE(v / 256, n - 1);
      assert UIntToLE(v, n) == [v % 256] + t;
      assert Reverse([v % 256] + t) == Reverse(t) + [v % 256];
    }
  }

  /** Reading bytes most significant first is reading them reversed least significant first. */
  lemma {:induction false} BEReadsReversed(s: seq<Byte>)
    ensures BEToUInt(s) == LEToUInt(Reverse(s))
  {
    if s != [] {
      var init := s[..|s| - 1];
      BEReadsReversed(init);
      assert Reverse(s) == [s[|s| - 1]] + Reverse(init);
      assert Reverse(s)[1..] == Reverse(init);
    }
  }

  /** The image of a value in the given order. */
  function EncodeUInt(order: Order, v: nat, n: nat): (s: seq<Byte>)
    ensures |s| == n
  {
    match order
    case LittleEndian => UIntToLE(v, n)
    case BigEndian => UIntToBE(v, n)
  }

  /** The unsigned value of an image in the given order. */
  function DecodeUInt(order: Order, s: seq<Byte>): (v: nat)
    ensures InUIntRange(v, |s|)
  {
    match order
    case LittleEndian => LEToUInt(s)
    case BigEndian => BEToUInt(s)
  }

  /** getUInt(n) after putUInt(v, n) at the same place and order yields v. */
  lemma UIntRoundTrip(order: Order, v: nat, n: nat)
    requires InUIntRange(v, n)
    ensures DecodeUInt(order, EncodeUInt(order, v, n)) == v
  {
    LERoundTrip(v, n);
    if order == BigEndian {
      BEIsReversedLE(v, n);
      BEReadsReversed(UIntToBE(v, n));
      ReverseInvolution(UIntToLE(v, n));
    }
  }

  /** Every n-byte image is the image of exactly one value: decoding loses nothing. */
  lemma UIntBytesRoundTrip(order: Order, s: seq<Byte>)
    ensures EncodeUInt(order, DecodeUInt(order, s), |s|) == s
  {
    if order == LittleEndian {
      LEBytesRoundTrip(s);
    } else {
      var r := Reverse(s);
      BEReadsReversed(s);
      LEBytesRoundTrip(r);
      BEIsReversedLE(LEToUInt(r), |s|);
      ReverseInvolution(s);
    }
  }

  /** Big-endian and little-endian images of the same value are byte reversals of each other. */
  lemma OrderSymmetry(v: nat, n: nat)
    ensures EncodeUInt(BigEndian, v, n) == Reverse(EncodeUInt(LittleEndian, v, n))
    ensures EncodeUInt(LittleEndian, v, n) == Reverse(EncodeUInt(BigEndian, v, n))
  {
    BEIsReversedLE(v, n);
    ReverseInvolution(UIntToLE(v, n));
  }

  /** The same raw bytes read in the other order give the value of the reversed bytes. */
  lemma DecodeOrderSymmetry(s: seq<Byte>)
    ensures DecodeUInt(BigEndian, s) == DecodeUInt(LittleEndian, Reverse(s))
    ensures DecodeUInt(LittleEndian, s) == DecodeUInt(BigEndian, Reverse(s))
  {
    BEReadsReversed(s);
    BEReadsReversed(Reverse(s));
    ReverseInvolution(s);
  }

  /** The two's-complement image of a signed value: the unsigned value with the same low bytes. */
  function TwosComplement(v: int, n: nat): (u: nat)
    requires InIntRange(v, n)
    ensures InUIntRange(u, n)
  {
    if v < 0 then v + Pow256(n) else v
  }

  function EncodeInt(order: Order, v: int, n: nat): (s: seq<Byte>)
    requires InIntRange(v, n)
    ensures |s| == n
  {
    EncodeUInt(order, TwosComplement(v, n), n)
  }

  /** The signed value of an image: its top bit carries weight -2^(8n-1). */
  function DecodeInt(order: Order, s: seq<Byte>): (v: int)
    ensures InIntRange(v, |s|)
  {
    var u := DecodeUInt(order, s);
    if 2 * u >= Pow256(|s|) then u - Pow256(|s|) else u
  }

  /** getInt(n) after putInt(v, n) at the same place and order yields v. */
  lemma IntRoundTrip(order: Order, v: int, n: nat)
    requires InIntRange(v, n)
    ensures DecodeInt(order, EncodeInt(order, v, n)) == v
  {
    UIntRoundTrip(order, TwosComplement(v, n), n);
  }

  /** A signed image decodes to the value with the same unsigned reading modulo 256^n. */
  lemma IntBytesRoundTrip(order: Order, s: seq<Byte>)
    ensures EncodeInt(order, DecodeInt(order, s), |s|) == s
  {
    UIntBytesRoundTrip(order, s);
  }
}
