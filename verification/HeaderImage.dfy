/** The 16-byte memory image of a message header, little endian, as both peers read and write it. */
module HeaderImage {
  type Byte = x: int | 0 <= x < 256
  type U32 = x: int | 0 <= x < 0x1_0000_0000
  type I16 = x: int | -0x8000 <= x < 0x8000

  const HEADER_LEN: nat := 16

  datatype Header = Header(kind: I16, result: I16, bodyLen: U32, seqNo: U32, crc: U32)

  function Half(v: nat): (s: seq<Byte>)
    requires v < 0x1_0000
    ensures |s| == 2
  {
    [v % 256, v / 256]
  }

  function FromHalf(s: seq<Byte>): (v: nat)
    requires |s| == 2
    ensures v < 0x1_0000
  {
    s[0] as int + 256 * s[1] as int
  }

  function Whole(v: U32): (s: seq<Byte>)
    ensures |s| == 4
  {
    Half(v % 0x1_0000) + Half(v / 0x1_0000)
  }

  function FromWhole(s: seq<Byte>): U32
    requires |s| == 4
  {
    FromHalf(s[..2]) + 0x1_0000 * FromHalf(s[2..])
  }

  function Signed(x: I16): (s: seq<Byte>)
    ensures |s| == 2
  {
    Half(if x < 0 then x + 0x1_0000 else x)
  }

  function FromSigned(s: seq<Byte>): I16
    requires |s| == 2
  {
    var v := FromHalf(s);
    if v < 0x8000 then v else v - 0x1_0000
  }

  function EncodeHeader(h: Header): (s: seq<Byte>)
    ensures |s| == HEADER_LEN
  {
    Signed(h.kind) + Signed(h.result) + Whole(h.bodyLen) + Whole(h.seqNo) + Whole(h.crc)
  }

  function DecodeHeader(s: seq<Byte>): Header
    requires |s| == HEADER_LEN
  {
    Header(FromSigned(s[..2]), FromSigned(s[2..4]), FromWhole(s[4..8]), FromWhole(s[8..12]), FromWhole(s[12..]))
  }

  lemma WholeRoundTrip(v: U32)
    ensures FromWhole(Whole(v)) == v
  {
    assert Whole(v)[..2] == Half(v % 0x1_0000) && Whole(v)[2..] == Half(v / 0x1_0000);
  }

  lemma WholeSurjective(s: seq<Byte>)
    requires |s| == 4
    ensures Whole(FromWhole(s)) == s
  {
    var lo, hi := FromHalf(s[..2]), FromHalf(s[2..]);
    assert FromWhole(s) % 0x1_0000 == lo && FromWhole(s) / 0x1_0000 == hi;
    assert Half(lo) == s[..2] && Half(hi) == s[2..];
  }

  lemma SignedSurjective(s: seq<Byte>)
    requires |s| == 2
    ensures Signed(FromSigned(s)) == s
  {
  }

  lemma HeaderRoundTrip(h: Header)
    ensures DecodeHeader(EncodeHeader(h)) == h
  {
    var s := EncodeHeader(h);
    assert s[..2] == Signed(h.kind) && s[2..4] == Signed(h.result);
    assert s[4..8] == Whole(h.bodyLen) && s[8..12] == Whole(h.seqNo) && s[12..] == Whole(h.crc);
    WholeRoundTrip(h.bodyLen);
    WholeRoundTrip(h.seqNo);
    WholeRoundTrip(h.crc);
  }

  lemma HeaderSurjective(s: seq<Byte>)
    requires |s| == HEADER_LEN
    ensures EncodeHeader(DecodeHeader(s)) == s
  {
    WholeSurjective(s[4..8]);
    WholeSurjective(s[8..12]);
    WholeSurjective(s[12..]);
    SignedSurjective(s[..2]);
    SignedSurjective(s[2..4]);
    assert s == s[..2] + s[2..4] + s[4..8] + s[8..12] + s[12..];
  }

  /** The length field as the receiver reads it out of a complete image. */
  lemma BodyLenField(h: Header)
    ensures FromWhole(EncodeHeader(h)[4..8]) == h.bodyLen
  {
    HeaderRoundTrip(h);
  }

  /** A number written with its lowest byte first. */
  function LittleEndian(s: seq<Byte>): nat {
    if s == [] then 0 else s[0] as int + 256 * LittleEndian(s[1..])
  }

  lemma LittleOfTwo(s: seq<Byte>)
    requires |s| == 2
    ensures LittleEndian(s) == s[0] as int + 256 * s[1] as int
  {
    assert s[1..][1..] == [] && LittleEndian(s[1..]) == s[1] as int;
  }

  lemma WholeLittle(v: U32)
    ensures LittleEndian(Whole(v)) == v
  {
    var s := Whole(v);
    LittleOfTwo(s[2..]);
    assert s[1..][1..] == s[2..];
    assert LittleEndian(s) == s[0] as int + 256 * (s[1] as int + 256 * LittleEndian(s[2..]));
  }

  lemma SignedLittle(x: I16)
    ensures LittleEndian(Signed(x)) == if x < 0 then x + 0x1_0000 else x
  {
    LittleOfTwo(Signed(x));
  }

  /** The five fields in the order of their declaration, each with its lowest byte first. */
  lemma FieldBytes(h: Header)
    ensures var s := EncodeHeader(h);
            && LittleEndian(s[..2]) == (if h.kind < 0 then h.kind + 0x1_0000 else h.kind)
            && LittleEndian(s[2..4]) == (if h.result < 0 then h.result + 0x1_0000 else h.result)
            && LittleEndian(s[4..8]) == h.bodyLen && LittleEndian(s[8..12]) == h.seqNo && LittleEndian(s[12..]) == h.crc
  {
    var s := EncodeHeader(h);
    assert s[..2] == Signed(h.kind) && s[2..4] == Signed(h.result);
    assert s[4..8] == Whole(h.bodyLen) && s[8..12] == Whole(h.seqNo) && s[12..] == Whole(h.crc);
    SignedLittle(h.kind);
    SignedLittle(h.result);
    WholeLittle(h.bodyLen);
    WholeLittle(h.seqNo);
    WholeLittle(h.crc);
  }
}
