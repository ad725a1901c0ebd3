/** The 64-byte records of the write-ahead log. */
module WalRecord {
  import opened Wrappers

  const RECORD_SIZE: nat := 64

  /** An unsigned 64-bit integer. */
  type U64 = x: nat | x < 0x1_0000_0000_0000_0000

  datatype RecordType = Leaf | Heartbeat | EpochSeal

  datatype Record = Record(recordType: RecordType, leafIndex: U64, hash: Hash, timestamp: U64, contentId: U64)

  function TypeByte(t: RecordType): byte {
    match t
    case Leaf => 1
    case Heartbeat => 2
    case EpochSeal => 3
  }

  function FromByte(b: byte): Option<RecordType> {
    if b == 1 then Some(Leaf)
    else if b == 2 then Some(Heartbeat)
    else if b == 3 then Some(EpochSeal)
    else None
  }

  // ----- little-endian integers -----

  function Pow256(k: nat): nat {
    if k == 0 then 1 else 256 * Pow256(k - 1)
  }

  /** The k low bytes of n, least significant first. */
  function ToLittleEndian(n: nat, k: nat): (s: seq<byte>)
    ensures |s| == k
  {
    if k == 0 then [] else [(n % 256) as byte] + ToLittleEndian(n / 256, k - 1)
  }

  function FromLittleEndian(s: seq<byte>): nat {
    if s == [] then 0 else s[0] as nat + 256 * FromLittleEndian(s[1..])
  }

  lemma {:induction false} LittleEndianRoundTrip(n: nat, k: nat)
    requires n < Pow256(k)
    ensures FromLittleEndian(ToLittleEndian(n, k)) == n
    decreases k
  {
    if k > 0 {
      LittleEndianRoundTrip(n / 256, k - 1);
      assert ToLittleEndian(n, k)[1..] == ToLittleEndian(n / 256, k - 1);
    }
  }

  lemma {:induction false} BytesRoundTrip(s: seq<byte>)
    ensures FromLittleEndian(s) < Pow256(|s|)
    ensures ToLittleEndian(FromLittleEndian(s), |s|) == s
  {
    if s != [] {
      BytesRoundTrip(s[1..]);
      assert s == [s[0]] + s[1..];
    }
  }

  lemma EightBytes()
    ensures Pow256(8) == 0x1_0000_0000_0000_0000
  {
    assert Pow256(4) == 0x1_0000_0000;
    assert Pow256(6) == 0x1_0000_0000_0000;
  }

  lemma FourBytes()
    ensures Pow256(4) == 0x1_0000_0000
  {}

  /** Eight bytes as an unsigned 64-bit integer. */
  function ReadU64(s: seq<byte>): U64
    requires |s| == 8
  {
    BytesRoundTrip(s);
    EightBytes();
    FromLittleEndian(s)
  }

  function WriteU64(n: U64): (s: seq<byte>)
    ensures |s| == 8
  {
    ToLittleEndian(n, 8)
  }

  lemma U64RoundTrip(n: U64)
    ensures ReadU64(WriteU64(n)) == n
  {
    EightBytes();
    LittleEndianRoundTrip(n, 8);
  }

  // ----- records -----

  function Zeros(n: nat): (s: seq<byte>)
    ensures |s| == n && forall i :: 0 <= i < n ==> s[i] == 0
  {
    seq(n, _ => 0)
  }

  function Encoded(r: Record): (buf: seq<byte>)
    ensures |buf| == RECORD_SIZE
  {
    [TypeByte(r.recordType)] + Zeros(7) + WriteU64(r.leafIndex) + r.hash + WriteU64(r.timestamp) + WriteU64(r.contentId)
  }

  /** Only the type byte can make a record unreadable; bytes 1 to 7 are not looked at. */
  function Decode(buf: seq<byte>): Option<Record>
    requires |buf| == RECORD_SIZE
  {
    match FromByte(buf[0])
    case None => None
    case Some(t) => Some(Record(t, ReadU64(buf[8..16]), buf[16..48], ReadU64(buf[48..56]), ReadU64(buf[56..64])))
  }

  lemma EncodedFields(r: Record)
    ensures var buf := Encoded(r);
      && buf[0] == TypeByte(r.recordType)
      && buf[8..16] == WriteU64(r.leafIndex) && buf[16..48] == r.hash
      && buf[48..56] == WriteU64(r.timestamp) && buf[56..64] == WriteU64(r.contentId)
  {}

  lemma DecodeEncoded(r: Record)
    ensures Decode(Encoded(r)) == Some(r)
  {
    hide Encoded, ToLittleEndian, FromLittleEndian, ReadU64;
    EncodedFields(r);
    U64RoundTrip(r.leafIndex);
    U64RoundTrip(r.timestamp);
    U64RoundTrip(r.contentId);
  }

  /** A buffer reads as a record exactly when it is that record's layout, but for the seven bytes behind the type. */
  lemma DecodedIff(buf: seq<byte>, r: Record)
    requires |buf| == RECORD_SIZE
    ensures Decode(buf) == Some(r) <==> forall i :: 0 <= i < RECORD_SIZE && !(1 <= i < 8) ==> buf[i] == Encoded(r)[i]
  {
    hide ToLittleEndian, FromLittleEndian, ReadU64, WriteU64;
    var full := Encoded(r);
    DecodeEncoded(r);
    if forall i :: 0 <= i < RECORD_SIZE && !(1 <= i < 8) ==> buf[i] == full[i] {
      assert buf[8..16] == full[8..16] && buf[16..48] == full[16..48];
      assert buf[48..56] == full[48..56] && buf[56..64] == full[56..64];
    }
    if Decode(buf) == Some(r) {
      EncodedFields(r);
      U64BackTrip(buf[8..16]);
      U64BackTrip(buf[48..56]);
      U64BackTrip(buf[56..64]);
      SlicesAgree(buf, full);
    }
  }

  lemma U64BackTrip(s: seq<byte>)
    requires |s| == 8
    ensures WriteU64(ReadU64(s)) == s
  {
    BytesRoundTrip(s);
  }

  lemma SlicesAgree(a: seq<byte>, b: seq<byte>)
    requires |a| == |b| == RECORD_SIZE && a[0] == b[0] && a[8..16] == b[8..16] && a[16..48] == b[16..48]
    requires a[48..56] == b[48..56] && a[56..64] == b[56..64]
    ensures forall i :: 0 <= i < RECORD_SIZE && !(1 <= i < 8) ==> a[i] == b[i]
  {
    forall i | 0 <= i < RECORD_SIZE && !(1 <= i < 8)
      ensures a[i] == b[i]
    {
      if 8 <= i < 16 {
        assert a[8..16][i - 8] == b[8..16][i - 8];
      } else if 16 <= i < 48 {
        assert a[16..48][i - 16] == b[16..48][i - 16];
      } else if 48 <= i < 56 {
        assert a[48..56][i - 48] == b[48..56][i - 48];
      } else if i != 0 {
        assert a[56..64][i - 56] == b[56..64][i - 56];
      }
    }
  }

  /** Fill a 64-byte buffer field by field. */
  method Encode(r: Record) returns (buf: array<byte>)
    ensures fresh(buf) && buf[..] == Encoded(r)
  {
    buf := new byte[64](_ => 0);
    buf[0] := TypeByte(r.recordType);
    CopyInto(buf, 8, WriteU64(r.leafIndex));
    CopyInto(buf, 16, r.hash);
    CopyInto(buf, 48, WriteU64(r.timestamp));
    CopyInto(buf, 56, WriteU64(r.contentId));
  }

  method CopyInto(buf: array<byte>, at: nat, src: seq<byte>)
    requires at + |src| <= buf.Length
    modifies buf
    ensures forall j :: 0 <= j < buf.Length ==> buf[j] == if at <= j < at + |src| then src[j - at] else old(buf[j])
  {
    for i := 0 to |src|
      invariant forall j :: 0 <= j < buf.Length ==> buf[j] == if at <= j < at + i then src[j - at] else old(buf[j])
    {
      buf[at + i] := src[i];
    }
  }
}
