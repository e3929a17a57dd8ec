/** The 12 bytes of a cluster header on disk: three 32-bit little-endian two's complement
    numbers, in the order size, next, head. */
module EvfsFormat {
  import opened Arithmetic
  import opened Bytes
  import opened EvfsVolume

  const HEADER: nat := 12

  predicate Int32(x: int) { -0x8000_0000 <= x < 0x8000_0000 }

  function Encode32(x: int): (b: seq<byte>)
    ensures |b| == 4
  {
    var u := x % TWO32;
    [(u % 256) as byte, (u / 256 % 256) as byte, (u / 65536 % 256) as byte, (u / 16777216 % 256) as byte]
  }

  function Decode32(b: seq<byte>): int
    requires |b| == 4
  {
    var u := b[0] as int + 256 * (b[1] as int) + 65536 * (b[2] as int) + 16777216 * (b[3] as int);
    if u < 0x8000_0000 then u else u - TWO32
  }

  /** The bytes of a number are those of its remainder by 2^32, the lowest first. */
  lemma {:induction false} Encode32Bytes(x: int)
    ensures LittleEndian(Encode32(x)) == x % TWO32
  {
    var u := x % TWO32;
    FourBytes(Encode32(x));
    Digits(u);
    assert 0 <= u / 16777216 < 256;
  }

  /** Four bytes are read as a two's complement number. */
  lemma {:induction false} Decode32Signed(b: seq<byte>)
    requires |b| == 4
    ensures Int32(Decode32(b)) && Decode32(b) % TWO32 == LittleEndian(b)
  {
    FourBytes(b);
  }

  lemma {:induction false} SameSigned(x: int, y: int)
    requires Int32(x) && Int32(y) && x % TWO32 == y % TWO32
    ensures x == y
  {
  }

  lemma {:induction false} Decode32Encode32(x: int)
    requires Int32(x)
    ensures Decode32(Encode32(x)) == x
  {
    var u := x % TWO32;
    assert 0 <= u < TWO32 && u == if x >= 0 then x else x + TWO32;
    Digits(u);
  }

  lemma {:induction false} Digits(u: int)
    requires 0 <= u < TWO32
    ensures u == u % 256 + 256 * (u / 256 % 256) + 65536 * (u / 65536 % 256) + 16777216 * (u / 16777216 % 256)
  {
    var a, b, c := u / 256, u / 65536, u / 16777216;
    assert u == u % 256 + 256 * a;
    assert b == a / 256 && c == b / 256;
    assert a == a % 256 + 256 * b && b == b % 256 + 256 * c && 0 <= c < 256;
  }

  function EncodeHeader(x: Header): (b: seq<byte>)
    ensures |b| == HEADER
  {
    Encode32(x.size) + Encode32(x.next) + Encode32(x.head)
  }

  function DecodeHeader(b: seq<byte>): Header
    requires |b| >= HEADER
  {
    Header(Decode32(b[0..4]), Decode32(b[4..8]), Decode32(b[8..12]))
  }

  predicate Storable(x: Header) { Int32(x.size) && Int32(x.next) && Int32(x.head) }

  /** A header comes back from disk as it was written, whatever data follows it. */
  lemma {:induction false} HeaderRoundTrip(x: Header, data: seq<byte>)
    requires Storable(x)
    ensures DecodeHeader(EncodeHeader(x) + data) == x
  {
    var b := EncodeHeader(x) + data;
    assert b[0..4] == Encode32(x.size) && b[4..8] == Encode32(x.next) && b[8..12] == Encode32(x.head);
    Decode32Encode32(x.size);
    Decode32Encode32(x.next);
    Decode32Encode32(x.head);
  }

  lemma {:induction false} BlankOnDisk(n: nat)
    ensures Zeros(HEADER + n) == EncodeHeader(BLANK) + Zeros(n)
  {
    assert Encode32(0) == [0, 0, 0, 0];
  }

  /** Where the three numbers of a header are, whatever data follows it. */
  lemma {:induction false} HeaderBytes(x: Header, data: seq<byte>)
    ensures var b := EncodeHeader(x) + data;
      && LittleEndian(b[0..4]) == x.size % TWO32 && LittleEndian(b[4..8]) == x.next % TWO32
      && LittleEndian(b[8..12]) == x.head % TWO32 && b[12..] == data
  {
    var b := EncodeHeader(x) + data;
    assert b[0..4] == Encode32(x.size) && b[4..8] == Encode32(x.next) && b[8..12] == Encode32(x.head);
    Encode32Bytes(x.size);
    Encode32Bytes(x.next);
    Encode32Bytes(x.head);
  }

  // ---------- the first cluster ----------

  const MAGIC: int := 0x73667645

  /** The size of struct evfs_head_record_data. */
  const RECORD: nat := 80

  const MINIMUM_CLUSTER_SIZE: nat := 32

  const MAXIMUM_CLUSTER_SIZE: nat := 4096

  const MAXIMUM_FILE_SIZE: nat := 0x4000_0000

  /** The first cluster: the size of the record, its magic number, and the shape of the file. */
  function Record(seg: nat, count: int, grow: int): (b: seq<byte>)
    requires seg >= 16
    ensures |b| == HEADER + seg
  {
    EncodeHeader(Header(RECORD, 0, 0)) + Encode32(MAGIC) + Encode32(HEADER + seg)
      + Encode32(count) + Encode32(grow) + Zeros(seg - 16)
  }

  /** The number `n` is at byte `k`. */
  predicate Field(b: seq<byte>, k: nat, n: int) { k + 4 <= |b| && LittleEndian(b[k..k + 4]) == n % TWO32 }

  /** The bytes of the first cluster say how large a cluster is, how many there are, and by how
      many the file grows. */
  predicate RecordOk(b: seq<byte>, seg: nat, count: nat, grow: nat) {
    var recordOk :=
      && |b| == HEADER + seg && Field(b, 0, RECORD) && Field(b, 4, 0) && Field(b, 8, 0)
      && Field(b, HEADER, MAGIC) && Field(b, HEADER + 4, HEADER + seg)
      && Field(b, HEADER + 8, count) && Field(b, HEADER + 12, grow);
    recordOk
  }

  lemma {:induction false} RecordIsOk(seg: nat, count: nat, grow: nat)
    requires seg >= 16
    ensures RecordOk(Record(seg, count, grow), seg, count, grow)
  {
    var b := Record(seg, count, grow);
    assert b[0..4] == Encode32(RECORD) && b[4..8] == Encode32(0) && b[8..12] == Encode32(0);
    assert b[12..16] == Encode32(MAGIC) && b[16..20] == Encode32(HEADER + seg);
    assert b[20..24] == Encode32(count) && b[24..28] == Encode32(grow);
    Encode32Bytes(RECORD);
    Encode32Bytes(0);
    Encode32Bytes(MAGIC);
    Encode32Bytes(HEADER + seg);
    Encode32Bytes(count);
    Encode32Bytes(grow);
  }

  function At32(b: seq<byte>, k: nat): int
    requires k + 4 <= |b|
  {
    Decode32(b[k..k + 4])
  }

  lemma {:induction false} FieldRead(b: seq<byte>, k: nat, n: int)
    requires Field(b, k, n) && Int32(n)
    ensures At32(b, k) == n
  {
    Decode32Signed(b[k..k + 4]);
    SameSigned(At32(b, k), n);
  }

  /** What evfs_hard_open asks of the first cluster of a file of this size. */
  predicate HardLegal(b: seq<byte>, size: int)
    requires |b| >= HEADER + 16
  {
    && HEADER + RECORD <= size <= MAXIMUM_FILE_SIZE
    && At32(b, 0) == RECORD && At32(b, 4) == 0 && At32(b, 8) == 0 && At32(b, HEADER) == MAGIC
    && MINIMUM_CLUSTER_SIZE <= At32(b, HEADER + 4) <= MAXIMUM_CLUSTER_SIZE
    && At32(b, HEADER + 4) * At32(b, HEADER + 8) == size
  }

  /** A file with such a first cluster can be opened exactly when its clusters and itself are of
      a size that is allowed. */
  lemma {:induction false} HardLegalIff(b: seq<byte>, seg: nat, count: nat, grow: nat)
    requires seg >= 16 && count > 0 && RecordOk(b, seg, count, grow)
    ensures HardLegal(b, (HEADER + seg) * count) <==>
      && HEADER + RECORD <= (HEADER + seg) * count <= MAXIMUM_FILE_SIZE
      && MINIMUM_CLUSTER_SIZE <= HEADER + seg <= MAXIMUM_CLUSTER_SIZE
  {
    if (HEADER + seg) * count <= MAXIMUM_FILE_SIZE {
      AtLeast(HEADER + seg, count);
      AtLeast(count, HEADER + seg);
      FieldRead(b, 0, RECORD);
      FieldRead(b, 4, 0);
      FieldRead(b, 8, 0);
      FieldRead(b, HEADER, MAGIC);
      FieldRead(b, HEADER + 4, HEADER + seg);
      FieldRead(b, HEADER + 8, count);
    }
  }
}
