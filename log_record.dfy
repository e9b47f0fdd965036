/** The Merkle-tree log record codec: big-endian fixed-width integers, the
    length-prefixed DigitallySigned record, the two checkpoints, the
    segment-info record and the audit proof.

    Each record appears twice. A datatype (Signed, SegmentCheckpoint, ...)
    is the value of the record's fields, and pure functions on it specify
    Serialize and Deserialize; the Deserialize functions take the fields'
    prior value because the source assigns fields one by one and leaves
    the ones it already assigned in place when it gives up half way. A
    class with the same fields (DigitallySigned, LogSegmentCheckpoint, ...)
    carries the methods, each proved equal to its specification. */
module LogRecord {

  import opened Basics

  type Byte = b: nat | b < 256
  type Bytes = seq<Byte>

  // ---------------------------------------------------------------------
  // Fixed-width unsigned integers
  // ---------------------------------------------------------------------

  function Pow256(n: nat): (p: nat)
    ensures p >= 1
  {
    if n == 0 then 1 else 256 * Pow256(n - 1)
  }

  /** 2^64: one more than the largest size_t. */
  const SizeLimit: nat := 0x1_0000_0000_0000_0000

  /** The byte of weight 256^k in x: what masking byte k and shifting it
      down extracts. */
  function ByteAt(x: nat, k: nat): Byte
  {
    (x / Pow256(k)) % 256
  }

  /** The n low-order bytes of x, most significant first. */
  function BigEndian(x: nat, n: nat): (r: Bytes)
    ensures |r| == n
  {
    if n == 0 then [] else [ByteAt(x, n - 1)] + BigEndian(x, n - 1)
  }

  /** The number a big-endian byte string denotes when each byte is read
      as unsigned: shift the running value left a byte, add the next one. */
  function ValueOf(s: Bytes): nat
  {
    if s == [] then 0 else ValueOf(s[..|s| - 1]) * 256 + s[|s| - 1]
  }

  /** SerializeUint(in, bytes): loops from the most significant of the
      requested bytes down to the least. The source asserts `bytes <= 8`;
      the model admits at most 4, the widest the codec uses (see README). */
  method SerializeUint(x: nat, bytes: nat) returns (result: Bytes)
    requires bytes <= 4 && x < Pow256(bytes)
    ensures result == BigEndian(x, bytes)
  {
    result := [];
    var k: nat := bytes;
    while k > 0
      invariant k <= bytes
      invariant result + BigEndian(x, k) == BigEndian(x, bytes)
    {
      result := result + [(x / Pow256(k - 1)) % 256];
      k := k - 1;
    }
  }

  /** DeserializeUint, reading every byte as unsigned. */
  method DeserializeUint(x: Bytes) returns (res: nat)
    requires |x| <= 8
    ensures res == ValueOf(x) && res < SizeLimit
  {
    res := 0;
    var i := 0;
    while i < |x|
      invariant 0 <= i <= |x|
      invariant res == ValueOf(x[..i])
    {
      assert x[..i + 1][..i] == x[..i];
      res := res * 256 + x[i];
      i := i + 1;
    }
    assert x[..|x|] == x;
    ValueOfBound(x);
    Pow256Monotone(|x|, 8);
  }

  /** DeserializeUint exactly as written, on a platform where `char` is
      signed: a byte of 0x80 or more is added as a negative number, and
      the size_t arithmetic wraps modulo 2^64. */
  function ValueOfAsWritten(s: Bytes): (r: nat)
    ensures r < SizeLimit
  {
    if s == [] then 0
    else (ValueOfAsWritten(s[..|s| - 1]) * 256 + SignedChar(s[|s| - 1])) % SizeLimit
  }

  function SignedChar(b: Byte): int
  {
    if b < 128 then b else b - 256
  }

  lemma DivModUnique(x: int, d: int, q: int, r: int)
    requires d > 0 && x == d * q + r && 0 <= r < d
    ensures x / d == q && x % d == r
  {
    var q', r' := x / d, x % d;
    assert d * q' + r' == d * q + r;
    assert d * (q - q') == r' - r;
    if q > q' {
      MulAtLeast(d, q - q');
    } else if q < q' {
      MulAtLeast(d, q' - q);
    }
  }

  lemma MulAtLeast(d: int, k: int)
    requires d > 0 && k >= 1
    ensures d * k >= d
  {
    assert d * k == d * (k - 1) + d;
    assert d * (k - 1) >= 0;
  }

  lemma DivModMul(x: nat, a: nat, b: nat)
    requires a > 0 && b > 0
    ensures x / (a * b) == (x / a) / b
    ensures x % (a * b) == (x / a % b) * a + x % a
  {
    var q, r := x / a, x % a;
    var q2, r2 := q / b, q % b;
    assert x == a * q + r;
    assert q == b * q2 + r2;
    assert a * r2 + r < a * b by {
      MulMonotone(a, r2, b - 1);
      MulSub(a, b);
    }
    assert x == (a * b) * q2 + (a * r2 + r) by {
      MulExpand(a, b, q2, r2);
    }
    DivModUnique(x, a * b, q2, a * r2 + r);
  }

  lemma MulMonotone(a: nat, u: nat, v: nat)
    requires u <= v
    ensures a * u <= a * v
  {
    assert a * v == a * u + a * (v - u);
  }

  lemma MulSub(a: int, b: int)
    ensures a * (b - 1) == a * b - a
  {
  }

  lemma MulExpand(a: int, b: int, q: int, r: int)
    ensures a * (b * q + r) == (a * b) * q + a * r
  {
  }

  lemma Pow256Monotone(m: nat, n: nat)
    requires m <= n
    ensures Pow256(m) <= Pow256(n)
    decreases n - m
  {
    if m < n {
      Pow256Monotone(m + 1, n);
    }
  }

  /** Peeling the least significant byte off the end of BigEndian. */
  lemma {:induction false} BigEndianLast(x: nat, n: nat)
    requires n >= 1
    ensures BigEndian(x, n) == BigEndian(x / 256, n - 1) + [x % 256]
    decreases n
  {
    if n > 1 {
      BigEndianLast(x, n - 1);
      DivModMul(x, 256, Pow256(n - 2));
      assert ByteAt(x, n - 1) == ByteAt(x / 256, n - 2);
    }
  }

  lemma {:induction false} ValueOfBigEndian(x: nat, n: nat)
    ensures ValueOf(BigEndian(x, n)) == x % Pow256(n)
    decreases n
  {
    if n > 0 {
      BigEndianLast(x, n);
      var s := BigEndian(x, n);
      assert s[..|s| - 1] == BigEndian(x / 256, n - 1);
      ValueOfBigEndian(x / 256, n - 1);
      DivModMul(x, 256, Pow256(n - 1));
    }
  }

  /** Deserializing what SerializeUint wrote gives the number back. */
  lemma UintRoundTrip(x: nat, n: nat)
    requires x < Pow256(n)
    ensures ValueOf(BigEndian(x, n)) == x
  {
    ValueOfBigEndian(x, n);
    DivModUnique(x, Pow256(n), 0, x);
  }

  lemma {:induction false} ValueOfBound(s: Bytes)
    ensures ValueOf(s) < Pow256(|s|)
    decreases |s|
  {
    if s != [] {
      ValueOfBound(s[..|s| - 1]);
    }
  }

  /** Serializing a deserialized byte string restores it: the codec is a
      bijection between n-byte strings and the numbers below 256^n. */
  lemma {:induction false} BigEndianOfValue(s: Bytes)
    ensures BigEndian(ValueOf(s), |s|) == s
    decreases |s|
  {
    if s != [] {
      var p, b := s[..|s| - 1], s[|s| - 1];
      var v := ValueOf(s);
      DivModUnique(v, 256, ValueOf(p), b);
      BigEndianLast(v, |s|);
      BigEndianOfValue(p);
      assert s == p + [b];
    }
  }

  /** With signed `char`, the four-byte sequence number 0x00 0x00 0x00 0xff
      reads back as 2^64 - 1, so a segment-info proof's
      `tree_size = sequence_number + 1` wraps to 0; read unsigned, it is 255. */
  lemma SignedCharTreeSizeWraps()
    ensures ValueOfAsWritten([0, 0, 0, 255]) == SizeLimit - 1
    ensures (ValueOfAsWritten([0, 0, 0, 255]) + 1) % SizeLimit == 0
    ensures ValueOf([0, 0, 0, 255]) == 255
  {
    var s: Bytes := [0, 0, 0, 255];
    var p3: Bytes := [0, 0, 0];
    var p2: Bytes := [0, 0];
    var p1: Bytes := [0];
    assert s[..3] == p3 && p3[..2] == p2 && p2[..1] == p1 && p1[..0] == [];
    assert ValueOfAsWritten(p1) == 0 && ValueOf(p1) == 0;
    assert ValueOfAsWritten(p2) == 0 && ValueOf(p2) == 0;
    assert ValueOfAsWritten(p3) == 0 && ValueOf(p3) == 0;
    assert SignedChar(255) == -1;
  }

  /** With signed `char`, the two-byte length 384 (0x01 0x80), as written
      by SerializeUint, reads back as 128. */
  lemma SignedCharLengthMismatch()
    ensures BigEndian(384, 2) == [1, 128]
    ensures ValueOfAsWritten(BigEndian(384, 2)) == 128
    ensures ValueOf(BigEndian(384, 2)) == 384
  {
    assert ByteAt(384, 1) == 1 && ByteAt(384, 0) == 128;
    assert BigEndian(384, 2) == [1, 128];
    var s: Bytes := [1, 128];
    assert s[..1] == [1];
    var one: Bytes := [1];
    assert one[..0] == [];
    assert ValueOfAsWritten(one) == 1 && ValueOf(one) == 1;
  }

  // ---------------------------------------------------------------------
  // DigitallySigned
  // ---------------------------------------------------------------------

  /** The HashAlgorithm codes of section 7.4.1.4.1 of RFC 5246: none, md5,
      sha1, sha224, sha256, sha384 and sha512. */
  const HashAlgorithmCodes: set<nat> := {0, 1, 2, 3, 4, 5, 6}

  /** The SignatureAlgorithm codes of the same section: anonymous, rsa,
      dsa and ecdsa. */
  const SignatureAlgorithmCodes: set<nat> := {0, 1, 2, 3}

  predicate IsValidHashAlgorithmEnum(h: nat): (ok: bool)
    ensures ok <==> h in HashAlgorithmCodes
  {
    if h > 6 then false else true
  }

  predicate IsValidSignatureAlgorithmEnum(s: nat): (ok: bool)
    ensures ok <==> s in SignatureAlgorithmCodes
  {
    if s > 3 then false else true
  }

  datatype Signed = Signed(hashAlgo: nat, sigAlgo: nat, sig: Bytes)

  /** What Serialize's SerializeUint asserts accept: each enum fits a byte
      and the signature's length fits two. */
  predicate SerializableSigned(d: Signed)
  {
    d.hashAlgo < 256 && d.sigAlgo < 256 && |d.sig| < 0x1_0000
  }

  /** What ReadFromString can produce: valid enums and a two-byte length. */
  predicate ValidSigned(d: Signed)
  {
    IsValidHashAlgorithmEnum(d.hashAlgo) && IsValidSignatureAlgorithmEnum(d.sigAlgo)
    && |d.sig| < 0x1_0000
  }

  /** DigitallySigned::Serialize: hash byte, signature-algorithm byte,
      two-byte length, signature. */
  function SerializeSigned(d: Signed): (r: Bytes)
    requires SerializableSigned(d)
    ensures |r| == 4 + |d.sig|
    ensures r[0] == d.hashAlgo && r[1] == d.sigAlgo
    ensures ValueOf(r[2..4]) == |d.sig| && r[4..] == d.sig
  {
    var r := BigEndian(d.hashAlgo, 1) + BigEndian(d.sigAlgo, 1) + BigEndian(|d.sig|, 2) + d.sig;
    assert r[2..4] == BigEndian(|d.sig|, 2);
    UintRoundTrip(|d.sig|, 2);
    r
  }

  /** DigitallySigned::ReadFromString on fields whose value is `prior`:
      the number of bytes consumed (0 on failure) and the new fields. */
  function ReadSigned(prior: Signed, data: Bytes): (r: (nat, Signed))
    ensures r.0 == 0 <==>
      (|data| < 4 || !IsValidHashAlgorithmEnum(data[0]) || !IsValidSignatureAlgorithmEnum(data[1])
       || |data| < 4 + ValueOf(data[2..4]))
    ensures r.0 == 0 ==> r.1 == prior
    ensures r.0 != 0 ==>
      ValidSigned(r.1) && r.0 == 4 + |r.1.sig| <= |data| && SerializeSigned(r.1) == data[..r.0]
  {
    if |data| < 4 then (0, prior)
    else
      var h, s := data[0], data[1];
      if !IsValidHashAlgorithmEnum(h) || !IsValidSignatureAlgorithmEnum(s) then (0, prior)
      else
        var sigSize := ValueOf(data[2..4]);
        if |data| < 4 + sigSize then (0, prior)
        else
          var d := Signed(h, s, data[4..4 + sigSize]);
          ValueOfBound(data[2..4]);
          BigEndianOfValue(data[2..4]);
          assert data[..4 + sigSize] == [h] + [s] + data[2..4] + data[4..4 + sigSize];
          (4 + sigSize, d)
  }

  /** DigitallySigned::Deserialize: succeeds only when the input is
      non-empty and ReadFromString consumes all of it. The fields are
      updated whenever ReadFromString succeeds, also when trailing bytes
      then make Deserialize fail. */
  function DeserializeSigned(prior: Signed, data: Bytes): (r: (bool, Signed))
    ensures r.0 ==> ValidSigned(r.1) && SerializeSigned(r.1) == data
  {
    if data == [] then (false, prior)
    else
      var (n, d) := ReadSigned(prior, data);
      (n == |data|, d)
  }

  /** ReadFromString reads exactly one serialized record off the front of
      its input, whatever follows it. */
  lemma ReadSignedPrefix(prior: Signed, d: Signed, rest: Bytes)
    requires ValidSigned(d)
    ensures ReadSigned(prior, SerializeSigned(d) + rest) == (4 + |d.sig|, d)
  {
    var data := SerializeSigned(d) + rest;
    assert data[2..4] == SerializeSigned(d)[2..4];
    var r := ReadSigned(prior, data);
    assert r.0 != 0;
    assert SerializeSigned(r.1) == SerializeSigned(d);
    assert r.1.sig == SerializeSigned(r.1)[4..];
  }

  lemma SignedRoundTrip(prior: Signed, d: Signed)
    requires ValidSigned(d)
    ensures DeserializeSigned(prior, SerializeSigned(d)) == (true, d)
  {
    ReadSignedPrefix(prior, d, []);
    assert SerializeSigned(d) + [] == SerializeSigned(d);
  }

  /** Trailing bytes are rejected, although the fields are still set. */
  lemma SignedRejectsTrailing(prior: Signed, d: Signed, extra: Bytes)
    requires ValidSigned(d) && extra != []
    ensures DeserializeSigned(prior, SerializeSigned(d) + extra) == (false, d)
  {
    ReadSignedPrefix(prior, d, extra);
  }

  class DigitallySigned {
    var hashAlgo: nat
    var sigAlgo: nat
    var sig: Bytes

    constructor (hashAlgo: nat, sigAlgo: nat, sig: Bytes)
      ensures Value() == Signed(hashAlgo, sigAlgo, sig)
    {
      this.hashAlgo, this.sigAlgo, this.sig := hashAlgo, sigAlgo, sig;
    }

    function Value(): Signed
      reads this
    {
      Signed(hashAlgo, sigAlgo, sig)
    }

    method Serialize() returns (result: Bytes)
      requires SerializableSigned(Value())
      ensures result == SerializeSigned(Value())
    {
      result := SerializeUint(hashAlgo, 1);
      var part := SerializeUint(sigAlgo, 1);
      result := result + part;
      part := SerializeUint(|sig|, 2);
      result := result + part;
      result := result + sig;
    }

    method ReadFromString(data: Bytes) returns (n: nat)
      modifies this
      ensures (n, Value()) == ReadSigned(old(Value()), data)
    {
      if |data| < 4 {
        return 0;
      }
      var h, s := data[0], data[1];
      if !IsValidHashAlgorithmEnum(h) || !IsValidSignatureAlgorithmEnum(s) {
        return 0;
      }
      var sigSize := DeserializeUint(data[2..4]);
      if |data| < 4 + sigSize {
        return 0;
      }
      hashAlgo := h;
      sigAlgo := s;
      sig := data[4..4 + sigSize];
      return 4 + sigSize;
    }

    method Deserialize(data: Bytes) returns (ok: bool)
      modifies this
      ensures (ok, Value()) == DeserializeSigned(old(Value()), data)
    {
      if data == [] {
        return false;
      }
      var n := ReadFromString(data);
      ok := n == |data|;
    }
  }

  // ---------------------------------------------------------------------
  // Checkpoints
  // ---------------------------------------------------------------------

  /** SegmentData::TreeType. The enumerators' values are taken to be 0 and
      1 in declaration order. */
  datatype TreeType = LogSegmentTree | SegmentInfoTree

  /** The byte SerializeTreeData writes first: a distinct tag per tree type. */
  function TreeTypeTag(t: TreeType): (tag: Byte)
    ensures tag < 2
    ensures tag == 0 <==> t == LogSegmentTree
  {
    match t
    case LogSegmentTree => 0
    case SegmentInfoTree => 1
  }

  const RootSize := 32
  const Uint32Limit := Pow256(4)

  datatype SegmentCheckpoint =
    SegmentCheckpoint(sequenceNumber: nat, segmentSize: nat, signature: Signed, root: Bytes)

  datatype HeadCheckpoint = HeadCheckpoint(sequenceNumber: nat, signature: Signed, root: Bytes)

  predicate SerializableSegment(c: SegmentCheckpoint)
  {
    c.sequenceNumber < Uint32Limit && c.segmentSize < Uint32Limit
    && SerializableSigned(c.signature) && |c.root| == RootSize
  }

  predicate SerializableHead(c: HeadCheckpoint)
  {
    c.sequenceNumber < Uint32Limit && SerializableSigned(c.signature) && |c.root| == RootSize
  }

  /** LogSegmentCheckpoint::Serialize */
  function SerializeSegment(c: SegmentCheckpoint): (r: Bytes)
    requires SerializableSegment(c)
    ensures |r| == 8 + 4 + |c.signature.sig| + RootSize
  {
    BigEndian(c.sequenceNumber, 4) + BigEndian(c.segmentSize, 4)
    + SerializeSigned(c.signature) + c.root
  }

  /** LogSegmentCheckpoint::SerializeTreeData: tag byte, sequence number,
      segment size, root. */
  function SegmentTreeData(c: SegmentCheckpoint): (r: Bytes)
    requires SerializableSegment(c)
    ensures |r| == 41 && r[0] == TreeTypeTag(LogSegmentTree)
    ensures ValueOf(r[1..5]) == c.sequenceNumber && ValueOf(r[5..9]) == c.segmentSize
    ensures r[9..] == c.root
  {
    var r := BigEndian(TreeTypeTag(LogSegmentTree), 1) + BigEndian(c.sequenceNumber, 4)
      + BigEndian(c.segmentSize, 4) + c.root;
    assert r[1..5] == BigEndian(c.sequenceNumber, 4);
    assert r[5..9] == BigEndian(c.segmentSize, 4);
    UintRoundTrip(c.sequenceNumber, 4);
    UintRoundTrip(c.segmentSize, 4);
    r
  }

  /** LogSegmentCheckpoint::Deserialize on fields valued `prior`. */
  function DeserializeSegment(prior: SegmentCheckpoint, data: Bytes): (r: (bool, SegmentCheckpoint))
    ensures r.0 ==> |data| >= 8 + 4 + RootSize && |r.1.root| == RootSize
    ensures |data| < 8 ==> r == (false, prior)
  {
    if |data| < 8 then (false, prior)
    else
      var c1 := prior.(sequenceNumber := ValueOf(data[..4]), segmentSize := ValueOf(data[4..8]));
      var (n, s) := ReadSigned(prior.signature, data[8..]);
      if n == 0 then (false, c1)
      else
        var c2 := c1.(signature := s);
        if |data| != 8 + n + RootSize then (false, c2)
        else (true, c2.(root := data[8 + n..]))
  }

  predicate ValidSegment(c: SegmentCheckpoint)
  {
    SerializableSegment(c) && ValidSigned(c.signature)
  }

  lemma SegmentRoundTrip(prior: SegmentCheckpoint, c: SegmentCheckpoint)
    requires ValidSegment(c)
    ensures DeserializeSegment(prior, SerializeSegment(c)) == (true, c)
  {
    var data := SerializeSegment(c);
    assert data[..4] == BigEndian(c.sequenceNumber, 4);
    assert data[4..8] == BigEndian(c.segmentSize, 4);
    UintRoundTrip(c.sequenceNumber, 4);
    UintRoundTrip(c.segmentSize, 4);
    assert data[8..] == SerializeSigned(c.signature) + c.root;
    ReadSignedPrefix(prior.signature, c.signature, c.root);
  }

  /** What Deserialize accepts is exactly a serialized checkpoint: in
      particular exactly 32 bytes of root must follow the signature. */
  lemma SegmentAcceptsOnlySerialized(prior: SegmentCheckpoint, data: Bytes)
    requires DeserializeSegment(prior, data).0
    ensures ValidSegment(DeserializeSegment(prior, data).1)
    ensures SerializeSegment(DeserializeSegment(prior, data).1) == data
  {
    var c := DeserializeSegment(prior, data).1;
    var (n, s) := ReadSigned(prior.signature, data[8..]);
    ValueOfBound(data[..4]);
    ValueOfBound(data[4..8]);
    BigEndianOfValue(data[..4]);
    BigEndianOfValue(data[4..8]);
    assert data == data[..4] + data[4..8] + data[8..][..n] + data[8 + n..];
  }

  /** LogHeadCheckpoint::Serialize */
  function SerializeHead(c: HeadCheckpoint): (r: Bytes)
    requires SerializableHead(c)
    ensures |r| == 4 + 4 + |c.signature.sig| + RootSize
  {
    BigEndian(c.sequenceNumber, 4) + SerializeSigned(c.signature) + c.root
  }

  /** LogHeadCheckpoint::SerializeTreeData: tag byte, sequence number, root. */
  function HeadTreeData(c: HeadCheckpoint): (r: Bytes)
    requires SerializableHead(c)
    ensures |r| == 37 && r[0] == TreeTypeTag(SegmentInfoTree)
    ensures ValueOf(r[1..5]) == c.sequenceNumber && r[5..] == c.root
  {
    var r := BigEndian(TreeTypeTag(SegmentInfoTree), 1) + BigEndian(c.sequenceNumber, 4) + c.root;
    assert r[1..5] == BigEndian(c.sequenceNumber, 4);
    UintRoundTrip(c.sequenceNumber, 4);
    r
  }

  /** LogHeadCheckpoint::Deserialize on fields valued `prior`. */
  function DeserializeHead(prior: HeadCheckpoint, data: Bytes): (r: (bool, HeadCheckpoint))
    ensures r.0 ==> |data| >= 4 + 4 + RootSize && |r.1.root| == RootSize
    ensures |data| < 4 ==> r == (false, prior)
  {
    if |data| < 4 then (false, prior)
    else
      var c1 := prior.(sequenceNumber := ValueOf(data[..4]));
      var (n, s) := ReadSigned(prior.signature, data[4..]);
      if n == 0 then (false, c1)
      else
        var c2 := c1.(signature := s);
        if |data| != 4 + n + RootSize then (false, c2)
        else (true, c2.(root := data[4 + n..]))
  }

  predicate ValidHead(c: HeadCheckpoint)
  {
    SerializableHead(c) && ValidSigned(c.signature)
  }

  lemma HeadRoundTrip(prior: HeadCheckpoint, c: HeadCheckpoint)
    requires ValidHead(c)
    ensures DeserializeHead(prior, SerializeHead(c)) == (true, c)
  {
    var data := SerializeHead(c);
    assert data[..4] == BigEndian(c.sequenceNumber, 4);
    UintRoundTrip(c.sequenceNumber, 4);
    assert data[4..] == SerializeSigned(c.signature) + c.root;
    ReadSignedPrefix(prior.signature, c.signature, c.root);
  }

  lemma HeadAcceptsOnlySerialized(prior: HeadCheckpoint, data: Bytes)
    requires DeserializeHead(prior, data).0
    ensures ValidHead(DeserializeHead(prior, data).1)
    ensures SerializeHead(DeserializeHead(prior, data).1) == data
  {
    var (n, s) := ReadSigned(prior.signature, data[4..]);
    ValueOfBound(data[..4]);
    BigEndianOfValue(data[..4]);
    assert data == data[..4] + data[4..][..n] + data[4 + n..];
  }

  class LogSegmentCheckpoint {
    var sequenceNumber: nat
    var segmentSize: nat
    const signature: DigitallySigned
    var root: Bytes

    constructor (c: SegmentCheckpoint)
      ensures Value() == c && fresh(signature)
    {
      sequenceNumber, segmentSize, root := c.sequenceNumber, c.segmentSize, c.root;
      signature := new DigitallySigned(c.signature.hashAlgo, c.signature.sigAlgo, c.signature.sig);
    }

    function Value(): SegmentCheckpoint
      reads this, signature
    {
      SegmentCheckpoint(sequenceNumber, segmentSize, signature.Value(), root)
    }

    method Serialize() returns (result: Bytes)
      requires SerializableSegment(Value())
      ensures result == SerializeSegment(Value())
    {
      result := SerializeUint(sequenceNumber, 4);
      var part := SerializeUint(segmentSize, 4);
      result := result + part;
      part := signature.Serialize();
      result := result + part;
      result := result + root;
    }

    method SerializeTreeData() returns (result: Bytes)
      requires SerializableSegment(Value())
      ensures result == SegmentTreeData(Value())
    {
      result := SerializeUint(TreeTypeTag(LogSegmentTree), 1);
      var part := SerializeUint(sequenceNumber, 4);
      result := result + part;
      part := SerializeUint(segmentSize, 4);
      result := result + part;
      result := result + root;
    }

    method Deserialize(data: Bytes) returns (ok: bool)
      modifies this, signature
      ensures (ok, Value()) == DeserializeSegment(old(Value()), data)
    {
      if |data| < 8 {
        return false;
      }
      sequenceNumber := DeserializeUint(data[..4]);
      segmentSize := DeserializeUint(data[4..8]);
      var pos := 8;
      var sigSize := signature.ReadFromString(data[pos..]);
      if sigSize == 0 {
        return false;
      }
      pos := pos + sigSize;
      if |data| != pos + RootSize {
        return false;
      }
      root := data[pos..];
      return true;
    }
  }

  class LogHeadCheckpoint {
    var sequenceNumber: nat
    const signature: DigitallySigned
    var root: Bytes

    constructor (c: HeadCheckpoint)
      ensures Value() == c && fresh(signature)
    {
      sequenceNumber, root := c.sequenceNumber, c.root;
      signature := new DigitallySigned(c.signature.hashAlgo, c.signature.sigAlgo, c.signature.sig);
    }

    function Value(): HeadCheckpoint
      reads this, signature
    {
      HeadCheckpoint(sequenceNumber, signature.Value(), root)
    }

    method Serialize() returns (result: Bytes)
      requires SerializableHead(Value())
      ensures result == SerializeHead(Value())
    {
      result := SerializeUint(sequenceNumber, 4);
      var part := signature.Serialize();
      result := result + part;
      result := result + root;
    }

    method SerializeTreeData() returns (result: Bytes)
      requires SerializableHead(Value())
      ensures result == HeadTreeData(Value())
    {
      result := SerializeUint(TreeTypeTag(SegmentInfoTree), 1);
      var part := SerializeUint(sequenceNumber, 4);
      result := result + part;
      result := result + root;
    }

    method Deserialize(data: Bytes) returns (ok: bool)
      modifies this, signature
      ensures (ok, Value()) == DeserializeHead(old(Value()), data)
    {
      if |data| < 4 {
        return false;
      }
      sequenceNumber := DeserializeUint(data[..4]);
      var pos := 4;
      var sigSize := signature.ReadFromString(data[pos..]);
      if sigSize == 0 {
        return false;
      }
      pos := pos + sigSize;
      if |data| != pos + RootSize {
        return false;
      }
      root := data[pos..];
      return true;
    }
  }

  // ---------------------------------------------------------------------
  // SegmentData: the segment-info record
  // ---------------------------------------------------------------------

  datatype SegmentDataValue =
    SegmentDataValue(segment: SegmentCheckpoint, head: HeadCheckpoint, timestamp: nat)

  predicate SerializableInfo(v: SegmentDataValue)
  {
    v.segment.sequenceNumber == v.head.sequenceNumber
    && v.segment.sequenceNumber < Uint32Limit && v.timestamp < Uint32Limit
    && v.segment.segmentSize < Uint32Limit
    && SerializableSigned(v.segment.signature) && SerializableSigned(v.head.signature)
  }

  /** SegmentData::SerializeSegmentInfo: sequence number, timestamp, segment
      size, then both signatures; the roots are not part of it. */
  function SerializeInfo(v: SegmentDataValue): (r: Bytes)
    requires SerializableInfo(v)
    ensures |r| == 12 + 4 + |v.segment.signature.sig| + 4 + |v.head.signature.sig|
  {
    BigEndian(v.segment.sequenceNumber, 4) + BigEndian(v.timestamp, 4)
    + BigEndian(v.segment.segmentSize, 4)
    + SerializeSigned(v.segment.signature) + SerializeSigned(v.head.signature)
  }

  /** SegmentData::DeserializeSegmentInfo on fields valued `prior`. */
  function DeserializeInfo(prior: SegmentDataValue, data: Bytes): (r: (bool, SegmentDataValue))
    ensures r.1.segment.root == prior.segment.root && r.1.head.root == prior.head.root
    ensures |data| >= 12 ==> r.1.segment.sequenceNumber == r.1.head.sequenceNumber
  {
    if |data| < 12 then (false, prior)
    else
      var s := ValueOf(data[..4]);
      var v1 := prior.(segment := prior.segment.(sequenceNumber := s, segmentSize := ValueOf(data[8..12])),
                       head := prior.head.(sequenceNumber := s),
                       timestamp := ValueOf(data[4..8]));
      var (n, sig1) := ReadSigned(prior.segment.signature, data[12..]);
      if n == 0 then (false, v1)
      else
        var v2 := v1.(segment := v1.segment.(signature := sig1));
        var (ok, sig2) := DeserializeSigned(prior.head.signature, data[12 + n..]);
        (ok, v2.(head := v2.head.(signature := sig2)))
  }

  predicate ValidInfo(v: SegmentDataValue)
  {
    SerializableInfo(v) && ValidSigned(v.segment.signature) && ValidSigned(v.head.signature)
  }

  /** Everything SerializeSegmentInfo writes is read back; the roots, which
      it does not write, keep their prior value. */
  lemma SegmentInfoRoundTrip(prior: SegmentDataValue, v: SegmentDataValue)
    requires ValidInfo(v)
    ensures DeserializeInfo(prior, SerializeInfo(v))
         == (true, v.(segment := v.segment.(root := prior.segment.root),
                      head := v.head.(root := prior.head.root)))
  {
    var data := SerializeInfo(v);
    assert data[..4] == BigEndian(v.segment.sequenceNumber, 4);
    assert data[4..8] == BigEndian(v.timestamp, 4);
    assert data[8..12] == BigEndian(v.segment.segmentSize, 4);
    UintRoundTrip(v.segment.sequenceNumber, 4);
    UintRoundTrip(v.timestamp, 4);
    UintRoundTrip(v.segment.segmentSize, 4);
    var s2 := SerializeSigned(v.head.signature);
    assert data[12..] == SerializeSigned(v.segment.signature) + s2;
    ReadSignedPrefix(prior.segment.signature, v.segment.signature, s2);
    var n := 4 + |v.segment.signature.sig|;
    assert data[12 + n..] == s2;
    SignedRoundTrip(prior.head.signature, v.head.signature);
  }

  class SegmentData {
    const logSegment: LogSegmentCheckpoint
    const logHead: LogHeadCheckpoint
    var timestamp: nat

    ghost predicate Valid()
    {
      logSegment.signature != logHead.signature
    }

    constructor (v: SegmentDataValue)
      ensures Valid() && Value() == v
    {
      logSegment := new LogSegmentCheckpoint(v.segment);
      logHead := new LogHeadCheckpoint(v.head);
      timestamp := v.timestamp;
    }

    function Value(): SegmentDataValue
      reads this, logSegment, logSegment.signature, logHead, logHead.signature
    {
      SegmentDataValue(logSegment.Value(), logHead.Value(), timestamp)
    }

    method SerializeSegmentInfo() returns (result: Bytes)
      requires SerializableInfo(Value())
      ensures result == SerializeInfo(Value())
    {
      result := SerializeUint(logSegment.sequenceNumber, 4);
      var part := SerializeUint(timestamp, 4);
      result := result + part;
      part := SerializeUint(logSegment.segmentSize, 4);
      result := result + part;
      part := logSegment.signature.Serialize();
      result := result + part;
      part := logHead.signature.Serialize();
      result := result + part;
    }

    method DeserializeSegmentInfo(data: Bytes) returns (ok: bool)
      requires Valid()
      modifies this, logSegment, logSegment.signature, logHead, logHead.signature
      ensures (ok, Value()) == DeserializeInfo(old(Value()), data)
    {
      var pos := 12;
      if |data| < pos {
        return false;
      }
      logSegment.sequenceNumber := DeserializeUint(data[..4]);
      logHead.sequenceNumber := logSegment.sequenceNumber;
      timestamp := DeserializeUint(data[4..8]);
      logSegment.segmentSize := DeserializeUint(data[8..12]);
      var sig1Size := logSegment.signature.ReadFromString(data[12..]);
      if sig1Size == 0 {
        return false;
      }
      ok := logHead.signature.Deserialize(data[12 + sig1Size..]);
    }
  }

  // ---------------------------------------------------------------------
  // AuditProof
  // ---------------------------------------------------------------------

  const PathEntrySize := 32

  datatype Proof = Proof(treeType: TreeType, sequenceNumber: nat, treeSize: nat, leafIndex: nat,
                         signature: Signed, auditPath: seq<Bytes>)

  predicate SerializableProof(p: Proof)
  {
    p.sequenceNumber < Uint32Limit && p.leafIndex < Uint32Limit
    && (p.treeType == LogSegmentTree ==> p.treeSize < Uint32Limit)
    && SerializableSigned(p.signature)
    && forall i :: 0 <= i < |p.auditPath| ==> |p.auditPath[i]| == PathEntrySize
  }

  function Flatten(path: seq<Bytes>): (r: Bytes)
    ensures path == [] ==> r == []
  {
    if path == [] then [] else Flatten(path[..|path| - 1]) + path[|path| - 1]
  }

  /** The 32-byte entries a byte string whose length is a multiple of 32
      splits into. */
  function Chunks(rest: Bytes): (r: seq<Bytes>)
    requires |rest| % PathEntrySize == 0
    ensures |r| == |rest| / PathEntrySize
    ensures forall i :: 0 <= i < |r| ==> |r[i]| == PathEntrySize
    ensures Flatten(r) == rest
    decreases |rest|
  {
    if rest == [] then []
    else
      var r := [rest[..PathEntrySize]] + Chunks(rest[PathEntrySize..]);
      FlattenCons(rest[..PathEntrySize], Chunks(rest[PathEntrySize..]));
      r
  }

  lemma {:induction false} FlattenCons(x: Bytes, path: seq<Bytes>)
    ensures Flatten([x] + path) == x + Flatten(path)
    decreases |path|
  {
    if path != [] {
      var l := [x] + path;
      assert l[..|l| - 1] == [x] + path[..|path| - 1];
      FlattenCons(x, path[..|path| - 1]);
    }
  }

  lemma {:induction false} FlattenLength(path: seq<Bytes>)
    requires forall i :: 0 <= i < |path| ==> |path[i]| == PathEntrySize
    ensures |Flatten(path)| == PathEntrySize * |path|
    decreases |path|
  {
    if path != [] {
      FlattenLength(path[..|path| - 1]);
    }
  }

  /** Splitting a flattened path of 32-byte entries gives the entries back. */
  lemma {:induction false} ChunksOfFlatten(path: seq<Bytes>)
    requires forall i :: 0 <= i < |path| ==> |path[i]| == PathEntrySize
    ensures |Flatten(path)| % PathEntrySize == 0 && Chunks(Flatten(path)) == path
    decreases |path|
  {
    FlattenLength(path);
    if path != [] {
      var tail := path[1..];
      assert path == [path[0]] + tail;
      FlattenCons(path[0], tail);
      FlattenLength(tail);
      ChunksOfFlatten(tail);
      var f := Flatten(path);
      assert f[..PathEntrySize] == path[0];
      assert f[PathEntrySize..] == Flatten(tail);
    }
  }

  /** AuditProof::Serialize. */
  function SerializeProof(p: Proof): (r: Bytes)
    requires SerializableProof(p)
    ensures |r| == (if p.treeType == LogSegmentTree then 12 else 8) + 4 + |p.signature.sig|
                   + PathEntrySize * |p.auditPath|
  {
    FlattenLength(p.auditPath);
    ProofFields(p) + SerializeSigned(p.signature) + Flatten(p.auditPath)
  }

  /** Where the signature starts: after the sequence number, the tree size
      of a log-segment proof, and the leaf index. */
  function SignatureOffset(t: TreeType): nat
  {
    if t == LogSegmentTree then 8 else 4
  }

  /** The fixed-width fields Serialize writes before the signature. */
  function ProofFields(p: Proof): (r: Bytes)
    requires SerializableProof(p)
    ensures |r| == SignatureOffset(p.treeType) + 4
    ensures r[..4] == BigEndian(p.sequenceNumber, 4)
    ensures p.treeType == LogSegmentTree ==> r[4..8] == BigEndian(p.treeSize, 4)
    ensures r[SignatureOffset(p.treeType)..] == BigEndian(p.leafIndex, 4)
  {
    BigEndian(p.sequenceNumber, 4)
    + (if p.treeType == LogSegmentTree then BigEndian(p.treeSize, 4) else [])
    + BigEndian(p.leafIndex, 4)
  }

  /** A serialized proof followed by more bytes: the fixed fields, then the
      signature, then the path bytes and the extra ones. */
  lemma ProofSplit(p: Proof, extra: Bytes)
    requires SerializableProof(p)
    ensures SerializeProof(p) + extra
            == ProofFields(p) + (SerializeSigned(p.signature) + (Flatten(p.auditPath) + extra))
  {
    var f, sig, path := ProofFields(p), SerializeSigned(p.signature), Flatten(p.auditPath);
    AppendAssoc(f + sig, path, extra);
    AppendAssoc(f, sig, path + extra);
  }

  /** AuditProof::Deserialize(type, proof) on fields valued `prior`. */
  function DeserializeProof(prior: Proof, t: TreeType, proof: Bytes): (r: (bool, Proof))
    ensures r.1.treeType == t
    ensures r.0 ==> forall i :: 0 <= i < |r.1.auditPath| ==> |r.1.auditPath[i]| == PathEntrySize
    ensures r.0 && t == SegmentInfoTree ==> r.1.treeSize == r.1.sequenceNumber + 1
  {
    var (ok, p3) := ReadProofFields(prior, t, proof);
    if !ok then (false, p3)
    else ReadProofTail(p3, proof[SignatureOffset(t) + 4..])
  }

  /** The first part of AuditProof::Deserialize: the fixed-width fields,
      each set as soon as it is read. */
  function ReadProofFields(prior: Proof, t: TreeType, proof: Bytes): (r: (bool, Proof))
    ensures r.1.treeType == t && r.1.signature == prior.signature && r.1.auditPath == prior.auditPath
    ensures r.0 <==> |proof| >= SignatureOffset(t) + 4
    ensures r.0 && t == SegmentInfoTree ==> r.1.treeSize == r.1.sequenceNumber + 1
  {
    var p0 := prior.(treeType := t);
    if |proof| < 4 then (false, p0)
    else
      var p1 := p0.(sequenceNumber := ValueOf(proof[..4]));
      if t == LogSegmentTree && |proof| < 8 then (false, p1)
      else
        var pos := SignatureOffset(t);
        var p2 := p1.(treeSize := if t == LogSegmentTree then ValueOf(proof[4..8])
                                  else p1.sequenceNumber + 1);
        if |proof| < pos + 4 then (false, p2)
        else (true, p2.(leafIndex := ValueOf(proof[pos..pos + 4])))
  }

  /** The rest of AuditProof::Deserialize: the signature, then the path. */
  function ReadProofTail(p3: Proof, rest: Bytes): (r: (bool, Proof))
    ensures r.1.(signature := p3.signature, auditPath := p3.auditPath) == p3
    ensures r.0 ==> forall i :: 0 <= i < |r.1.auditPath| ==> |r.1.auditPath[i]| == PathEntrySize
  {
    var (n, s) := ReadSigned(p3.signature, rest);
    if n == 0 then (false, p3)
    else
      var p4 := p3.(signature := s);
      var path := rest[n..];
      if |path| % PathEntrySize != 0 then (false, p4)
      else (true, p4.(auditPath := Chunks(path)))
  }

  /** Whole path entries do not change the remainder modulo the entry
      size. */
  lemma PathLengthMod(k: nat, x: nat)
    ensures (PathEntrySize * k + x) % PathEntrySize == x % PathEntrySize
  {
    DivModUnique(PathEntrySize * k + x, PathEntrySize, k + x / PathEntrySize, x % PathEntrySize);
  }

  /** The fixed fields Serialize wrote are read back, a segment-info
      proof's tree size as its sequence number plus one. */
  lemma FieldsReadBack(prior: Proof, p: Proof, rest: Bytes)
    requires SerializableProof(p)
    ensures ReadProofFields(prior, p.treeType, ProofFields(p) + rest)
         == (true, prior.(treeType := p.treeType, sequenceNumber := p.sequenceNumber,
                          treeSize := if p.treeType == LogSegmentTree then p.treeSize
                                      else p.sequenceNumber + 1,
                          leafIndex := p.leafIndex))
  {
    var f := ProofFields(p);
    var data := f + rest;
    var pos := SignatureOffset(p.treeType);
    PrefixOfAppend(f, rest, |f|);
    assert data[..4] == f[..4];
    UintRoundTrip(p.sequenceNumber, 4);
    if p.treeType == LogSegmentTree {
      assert data[4..8] == f[4..8];
      UintRoundTrip(p.treeSize, 4);
    }
    assert data[pos..pos + 4] == f[pos..];
    UintRoundTrip(p.leafIndex, 4);
  }

  /** The signature Serialize wrote is read back, and the bytes after it
      are accepted exactly when they are whole path entries. */
  lemma TailReadBack(q: Proof, d: Signed, rest: Bytes)
    requires ValidSigned(d)
    ensures var r := ReadProofTail(q, SerializeSigned(d) + rest);
      r.0 == (|rest| % PathEntrySize == 0)
      && r.1.signature == d
      && (r.0 ==> r.1.auditPath == Chunks(rest))
      && (!r.0 ==> r.1.auditPath == q.auditPath)
  {
    ReadSignedPrefix(q.signature, d, rest);
    SuffixOfAppend(SerializeSigned(d), rest);
  }

  predicate ValidProof(p: Proof)
  {
    SerializableProof(p) && ValidSigned(p.signature)
  }

  /** For a log-segment proof, Deserialize inverts Serialize. */
  lemma SegmentProofRoundTrip(prior: Proof, p: Proof)
    requires ValidProof(p) && p.treeType == LogSegmentTree
    ensures DeserializeProof(prior, LogSegmentTree, SerializeProof(p)) == (true, p)
  {
    ProofRoundTrip(prior, p);
  }

  /** A segment-info proof carries no tree size: it is read back as the
      sequence number plus one, and everything else is restored. */
  lemma InfoProofRoundTrip(prior: Proof, p: Proof)
    requires ValidProof(p) && p.treeType == SegmentInfoTree
    ensures DeserializeProof(prior, SegmentInfoTree, SerializeProof(p))
         == (true, p.(treeSize := p.sequenceNumber + 1))
  {
    ProofRoundTrip(prior, p);
  }

  lemma ProofRoundTrip(prior: Proof, p: Proof)
    requires ValidProof(p)
    ensures DeserializeProof(prior, p.treeType, SerializeProof(p))
         == (true, if p.treeType == LogSegmentTree then p else p.(treeSize := p.sequenceNumber + 1))
  {
    var empty: Bytes := [];
    var f := ProofFields(p);
    var tail := SerializeSigned(p.signature) + (Flatten(p.auditPath) + empty);
    ProofSplit(p, empty);
    assert SerializeProof(p) + empty == SerializeProof(p);
    FieldsReadBack(prior, p, tail);
    SuffixOfAppend(f, tail);
    TailReadBack(ReadProofFields(prior, p.treeType, f + tail).1, p.signature, Flatten(p.auditPath) + empty);
    assert Flatten(p.auditPath) + empty == Flatten(p.auditPath);
    ChunksOfFlatten(p.auditPath);
  }

  /** A path whose byte count is not a multiple of 32 is rejected. */
  lemma ProofRejectsRaggedPath(prior: Proof, p: Proof, extra: Bytes)
    requires ValidProof(p) && |extra| % PathEntrySize != 0
    ensures !DeserializeProof(prior, p.treeType, SerializeProof(p) + extra).0
  {
    var f := ProofFields(p);
    var tail := SerializeSigned(p.signature) + (Flatten(p.auditPath) + extra);
    ProofSplit(p, extra);
    FieldsReadBack(prior, p, tail);
    SuffixOfAppend(f, tail);
    TailReadBack(ReadProofFields(prior, p.treeType, f + tail).1, p.signature, Flatten(p.auditPath) + extra);
    FlattenLength(p.auditPath);
    PathLengthMod(|p.auditPath|, |extra|);
  }

  /** The loop at the end of AuditProof::Deserialize: cut the rest of the
      input into 32-byte path entries, front to back. */
  method ReadAuditPath(rest: Bytes) returns (path: seq<Bytes>)
    requires |rest| % PathEntrySize == 0
    ensures path == Chunks(rest)
  {
    path := [];
    var pos := 0;
    while rest[pos..] != []
      invariant 0 <= pos <= |rest| && |rest[pos..]| % PathEntrySize == 0
      invariant Chunks(rest) == path + Chunks(rest[pos..])
      decreases |rest| - pos
    {
      assert rest[pos..][..PathEntrySize] == rest[pos..pos + PathEntrySize];
      assert rest[pos..][PathEntrySize..] == rest[pos + PathEntrySize..];
      path := path + [rest[pos..pos + PathEntrySize]];
      pos := pos + PathEntrySize;
    }
    assert rest[pos..] == [];
  }

  /** The loop of AuditProof::Serialize: the path entries appended in
      order. */
  method AppendPath(header: Bytes, path: seq<Bytes>) returns (result: Bytes)
    ensures result == header + Flatten(path)
  {
    result := header;
    for i := 0 to |path|
      invariant result == header + Flatten(path[..i])
    {
      assert path[..i + 1][..i] == path[..i];
      result := result + path[i];
    }
    assert path[..|path|] == path;
  }

  class AuditProof {
    var treeType: TreeType
    var sequenceNumber: nat
    var treeSize: nat
    var leafIndex: nat
    const signature: DigitallySigned
    var auditPath: seq<Bytes>

    constructor (p: Proof)
      ensures Value() == p && fresh(signature)
    {
      treeType, sequenceNumber, treeSize, leafIndex, auditPath :=
        p.treeType, p.sequenceNumber, p.treeSize, p.leafIndex, p.auditPath;
      signature := new DigitallySigned(p.signature.hashAlgo, p.signature.sigAlgo, p.signature.sig);
    }

    function Value(): Proof
      reads this, signature
    {
      Proof(treeType, sequenceNumber, treeSize, leafIndex, signature.Value(), auditPath)
    }

    method Serialize() returns (result: Bytes)
      requires SerializableProof(Value())
      ensures result == SerializeProof(Value())
    {
      result := SerializeUint(sequenceNumber, 4);
      var part;
      if treeType == LogSegmentTree {
        part := SerializeUint(treeSize, 4);
        result := result + part;
      }
      part := SerializeUint(leafIndex, 4);
      result := result + part;
      assert result == ProofFields(Value());
      part := signature.Serialize();
      result := result + part;
      result := AppendPath(result, auditPath);
    }

    method Deserialize(t: TreeType, proof: Bytes) returns (ok: bool)
      modifies this, signature
      ensures (ok, Value()) == DeserializeProof(old(Value()), t, proof)
    {
      ok := ReadFields(t, proof);
      if !ok {
        return;
      }
      ok := ReadTail(proof[SignatureOffset(t) + 4..]);
    }

    /** Deserialize up to the signature. */
    method ReadFields(t: TreeType, proof: Bytes) returns (ok: bool)
      modifies this
      ensures (ok, Value()) == ReadProofFields(old(Value()), t, proof)
    {
      treeType := t;
      var pos := 0;
      if |proof| < pos + 4 {
        return false;
      }
      sequenceNumber := DeserializeUint(proof[pos..pos + 4]);
      pos := pos + 4;
      if treeType == LogSegmentTree {
        if |proof| < pos + 4 {
          return false;
        }
        treeSize := DeserializeUint(proof[pos..pos + 4]);
        pos := pos + 4;
      } else {
        treeSize := sequenceNumber + 1;
      }
      if |proof| < pos + 4 {
        return false;
      }
      leafIndex := DeserializeUint(proof[pos..pos + 4]);
      return true;
    }

    /** Deserialize from the signature on. */
    method ReadTail(rest: Bytes) returns (ok: bool)
      modifies this, signature
      ensures (ok, Value()) == ReadProofTail(old(Value()), rest)
    {
      var sigSize := signature.ReadFromString(rest);
      if sigSize == 0 {
        return false;
      }
      if |rest[sigSize..]| % PathEntrySize != 0 {
        return false;
      }
      auditPath := ReadAuditPath(rest[sigSize..]);
      return true;
    }
  }
}
