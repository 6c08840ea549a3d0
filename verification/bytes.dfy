/** Byte strings and the big-endian two's-complement `long` encoding that a
    `ByteBuffer` uses for `getLong`: an entry travels with a 16-byte prefix,
    the ledger id followed by the entry id. */
module Bytes {
  import opened MachineInts

  newtype Byte = x: int | 0 <= x < 256

  /** Width of one encoded `long`. */
  const LongWidth: nat := 8

  /** Width of the `(ledgerId, entryId)` prefix of every entry. */
  const HeaderWidth: nat := 16

  function Pow256(n: nat): (r: nat)
    ensures r > 0
  {
    if n == 0 then 1 else 256 * Pow256(n - 1)
  }

  lemma Pow256Long()
    ensures Pow256(LongWidth) == TwoTo64
  {
    assert Pow256(1) == 0x100;
    assert Pow256(2) == 0x1_0000;
    assert Pow256(3) == 0x100_0000;
    assert Pow256(4) == 0x1_0000_0000;
    assert Pow256(5) == 0x100_0000_0000;
    assert Pow256(6) == 0x1_0000_0000_0000;
    assert Pow256(7) == 0x100_0000_0000_0000;
  }

  /** The unsigned value of `b` read most significant byte first. */
  function BigEndian(b: seq<Byte>): (r: nat)
    ensures r < Pow256(|b|)
  {
    if |b| == 0 then 0
    else
      var hi := BigEndian(b[..|b| - 1]);
      assert hi <= Pow256(|b| - 1) - 1;
      assert hi * 256 <= Pow256(|b|) - 256;
      hi * 256 + b[|b| - 1] as int
  }

  /** The `width`-byte big-endian representation of `n`. */
  function ToBigEndian(n: nat, width: nat): (b: seq<Byte>)
    requires n < Pow256(width)
    ensures |b| == width
  {
    if width == 0 then []
    else ToBigEndian(n / 256, width - 1) + [(n % 256) as Byte]
  }

  lemma {:induction false} BigEndianOfToBigEndian(n: nat, width: nat)
    requires n < Pow256(width)
    ensures BigEndian(ToBigEndian(n, width)) == n
  {
    if width > 0 {
      var b := ToBigEndian(n, width);
      assert b[..|b| - 1] == ToBigEndian(n / 256, width - 1);
      BigEndianOfToBigEndian(n / 256, width - 1);
    }
  }

  lemma {:induction false} ToBigEndianOfBigEndian(b: seq<Byte>)
    ensures ToBigEndian(BigEndian(b), |b|) == b
  {
    if |b| > 0 {
      var pre := b[..|b| - 1];
      var n := BigEndian(b);
      assert n / 256 == BigEndian(pre);
      assert n % 256 == b[|b| - 1] as int;
      ToBigEndianOfBigEndian(pre);
      assert b == pre + [b[|b| - 1]];
    }
  }

  /** Reinterprets an unsigned 64-bit pattern as a two's-complement `long`. */
  function ToLong(u: nat): (v: Int64)
    requires u < TwoTo64
    ensures (v - u) % TwoTo64 == 0
    ensures v >= 0 <==> u < TwoTo63
  {
    if u < TwoTo63 then u else u - TwoTo64
  }

  /** The unsigned 64-bit pattern of a `long`. */
  function FromLong(v: Int64): (u: nat)
    ensures u < TwoTo64
    ensures ToLong(u) == v
  {
    if v < 0 then v + TwoTo64 else v
  }

  lemma FromLongOfToLong(u: nat)
    requires u < TwoTo64
    ensures FromLong(ToLong(u)) == u
  {
  }

  /** The most significant byte contributes its value times 256^(n-1). */
  lemma {:induction false} BigEndianFirst(b: seq<Byte>)
    requires |b| > 0
    ensures BigEndian(b) == b[0] as int * Pow256(|b| - 1) + BigEndian(b[1..])
  {
    if |b| > 1 {
      var pre := b[..|b| - 1];
      BigEndianFirst(pre);
      assert pre[1..] == b[1..][..|b| - 2];
      assert pre[0] == b[0];
      calc {
        BigEndian(b);
        BigEndian(pre) * 256 + b[|b| - 1] as int;
        (b[0] as int * Pow256(|b| - 2) + BigEndian(pre[1..])) * 256 + b[|b| - 1] as int;
        b[0] as int * Pow256(|b| - 1) + (BigEndian(b[1..][..|b| - 2]) * 256 + b[|b| - 1] as int);
      }
    } else {
      assert b[1..] == [];
      assert b[..0] == [];
    }
  }

  /** `ByteBuffer.getLong` at absolute index `at`: the eight bytes there as a
      two's-complement number, negative exactly when the top bit of the first
      byte is set. */
  function GetLong(buf: seq<Byte>, at: nat): (v: Int64)
    requires at + LongWidth <= |buf|
    ensures (v - BigEndian(buf[at..at + LongWidth])) % TwoTo64 == 0
    ensures v < 0 <==> buf[at] >= 128
  {
    Pow256Long();
    var w := buf[at..at + LongWidth];
    BigEndianFirst(w);
    assert Pow256(LongWidth - 1) == 0x100_0000_0000_0000 by {
      assert 256 * Pow256(LongWidth - 1) == TwoTo64;
    }
    ToLong(BigEndian(w))
  }

  /** `ByteBuffer.putLong`: the eight bytes that `GetLong` reads back as `v`. */
  function PutLong(v: Int64): (b: seq<Byte>)
    ensures |b| == LongWidth
    ensures GetLong(b, 0) == v
  {
    Pow256Long();
    var b := ToBigEndian(FromLong(v), LongWidth);
    BigEndianOfToBigEndian(FromLong(v), LongWidth);
    assert b[0..LongWidth] == b;
    b
  }

  /** The eight bytes at `at` are exactly the encoding of the `long` read there. */
  lemma PutLongOfGetLong(buf: seq<Byte>, at: nat)
    requires at + LongWidth <= |buf|
    ensures PutLong(GetLong(buf, at)) == buf[at..at + LongWidth]
  {
    Pow256Long();
    var w := buf[at..at + LongWidth];
    FromLongOfToLong(BigEndian(w));
    ToBigEndianOfBigEndian(w);
  }

  /** The prefix a client writes in front of an entry's payload. */
  function EntryHeader(ledgerId: Int64, entryId: Int64): (h: seq<Byte>)
    ensures |h| == HeaderWidth
  {
    PutLong(ledgerId) + PutLong(entryId)
  }

  /** Whether `buf` starts with the header of entry `entryId` of ledger `ledgerId`. */
  predicate Identifies(buf: seq<Byte>, ledgerId: Int64, entryId: Int64)
  {
    |buf| >= HeaderWidth && GetLong(buf, 0) == ledgerId && GetLong(buf, LongWidth) == entryId
  }

  /** A header followed by any payload reads back as the ids that built it. */
  lemma HeaderRoundTrip(ledgerId: Int64, entryId: Int64, payload: seq<Byte>)
    ensures Identifies(EntryHeader(ledgerId, entryId) + payload, ledgerId, entryId)
  {
    var l := PutLong(ledgerId);
    var e := PutLong(entryId);
    var buf := l + e + payload;
    assert buf[0..LongWidth] == l[0..LongWidth];
    assert buf[LongWidth..2 * LongWidth] == e[0..LongWidth];
  }

  /** Conversely, every buffer of at least 16 bytes is the header of the ids it
      carries followed by the rest of the buffer. */
  lemma HeaderSplit(buf: seq<Byte>)
    requires |buf| >= HeaderWidth
    ensures buf == EntryHeader(GetLong(buf, 0), GetLong(buf, LongWidth)) + buf[HeaderWidth..]
  {
    PutLongOfGetLong(buf, 0);
    PutLongOfGetLong(buf, LongWidth);
    assert buf == buf[0..LongWidth] + buf[LongWidth..HeaderWidth] + buf[HeaderWidth..];
  }
}
