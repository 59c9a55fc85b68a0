/** Packing a table: the records are strung together, cut into blocks of one size and compressed block by
    block, with a list of where each block begins. */
module Compress {
  import opened Bytes

  /** The records one after the other. */
  function Strung(records: seq<seq<Raw>>): seq<Raw> {
    if records == [] then [] else Strung(records[..|records| - 1]) + records[|records| - 1]
  }

  /** Every record keeps its place: it takes up its width, from its number times the width on. */
  lemma {:induction false} StrungAt(records: seq<seq<Raw>>, width: nat, i: nat)
    requires i < |records| && forall k :: 0 <= k < |records| ==> |records[k]| == width
    ensures |Strung(records)| == |records| * width
    ensures i * width + width <= |records| * width
    ensures Strung(records)[i * width..i * width + width] == records[i]
  {
    StrungLength(records, width);
    Gap(i, |records|, width);
    var n := |records| - 1;
    StrungLength(records[..n], width);
    if i < n {
      Gap(i, n, width);
      StrungAt(records[..n], width, i);
    }
  }

  function Padding(n: nat): seq<Raw> {
    Repeat(n, 0)
  }

  /** How many blocks are set aside for so many bytes. */
  function BlockCount(bytes: nat, size: nat): nat
    requires size > 0
  {
    bytes / size + 1
  }

  lemma {:induction false} Gap(a: nat, b: nat, size: nat)
    requires a < b
    ensures a * size + size <= b * size
  {
    assert b * size == (a + 1) * size + (b - a - 1) * size;
  }

  lemma {:induction false} Quotient(bytes: nat, size: nat, q: nat)
    requires size > 0 && q * size <= bytes < q * size + size
    ensures bytes / size == q
  {
    var d := bytes / size;
    if d < q { Gap(d, q, size); }
    if q < d { Gap(q, d, size); }
  }

  /** A block that fits is one of those set aside. */
  lemma {:induction false} Fits(bytes: nat, size: nat, k: nat)
    requires size > 0 && k * size <= bytes
    ensures k < BlockCount(bytes, size)
  {
    if bytes / size < k { Gap(bytes / size, k, size); }
  }

  // ----- blocks -----

  /** The bytes from the start of block `k` on, filled up with zeros. */
  function Block(data: seq<Raw>, size: nat, k: nat): (b: seq<Raw>)
    requires k * size <= |data|
    ensures |b| == size
  {
    if k * size + size <= |data| then data[k * size..k * size + size]
    else data[k * size..] + Padding(k * size + size - |data|)
  }

  lemma {:induction false} BlockStart(size: nat, j: nat, k: nat)
    requires j <= k
    ensures j * size <= k * size
  {
    if j < k { Gap(j, k, size); }
  }

  function Packed(data: seq<Raw>, size: nat, pack: seq<Raw> -> seq<Raw>, n: nat): seq<Raw>
    requires n == 0 || (n - 1) * size <= |data|
  {
    if n == 0 then []
    else
      BlockStart(size, if n == 1 then 0 else n - 2, n - 1);
      Packed(data, size, pack, n - 1) + pack(Block(data, size, n - 1))
  }

  function Joined(data: seq<Raw>, size: nat, n: nat): seq<Raw>
    requires n == 0 || (n - 1) * size <= |data|
  {
    if n == 0 then []
    else
      BlockStart(size, if n == 1 then 0 else n - 2, n - 1);
      Joined(data, size, n - 1) + Block(data, size, n - 1)
  }

  /** Whole blocks joined give back the data they were cut from. */
  lemma {:induction false} JoinedWhole(data: seq<Raw>, size: nat, n: nat)
    requires n * size <= |data|
    ensures n == 0 || (n - 1) * size <= |data|
    ensures Joined(data, size, n) == data[..n * size]
  {
    if n > 0 {
      Gap(n - 1, n, size);
      JoinedWhole(data, size, n - 1);
      assert (n - 1) * size + size == n * size;
      assert data[..n * size] == data[..(n - 1) * size] + data[(n - 1) * size..n * size];
    }
  }

  lemma {:induction false} LastBlock(bytes: nat, size: nat)
    requires size > 0
    ensures var q := bytes / size;
            q * size <= bytes < q * size + size && q * size + size == (q + 1) * size
  {
  }

  lemma {:induction false} JoinedTo(data: seq<Raw>, size: nat, q: nat)
    requires q * size <= |data| < q * size + size
    ensures Joined(data, size, q + 1) == data + Padding(q * size + size - |data|)
  {
    JoinedWhole(data, size, q);
    JoinedSnoc(data, size, q);
    hide Joined;
    assert data == data[..q * size] + data[q * size..];
  }

  /** The blocks of a table joined are its records, filled up with zeros to a whole number of blocks. */
  lemma {:induction false} JoinedAll(data: seq<Raw>, size: nat)
    requires size > 0
    ensures (BlockCount(|data|, size) - 1) * size <= |data| < BlockCount(|data|, size) * size
    ensures Joined(data, size, BlockCount(|data|, size)) == data + Padding(BlockCount(|data|, size) * size - |data|)
  {
    hide Joined;
    LastBlock(|data|, size);
    JoinedTo(data, size, |data| / size);
  }

  lemma {:induction false} JoinedSnoc(data: seq<Raw>, size: nat, q: nat)
    requires q * size <= |data| && (q == 0 || (q - 1) * size <= |data|)
    ensures Joined(data, size, q + 1) == Joined(data, size, q) + Block(data, size, q)
  {
  }

  lemma {:induction false} BlockGrows(data: seq<Raw>, more: seq<Raw>, size: nat, k: nat)
    requires k * size + size <= |data|
    ensures Block(data + more, size, k) == Block(data, size, k)
  {
    assert (data + more)[k * size..k * size + size] == data[k * size..k * size + size];
  }

  /** Blocks that are full stay as they are while records are added. */
  lemma {:induction false} PackedGrows(data: seq<Raw>, more: seq<Raw>, size: nat, pack: seq<Raw> -> seq<Raw>, n: nat)
    requires n * size <= |data|
    ensures n == 0 || (n - 1) * size <= |data|
    ensures Packed(data + more, size, pack, n) == Packed(data, size, pack, n)
  {
    if n > 0 {
      Gap(n - 1, n, size);
      PackedGrows(data, more, size, pack, n - 1);
      BlockGrows(data, more, size, n - 1);
    }
  }

  // ----- packing -----

  /** The packed bytes before block `k`, where `k` is at most the first block that is not full. */
  ghost function Before(data: seq<Raw>, size: nat, pack: seq<Raw> -> seq<Raw>, k: nat): seq<Raw>
    requires k * size <= |data|
  {
    if k > 0 then
      Gap(k - 1, k, size);
      Packed(data, size, pack, k)
    else []
  }

  lemma {:induction false} BeforeNext(data: seq<Raw>, size: nat, pack: seq<Raw> -> seq<Raw>, k: nat)
    requires k * size <= |data|
    ensures Before(data, size, pack, k) == Packed(data, size, pack, k)
    ensures Packed(data, size, pack, k + 1) == Before(data, size, pack, k) + pack(Block(data, size, k))
  {
    if k > 0 { Gap(k - 1, k, size); }
  }

  lemma {:induction false} BeforeGrows(data: seq<Raw>, more: seq<Raw>, size: nat, pack: seq<Raw> -> seq<Raw>, k: nat)
    requires k * size <= |data|
    ensures Before(data + more, size, pack, k) == Before(data, size, pack, k)
  {
    PackedGrows(data, more, size, pack, k);
  }

  /** Where block `k` begins. */
  ghost predicate OffsetAt(offset: nat, start: nat, data: seq<Raw>, size: nat, pack: seq<Raw> -> seq<Raw>, k: nat) {
    k * size <= |data| && offset == start + |Before(data, size, pack, k)|
  }

  class Packer {
    const size: nat
    const start: nat
    const total: nat
    const pack: seq<Raw> -> seq<Raw>
    const buffer: array<Raw>
    const offsets: array<nat>
    var uncompressedOffset: nat
    var bufferCount: nat
    var file: seq<Raw>

    constructor (blockSize: nat, start: nat, total: nat, pack: seq<Raw> -> seq<Raw>)
      requires blockSize > 0
      ensures size == blockSize * 1024 && this.start == start && this.total == total && this.pack == pack
      ensures Valid([]) && fresh(buffer) && fresh(offsets) && offsets.Length == BlockCount(total, size)
    {
      size, this.start, this.total, this.pack := blockSize * 1024, start, total, pack;
      buffer := new Raw[blockSize * 1024];
      offsets := new nat[BlockCount(total, blockSize * 1024)];
      uncompressedOffset, bufferCount, file := 0, 0, [];
    }

    /** What the packer holds once `data` has been handed to it. */
    ghost predicate Valid(data: seq<Raw>)
      reads this, buffer, offsets
    {
      && size > 0 && buffer.Length == size && offsets.Length == BlockCount(total, size)
      && (buffer as object) != (offsets as object)
      && bufferCount * size + uncompressedOffset == |data| <= total && uncompressedOffset < size
      && bufferCount <= offsets.Length
      && buffer[..uncompressedOffset] == data[bufferCount * size..]
      && file == Before(data, size, pack, bufferCount)
      && Listed(offsets[..], start, data, size, pack, bufferCount)
    }

    method AssignOffset(offset: nat)
      requires bufferCount < offsets.Length
      modifies offsets
      ensures offsets[..] == old(offsets[..])[bufferCount := offset]
    {
      offsets[bufferCount] := offset;
    }

    /** What the packer holds while the buffer may be full. */
    ghost predicate Holds(data: seq<Raw>)
      reads this, buffer, offsets
    {
      && size > 0 && buffer.Length == size && offsets.Length == BlockCount(total, size)
      && (buffer as object) != (offsets as object)
      && bufferCount * size + uncompressedOffset == |data| <= total && uncompressedOffset <= size
      && bufferCount < offsets.Length
      && buffer[..uncompressedOffset] == data[bufferCount * size..]
      && file == Before(data, size, pack, bufferCount)
      && Listed(offsets[..], start, data, size, pack, bufferCount)
    }

    /** Copies as much of a record as the buffer has room for, and packs the buffer when it is full. */
    method Copy(record: seq<Raw>, recOffset: nat, ghost data: seq<Raw>) returns (n: nat)
      requires recOffset < |record| && Valid(data) && |data| + |record| - recOffset <= total
      modifies this`uncompressedOffset, this`bufferCount, this`file, buffer, offsets
      ensures 0 < n <= |record| - recOffset && Valid(data + record[recOffset..recOffset + n])
    {
      n := if |record| - recOffset < size - uncompressedOffset then |record| - recOffset else size - uncompressedOffset;
      Fill(record[recOffset..recOffset + n], data);
      if uncompressedOffset == size {
        Flush(data + record[recOffset..recOffset + n]);
      }
    }

    method Fill(more: seq<Raw>, ghost data: seq<Raw>)
      requires Valid(data) && |data| + |more| <= total && uncompressedOffset + |more| <= size
      modifies this`uncompressedOffset, buffer
      ensures Holds(data + more) && bufferCount == old(bufferCount)
    {
      hide BlockCount, Before, Listed;
      ListedGrows(offsets[..], start, data, more, size, pack, bufferCount);
      CopyBytes(more);
      assert (data + more)[bufferCount * size..] == data[bufferCount * size..] + more;
      uncompressedOffset := uncompressedOffset + |more|;
      Fits(total, size, bufferCount);
      BeforeGrows(data, more, size, pack, bufferCount);
      assert offsets[..] == old(offsets[..]);
    }

    method CopyBytes(more: seq<Raw>)
      requires uncompressedOffset + |more| <= buffer.Length
      modifies buffer
      ensures buffer[..uncompressedOffset + |more|] == old(buffer[..uncompressedOffset]) + more
    {
      forall j | 0 <= j < |more| {
        buffer[uncompressedOffset + j] := more[j];
      }
    }

    /** Packs a full buffer. */
    method Flush(ghost data: seq<Raw>)
      requires Holds(data) && uncompressedOffset == size
      modifies this`uncompressedOffset, this`bufferCount, this`file, offsets
      ensures Valid(data)
    {
      hide BlockCount, Before, Block, Packed, Listed;
      ListedNext(offsets[..], start, data, size, pack, bufferCount);
      FullBlock(data, size, bufferCount);
      assert buffer[..] == buffer[..uncompressedOffset];
      Next(data, size, pack, bufferCount);
      AssignOffset(start + |file|);
      assert buffer[..] == old(buffer[..]);
      file := file + pack(buffer[..]);
      bufferCount := bufferCount + 1;
      uncompressedOffset := 0;
    }

    /** Hands one record to the packer, piece by piece. */
    method Add(record: seq<Raw>, ghost data: seq<Raw>)
      requires Valid(data) && |data| + |record| <= total
      modifies this`uncompressedOffset, this`bufferCount, this`file, buffer, offsets
      ensures Valid(data + record)
    {
      hide Valid;
      var recOffset := 0;
      assert data + record[..0] == data;
      while recOffset < |record|
        invariant 0 <= recOffset <= |record|
        invariant Valid(data + record[..recOffset])
      {
        var n := Copy(record, recOffset, data + record[..recOffset]);
        assert data + record[..recOffset] + record[recOffset..recOffset + n] == data + record[..recOffset + n];
        recOffset := recOffset + n;
      }
      assert record[..recOffset] == record;
    }

    /** Packs the last piece, filled up with zeros; there is one even if the blocks before it were all full. */
    method Finish(ghost data: seq<Raw>)
      requires Valid(data) && |data| == total
      modifies this`bufferCount, this`file, buffer, offsets
      ensures bufferCount == BlockCount(total, size) == offsets.Length
      ensures Done(data)
    {
      Fits(total, size, bufferCount);
      Quotient(total, size, bufferCount);
      BeforeNext(data, size, pack, bufferCount);
      ListedNext(offsets[..], start, data, size, pack, bufferCount);
      PadOut();
      assert buffer[..] == Block(data, size, bufferCount);
      AssignOffset(start + |file|);
      file := file + pack(buffer[..]);
      bufferCount := bufferCount + 1;
    }

    /** Every block that was set aside has been written, and its offset noted. */
    ghost predicate Done(data: seq<Raw>)
      reads this, offsets
    {
      && size > 0 && |data| == total && (BlockCount(total, size) - 1) * size <= total
      && file == Packed(data, size, pack, BlockCount(total, size))
      && Listed(offsets[..], start, data, size, pack, BlockCount(total, size))
    }

    method PadOut()
      requires uncompressedOffset <= buffer.Length
      modifies buffer
      ensures buffer[..] == old(buffer[..uncompressedOffset]) + Padding(buffer.Length - uncompressedOffset)
    {
      forall j | uncompressedOffset <= j < buffer.Length {
        buffer[j] := 0;
      }
    }
  }

  /** The first `n` offsets are where those blocks begin. */
  ghost predicate Listed(offsets: seq<nat>, start: nat, data: seq<Raw>, size: nat, pack: seq<Raw> -> seq<Raw>, n: nat) {
    n <= |offsets| && forall k :: 0 <= k < n ==> OffsetAt(offsets[k], start, data, size, pack, k)
  }

  lemma {:induction false} ListedGrows(offsets: seq<nat>, start: nat, data: seq<Raw>, more: seq<Raw>, size: nat,
                                       pack: seq<Raw> -> seq<Raw>, n: nat)
    requires Listed(offsets, start, data, size, pack, n)
    ensures Listed(offsets, start, data + more, size, pack, n)
  {
    forall k | 0 <= k < n ensures OffsetAt(offsets[k], start, data + more, size, pack, k) {
      assert OffsetAt(offsets[k], start, data, size, pack, k);
      BeforeGrows(data, more, size, pack, k);
    }
  }

  lemma {:induction false} ListedNext(offsets: seq<nat>, start: nat, data: seq<Raw>, size: nat,
                                      pack: seq<Raw> -> seq<Raw>, n: nat)
    requires Listed(offsets, start, data, size, pack, n) && n < |offsets| && n * size <= |data|
    ensures Listed(offsets[n := start + |Before(data, size, pack, n)|], start, data, size, pack, n + 1)
  {
    hide Before;
  }

  lemma {:induction false} FullBlock(data: seq<Raw>, size: nat, k: nat)
    requires k * size + size == |data|
    ensures Block(data, size, k) == data[k * size..]
  {
  }

  lemma {:induction false} Next(data: seq<Raw>, size: nat, pack: seq<Raw> -> seq<Raw>, k: nat)
    requires k * size + size == |data|
    ensures k * size + size == (k + 1) * size && data[(k + 1) * size..] == []
    ensures Before(data, size, pack, k + 1) == Before(data, size, pack, k) + pack(Block(data, size, k))
  {
    BeforeNext(data, size, pack, k);
    assert (k + 1) * size == k * size + size;
  }

  lemma {:induction false} StrungLength(records: seq<seq<Raw>>, width: nat)
    requires forall i :: 0 <= i < |records| ==> |records[i]| == width
    ensures |Strung(records)| == |records| * width
  {
    if records != [] {
      var n := |records| - 1;
      StrungLength(records[..n], width);
      assert n * width + width == (n + 1) * width;
    }
  }

  /** Packs all records of a table whose records are `width` bytes wide. */
  method CompressTable(records: seq<seq<Raw>>, width: nat, blockSize: nat, start: nat, pack: seq<Raw> -> seq<Raw>)
    returns (p: Packer)
    requires blockSize > 0 && forall i :: 0 <= i < |records| ==> |records[i]| == width
    ensures p.size == blockSize * 1024 && p.start == start && p.pack == pack
    ensures p.Done(Strung(records))
    ensures p.bufferCount == p.offsets.Length == |records| * width / (blockSize * 1024) + 1
  {
    p := new Packer(blockSize, start, |records| * width, pack);
    var i := 0;
    while i < |records|
      invariant 0 <= i <= |records|
      invariant p.Valid(Strung(records[..i])) && fresh(p) && fresh(p.buffer) && fresh(p.offsets)
      invariant |Strung(records[..i])| == i * width
    {
      Gap(i, |records|, width);
      assert records[..i + 1][..i] == records[..i];
      p.Add(records[i], Strung(records[..i]));
      StrungLength(records[..i + 1], width);
      i := i + 1;
    }
    assert records[..i] == records;
    p.Finish(Strung(records));
  }

  // ----- unpacking -----

  /** The bytes between two offsets of the list, the last stretch reaching to the end of the file. */
  function Stretch(file: seq<Raw>, offsets: seq<nat>, start: nat, k: nat): seq<Raw> {
    var lo := if k < |offsets| && offsets[k] >= start then offsets[k] - start else 0;
    var hi := if k + 1 < |offsets| && offsets[k + 1] >= start then offsets[k + 1] - start else |file|;
    if lo <= hi <= |file| then file[lo..hi] else []
  }

  function Unpacked(file: seq<Raw>, offsets: seq<nat>, start: nat, unpack: seq<Raw> -> seq<Raw>, n: nat): seq<Raw> {
    if n == 0 then []
    else Unpacked(file, offsets, start, unpack, n - 1) + unpack(Stretch(file, offsets, start, n - 1))
  }

  lemma {:induction false} PackedPrefix(data: seq<Raw>, size: nat, pack: seq<Raw> -> seq<Raw>, j: nat, n: nat)
    requires j <= n && (n == 0 || (n - 1) * size <= |data|)
    ensures j == 0 || (j - 1) * size <= |data|
    ensures Packed(data, size, pack, j) <= Packed(data, size, pack, n)
  {
    if j < n {
      BlockStart(size, if n == 1 then 0 else n - 2, n - 1);
      PackedPrefix(data, size, pack, j, n - 1);
    }
  }

  /** The list cuts the file into the packed blocks, with nothing between them. */
  lemma {:induction false} StretchIsBlock(data: seq<Raw>, size: nat, pack: seq<Raw> -> seq<Raw>, file: seq<Raw>,
                                          offsets: seq<nat>, start: nat, k: nat)
    requires k < |offsets| && (|offsets| - 1) * size <= |data|
    requires file == Packed(data, size, pack, |offsets|) && Listed(offsets, start, data, size, pack, |offsets|)
    ensures k * size <= |data| && Stretch(file, offsets, start, k) == pack(Block(data, size, k))
  {
    hide Packed, Block, Before;
    BlockStart(size, k, |offsets| - 1);
    assert OffsetAt(offsets[k], start, data, size, pack, k);
    BeforeNext(data, size, pack, k);
    PackedPrefix(data, size, pack, k + 1, |offsets|);
    if k + 1 < |offsets| {
      assert OffsetAt(offsets[k + 1], start, data, size, pack, k + 1);
      BeforeNext(data, size, pack, k + 1);
    }
    Between(file, Packed(data, size, pack, k), pack(Block(data, size, k)));
  }

  lemma {:induction false} Between(file: seq<Raw>, before: seq<Raw>, block: seq<Raw>)
    requires before + block <= file
    ensures file[|before|..|before| + |block|] == block
  {
    assert file[..|before| + |block|] == before + block;
  }

  /** Unpacking block by block gives back the records, and zeros after them. */
  lemma {:induction false} Lossless(data: seq<Raw>, size: nat, pack: seq<Raw> -> seq<Raw>, unpack: seq<Raw> -> seq<Raw>,
                                    file: seq<Raw>, offsets: seq<nat>, start: nat)
    requires size > 0 && |offsets| == BlockCount(|data|, size) && (|offsets| - 1) * size <= |data|
    requires file == Packed(data, size, pack, |offsets|) && Listed(offsets, start, data, size, pack, |offsets|)
    requires forall b :: |b| == size ==> unpack(pack(b)) == b
    ensures |data| < |offsets| * size
    ensures Unpacked(file, offsets, start, unpack, |offsets|) == data + Padding(|offsets| * size - |data|)
  {
    JoinedAll(data, size);
    UnpackedIsJoined(data, size, pack, unpack, file, offsets, start, |offsets|);
  }

  lemma {:induction false} UnpackedIsJoined(data: seq<Raw>, size: nat, pack: seq<Raw> -> seq<Raw>,
                                            unpack: seq<Raw> -> seq<Raw>, file: seq<Raw>, offsets: seq<nat>,
                                            start: nat, n: nat)
    requires n <= |offsets| && offsets != [] && (|offsets| - 1) * size <= |data|
    requires file == Packed(data, size, pack, |offsets|) && Listed(offsets, start, data, size, pack, |offsets|)
    requires forall b :: |b| == size ==> unpack(pack(b)) == b
    ensures n == 0 || (n - 1) * size <= |data|
    ensures Unpacked(file, offsets, start, unpack, n) == Joined(data, size, n)
  {
    hide Block, Stretch, Packed, Listed;
    if n > 0 {
      UnpackedIsJoined(data, size, pack, unpack, file, offsets, start, n - 1);
      StretchIsBlock(data, size, pack, file, offsets, start, n - 1);
    }
  }
}
