/**
 * The encrypting RAM block device "sbd": a byte buffer of nsectors logical
 * blocks, written through AES encryption and read back through AES
 * decryption, fed by the block layer's request queue.
 */
module Sbd {
  import opened Wrappers
  import opened SbdCipher

  const KERNEL_SECTOR_SIZE: nat := 512
  /** Largest value of a C `int` (32-bit, two's complement). */
  const INT_MAX: nat := 0x7FFF_FFFF
  /** Largest value of a C `long` (64-bit). */
  const LONG_MAX: nat := 0x7FFF_FFFF_FFFF_FFFF
  const EIO: int := 5
  const EINVAL: int := 22
  /** `REQ_TYPE_FS`, the first value of the block layer's `rq_cmd_type_bits`. */
  const REQ_TYPE_FS: nat := 1

  /** Defaults of the module parameters. */
  const DEFAULT_NSECTORS: nat := 1024
  const DEFAULT_LOGICAL_BLOCK_SIZE: nat := 512
  /** The default `key` parameter, the string "42_Fall2017" as its strlen() bytes. */
  const DEFAULT_KEY: seq<byte> := [52, 50, 95, 70, 97, 108, 108, 50, 48, 49, 55]

  /**
   * The logical block sizes this model admits: powers of two from a 512-byte
   * sector up to a 4096-byte page, each a whole number of AES blocks. sbd hands
   * its `logical_block_size` parameter to blk_queue_logical_block_size without
   * checking it; other values are not modelled.
   */
  predicate BlockSizeOk(lbs: nat) {
    lbs == 512 || lbs == 1024 || lbs == 2048 || lbs == 4096
  }

  lemma SectorsAreWholeBlocks(nsect: nat, lbs: nat)
    requires BlockSizeOk(lbs)
    ensures (nsect * lbs) % AES_BLOCK_SIZE == 0
  {
    var q: nat := lbs / AES_BLOCK_SIZE;
    assert lbs == AES_BLOCK_SIZE * q;
    MulSwap(nsect, AES_BLOCK_SIZE, q);
    BlockMultiple(nsect * q);
  }

  /** Any whole number of AES blocks is a multiple of the block size. */
  lemma BlockMultiple(m: nat)
    ensures (AES_BLOCK_SIZE * m) % AES_BLOCK_SIZE == 0
  {
  }

  /** The outer factor and the first inner factor of a product can trade places. */
  lemma MulSwap(a: nat, b: nat, c: nat)
    ensures a * (b * c) == b * (a * c)
  {
  }

  /**
   * crypto_cipher_setkey for AES: FIPS 197 defines 128-, 192- and 256-bit keys,
   * and the kernel's AES refuses every other key length with -EINVAL.
   */
  function SetKey(key: seq<byte>): (err: int)
    ensures err == 0 || err == -EINVAL
    ensures err == 0 <==> |key| == 16 || |key| == 24 || |key| == 32
  {
    if |key| == 16 || |key| == 24 || |key| == 32 then 0 else -EINVAL
  }

  // ---------------------------------------------------------------------------
  // The effect of one transfer, on the values of the two byte buffers.

  /** The backing store after `plain` is encrypted into it at `offset`. */
  function StoreEncrypted(c: BlockCipher, disk: seq<byte>, offset: nat, plain: seq<byte>): (r: seq<byte>)
    requires |plain| % AES_BLOCK_SIZE == 0
    requires offset + |plain| <= |disk|
    ensures |r| == |disk|
  {
    disk[..offset] + EncryptRange(c, plain) + disk[offset + |plain|..]
  }

  /** The caller's buffer after the ciphertext `stored` is decrypted into its front. */
  function LoadDecrypted(c: BlockCipher, buf: seq<byte>, stored: seq<byte>): (r: seq<byte>)
    requires |stored| % AES_BLOCK_SIZE == 0
    requires |stored| <= |buf|
    ensures |r| == |buf|
  {
    DecryptRange(c, stored) + buf[|stored|..]
  }

  /**
   * A write changes exactly the bytes [offset, offset + |plain|) of the store,
   * and there the k-th cipher block is the encryption of the k-th plaintext block.
   */
  lemma StoreEncryptedFrame(c: BlockCipher, disk: seq<byte>, offset: nat, plain: seq<byte>)
    requires |plain| % AES_BLOCK_SIZE == 0
    requires offset + |plain| <= |disk|
    ensures |StoreEncrypted(c, disk, offset, plain)| == |disk|
    ensures forall k :: 0 <= k < |disk| && !(offset <= k < offset + |plain|) ==>
      StoreEncrypted(c, disk, offset, plain)[k] == disk[k]
    ensures forall k :: 0 <= k < |plain| / AES_BLOCK_SIZE ==>
      StoreEncrypted(c, disk, offset, plain)[offset + k * AES_BLOCK_SIZE .. offset + (k + 1) * AES_BLOCK_SIZE]
        == c.encryptOne(plain[k * AES_BLOCK_SIZE .. (k + 1) * AES_BLOCK_SIZE])
  {
    var r := StoreEncrypted(c, disk, offset, plain);
    var e := EncryptRange(c, plain);
    EncryptRangeBlocks(c, plain);
    assert r[offset..offset + |plain|] == e;
    forall k | 0 <= k < |plain| / AES_BLOCK_SIZE
      ensures r[offset + k * AES_BLOCK_SIZE .. offset + (k + 1) * AES_BLOCK_SIZE]
        == c.encryptOne(plain[k * AES_BLOCK_SIZE .. (k + 1) * AES_BLOCK_SIZE])
    {
      var lo, hi := k * AES_BLOCK_SIZE, (k + 1) * AES_BLOCK_SIZE;
      assert hi <= |plain|;
      assert r[offset + lo .. offset + hi] == e[lo..hi];
    }
  }

  /**
   * Writing `plain` at `offset` and then reading the same range back into any
   * buffer puts `plain` in the front of that buffer.
   */
  lemma WriteThenReadRoundTrip(c: BlockCipher, disk: seq<byte>, offset: nat, plain: seq<byte>, buf: seq<byte>)
    requires c.Invertible()
    requires |plain| % AES_BLOCK_SIZE == 0
    requires offset + |plain| <= |disk|
    requires |plain| <= |buf|
    ensures |StoreEncrypted(c, disk, offset, plain)| == |disk|
    ensures LoadDecrypted(c, buf, StoreEncrypted(c, disk, offset, plain)[offset..offset + |plain|])[..|plain|] == plain
  {
    var stored := StoreEncrypted(c, disk, offset, plain);
    DecryptEncryptRange(c, plain);
    assert stored[offset..offset + |plain|] == EncryptRange(c, plain);
  }

  /**
   * The store and the caller's buffer after one sbd_transfer of `nsect` units
   * of `unit` bytes at unit `sector`: a range past the end of the store changes
   * nothing, a write encrypts the front of the buffer into the store, and a
   * read decrypts the stored range into the front of the buffer.
   */
  function TransferEffect(c: BlockCipher, disk: seq<byte>, buf: seq<byte>, sector: nat, nsect: nat, unit: nat, write: bool)
    : (r: (seq<byte>, seq<byte>))
    requires BlockSizeOk(unit)
    requires nsect * unit <= |buf|
    ensures |r.0| == |disk| && |r.1| == |buf|
    ensures sector * unit + nsect * unit > |disk| ==> r == (disk, buf)
    ensures write ==> r.1 == buf
    ensures !write ==> r.0 == disk
  {
    var offset, numbytes := sector * unit, nsect * unit;
    SectorsAreWholeBlocks(nsect, unit);
    if offset + numbytes > |disk| then (disk, buf)
    else if write then (StoreEncrypted(c, disk, offset, buf[..numbytes]), buf)
    else (disk, LoadDecrypted(c, buf, disk[offset..offset + numbytes]))
  }

  // ---------------------------------------------------------------------------
  // The legacy geometry reported to HDIO_GETGEO.

  /** `x >> n` on a non-negative value: the n lowest bits are dropped. */
  function ShiftRight(x: nat, n: nat): nat {
    if n == 0 then x else ShiftRight(x / 2, n - 1)
  }

  /** `x & ~(2^n - 1)` on a non-negative value: the n lowest bits are cleared. */
  function ClearLowBits(x: nat, n: nat): nat {
    if n == 0 then x else 2 * ClearLowBits(x / 2, n - 1)
  }

  /** Clearing the low bits that a shift drops anyway does not change the shift. */
  lemma {:induction false} ShiftClearedBits(x: nat, n: nat)
    ensures ShiftRight(ClearLowBits(x, n), n) == ShiftRight(x, n)
  {
    if n > 0 {
      ShiftClearedBits(x / 2, n - 1);
      assert (2 * ClearLowBits(x / 2, n - 1)) / 2 == ClearLowBits(x / 2, n - 1);
    }
  }

  lemma ShiftRightSix(x: nat)
    ensures ShiftRight(x, 6) == x / 64
  {
    calc {
      ShiftRight(x, 6);
      ShiftRight(x / 2, 5);
      ShiftRight(x / 2 / 2, 4);
      ShiftRight(x / 2 / 2 / 2, 3);
      ShiftRight(x / 2 / 2 / 2 / 2, 2);
      ShiftRight(x / 2 / 2 / 2 / 2 / 2, 1);
      x / 2 / 2 / 2 / 2 / 2 / 2;
    }
  }

  datatype HdGeometry = HdGeometry(heads: nat, sectors: nat, cylinders: nat, start: nat)

  /**
   * sbd_getgeo: `size = Device.size * (logical_block_size / 512)` held in a
   * `long`, `cylinders = (size & ~0x3f) >> 6` stored in the 16-bit
   * `cylinders` field of struct hd_geometry, 4 heads, 16 sectors, start 0.
   */
  function GetGeo(deviceSize: nat, lbs: nat): (g: HdGeometry)
    requires BlockSizeOk(lbs)
    requires deviceSize * (lbs / KERNEL_SECTOR_SIZE) <= LONG_MAX
    ensures g.heads == 4 && g.sectors == 16 && g.start == 0
    ensures g.cylinders == (deviceSize * (lbs / KERNEL_SECTOR_SIZE) / 64) % 0x1_0000
  {
    var size := deviceSize * (lbs / KERNEL_SECTOR_SIZE);
    ShiftClearedBits(size, 6);
    ShiftRightSix(size);
    HdGeometry(4, 16, ShiftRight(ClearLowBits(size, 6), 6) % 0x1_0000, 0)
  }

  /**
   * With the default parameters the geometry describes 4 * 16 * 8192 = 524288
   * sectors: the device's size in bytes, counted as 512-byte sectors.
   */
  lemma DefaultGeometry()
    ensures GetGeo(DEFAULT_NSECTORS * DEFAULT_LOGICAL_BLOCK_SIZE, DEFAULT_LOGICAL_BLOCK_SIZE).cylinders == 8192
    ensures 4 * 16 * 8192 == DEFAULT_NSECTORS * DEFAULT_LOGICAL_BLOCK_SIZE
  {
  }

  // ---------------------------------------------------------------------------
  // Requests and the request loop.

  /**
   * A request as the driver sees it: its `cmd_type`, start sector (blk_rq_pos),
   * sectors of its current segment (blk_rq_cur_sectors), direction
   * (rq_data_dir) and data buffer (bio_data).
   */
  datatype Request = Request(cmdType: nat, pos: nat, curSectors: nat, write: bool, buffer: array<byte>)

  /** The status the request loop completes a request with. */
  function CompletionStatus(req: Request): (status: int)
    ensures status == 0 <==> req.cmdType == REQ_TYPE_FS
    ensures status != 0 ==> status == -EIO
  {
    if req.cmdType != REQ_TYPE_FS then -EIO else 0
  }

  /**
   * The request the loop of sbd_request handles next, as written: a request
   * that is not REQ_TYPE_FS is ended but `req` is not refetched; any other one
   * is fully completed by __blk_end_request_cur, so the next one is fetched.
   */
  function NextRequestAsWritten(req: Request, fetched: Option<Request>): (next: Option<Request>)
    ensures next == fetched || next == Some(req)
  {
    if req.cmdType != REQ_TYPE_FS then Some(req) else fetched
  }

  /**
   * After a request that is not REQ_TYPE_FS the loop comes back to the same,
   * already ended request, whatever is queued behind it; it never reaches a
   * fetched request.
   */
  lemma NonFsRequestIsRetried(req: Request, fetched: Request)
    requires req.cmdType != REQ_TYPE_FS
    requires fetched != req
    ensures NextRequestAsWritten(req, Some(fetched)) == Some(req)
    ensures NextRequestAsWritten(req, Some(fetched)) != Some(fetched)
  {
  }

  /** A buffer of `len` bytes holds the `nsect` units of `unit` bytes a transfer walks. */
  predicate SegmentHolds(len: nat, nsect: nat, unit: nat) {
    nsect * unit <= len
  }

  /**
   * blk_rq_pos and blk_rq_cur_sectors count 512-byte sectors, and the segment
   * bio_data points to holds `cur_sectors * 512` bytes. With a logical block
   * size above 512, sbd_transfer as written scales both by the logical block
   * size: it walks more bytes than the segment holds (the segment does not
   * meet `Transfer`'s requires), and it starts at another byte of the store
   * than the one the block layer addressed (a write leaves that byte alone).
   */
  lemma LargeBlockTransferOverrunsSegment(c: BlockCipher, disk: seq<byte>, buf: seq<byte>, lbs: nat, sector: nat, nsect: nat)
    requires BlockSizeOk(lbs) && lbs > KERNEL_SECTOR_SIZE
    requires nsect > 0
    requires nsect * lbs <= |buf|
    ensures !SegmentHolds(nsect * KERNEL_SECTOR_SIZE, nsect, lbs)
    ensures 0 < sector && sector * KERNEL_SECTOR_SIZE < |disk| ==>
      TransferEffect(c, disk, buf, sector, nsect, lbs, true).0[sector * KERNEL_SECTOR_SIZE] == disk[sector * KERNEL_SECTOR_SIZE]
  {
    assert nsect * lbs - nsect * KERNEL_SECTOR_SIZE == nsect * (lbs - KERNEL_SECTOR_SIZE);
    assert sector * lbs - sector * KERNEL_SECTOR_SIZE == sector * (lbs - KERNEL_SECTOR_SIZE);
    var offset, numbytes := sector * lbs, nsect * lbs;
    if 0 < sector && sector * KERNEL_SECTOR_SIZE < |disk| && offset + numbytes <= |disk| {
      SectorsAreWholeBlocks(nsect, lbs);
      StoreEncryptedFrame(c, disk, offset, buf[..numbytes]);
    }
  }

  /**
   * What the request loop does with one request, on values, with the
   * request's position and length in 512-byte sectors as the block layer
   * gives them: a request that is not REQ_TYPE_FS changes nothing, any other
   * is one transfer of its current segment.
   */
  function Serve(c: BlockCipher, disk: seq<byte>, req: Request, buf: seq<byte>): (r: (seq<byte>, seq<byte>))
    requires req.curSectors * KERNEL_SECTOR_SIZE <= |buf|
    ensures |r.0| == |disk| && |r.1| == |buf|
    ensures req.cmdType != REQ_TYPE_FS ==> r == (disk, buf)
  {
    if req.cmdType != REQ_TYPE_FS then (disk, buf)
    else TransferEffect(c, disk, buf, req.pos, req.curSectors, KERNEL_SECTOR_SIZE, req.write)
  }

  /** Every request's segment is as long as its sector count says. */
  ghost predicate SegmentsFit(queue: seq<Request>, bufs: seq<seq<byte>>) {
    |bufs| == |queue|
    && forall k :: 0 <= k < |queue| ==> queue[k].curSectors * KERNEL_SECTOR_SIZE <= |bufs[k]|
  }

  /**
   * The store just before the n-th request of `queue` is served, when the
   * requests are served in order and `bufs` holds their buffers' contents.
   */
  function StoreBefore(c: BlockCipher, disk: seq<byte>, queue: seq<Request>, bufs: seq<seq<byte>>, n: nat): (d: seq<byte>)
    requires SegmentsFit(queue, bufs) && n <= |queue|
    ensures |d| == |disk|
    decreases n
  {
    if n == 0 then disk
    else Serve(c, StoreBefore(c, disk, queue, bufs, n - 1), queue[n - 1], bufs[n - 1]).0
  }

  /**
   * The buffers of the first `n` requests once they are served in order: each
   * request sees the store as the requests before it left it.
   */
  function BuffersAfter(c: BlockCipher, disk: seq<byte>, queue: seq<Request>, bufs: seq<seq<byte>>, n: nat): (r: seq<seq<byte>>)
    requires SegmentsFit(queue, bufs) && n <= |queue|
    ensures |r| == n
    decreases n
  {
    if n == 0 then []
    else
      BuffersAfter(c, disk, queue, bufs, n - 1)
        + [Serve(c, StoreBefore(c, disk, queue, bufs, n - 1), queue[n - 1], bufs[n - 1]).1]
  }

  /** Entry k of the served segments is request k's segment, served against the store the requests before it left. */
  lemma {:induction false} BuffersAfterAt(c: BlockCipher, disk: seq<byte>, queue: seq<Request>, bufs: seq<seq<byte>>, n: nat, k: nat)
    requires SegmentsFit(queue, bufs) && k < n <= |queue|
    ensures BuffersAfter(c, disk, queue, bufs, n)[k] == Serve(c, StoreBefore(c, disk, queue, bufs, k), queue[k], bufs[k]).1
    decreases n
  {
    if k < n - 1 {
      BuffersAfterAt(c, disk, queue, bufs, n - 1, k);
    }
  }

  /** Serving request k on the store it finds gives the next store and request k's final buffer. */
  lemma ServeStep(c: BlockCipher, disk: seq<byte>, queue: seq<Request>, bufs: seq<seq<byte>>, k: nat, d: seq<byte>, b: seq<byte>)
    requires SegmentsFit(queue, bufs) && k < |queue|
    requires d == StoreBefore(c, disk, queue, bufs, k) && b == bufs[k]
    ensures Serve(c, d, queue[k], b).0 == StoreBefore(c, disk, queue, bufs, k + 1)
    ensures Serve(c, d, queue[k], b).1 == BuffersAfter(c, disk, queue, bufs, |queue|)[k]
  {
    BuffersAfterAt(c, disk, queue, bufs, |queue|, k);
  }

  /** The contents of the requests' buffers. */
  ghost function Contents(queue: seq<Request>): (bufs: seq<seq<byte>>)
    reads set k | 0 <= k < |queue| :: queue[k].buffer
    ensures |bufs| == |queue|
    ensures forall k :: 0 <= k < |queue| ==> bufs[k] == queue[k].buffer[..]
    decreases |queue|
  {
    if queue == [] then []
    else
      var n := |queue| - 1;
      assert forall k :: 0 <= k < n ==> queue[..n][k] == queue[k];
      Contents(queue[..n]) + [queue[n].buffer[..]]
  }

  /** Requests that are not REQ_TYPE_FS never reach the store. */
  lemma {:induction false} NonFsRequestsKeepStore(c: BlockCipher, disk: seq<byte>, queue: seq<Request>, bufs: seq<seq<byte>>, n: nat)
    requires SegmentsFit(queue, bufs) && n <= |queue|
    requires forall k :: 0 <= k < n ==> queue[k].cmdType != REQ_TYPE_FS
    ensures StoreBefore(c, disk, queue, bufs, n) == disk
    decreases n
  {
    if n > 0 {
      NonFsRequestsKeepStore(c, disk, queue, bufs, n - 1);
    }
  }

  /**
   * A write, then a request that is not REQ_TYPE_FS, then a read of the same
   * sectors: the malformed request in between does not stop the read from
   * delivering what was written.
   */
  lemma WriteMalformedReadRoundTrip(c: BlockCipher, disk: seq<byte>, queue: seq<Request>, bufs: seq<seq<byte>>)
    requires c.Invertible()
    requires SegmentsFit(queue, bufs) && |queue| == 3
    requires queue[0].cmdType == REQ_TYPE_FS && queue[0].write
    requires queue[1].cmdType != REQ_TYPE_FS
    requires queue[2].cmdType == REQ_TYPE_FS && !queue[2].write
    requires queue[2].pos == queue[0].pos && queue[2].curSectors == queue[0].curSectors
    requires (queue[0].pos + queue[0].curSectors) * KERNEL_SECTOR_SIZE <= |disk|
    ensures var n := queue[0].curSectors * KERNEL_SECTOR_SIZE;
      Serve(c, StoreBefore(c, disk, queue, bufs, 2), queue[2], bufs[2]).1[..n] == bufs[0][..n]
  {
    var offset, n := queue[0].pos * KERNEL_SECTOR_SIZE, queue[0].curSectors * KERNEL_SECTOR_SIZE;
    assert offset + n == (queue[0].pos + queue[0].curSectors) * KERNEL_SECTOR_SIZE;
    SectorsAreWholeBlocks(queue[0].curSectors, KERNEL_SECTOR_SIZE);
    var written := StoreEncrypted(c, disk, offset, bufs[0][..n]);
    assert StoreBefore(c, disk, queue, bufs, 1) == written;
    assert StoreBefore(c, disk, queue, bufs, 2) == written;
    WriteThenReadRoundTrip(c, disk, offset, bufs[0][..n], bufs[2]);
  }

  class SbdDevice {
    const logicalBlockSize: nat
    /** Device.size: the capacity in bytes. */
    const size: nat
    /** Device.data: the ciphertext at rest. */
    const data: array<byte>
    /** The AES transform, `tfm`. */
    const tfm: BlockCipher
    /** What crypto_cipher_setkey returned when the device was set up. */
    ghost const keyStatus: int

    ghost predicate Valid() {
      BlockSizeOk(logicalBlockSize) && data.Length == size
    }

    /**
     * sbd_init, reduced to the device it sets up: the size is the `int`
     * product nsectors * logical_block_size, for parameters where it does not
     * overflow; the buffer comes from vmalloc (its contents are not defined),
     * and the key is handed to crypto_cipher_setkey, whose result is dropped.
     */
    constructor Init(nsectors: nat, lbs: nat, key: seq<byte>, cipher: BlockCipher)
      requires BlockSizeOk(lbs)
      requires nsectors * lbs <= INT_MAX
      ensures Valid()
      ensures size == nsectors * lbs && data.Length == size
      ensures logicalBlockSize == lbs && tfm == cipher
      ensures keyStatus == SetKey(key)
      ensures fresh(data)
    {
      logicalBlockSize := lbs;
      size := nsectors * lbs;
      data := new byte[nsectors * lbs];
      tfm := cipher;
      keyStatus := SetKey(key);
    }

    /**
     * sbd_transfer as written: `sector` and `nsect` are scaled by
     * logical_block_size. Out of bounds nothing changes; otherwise a write
     * encrypts the buffer's front into the store and a read decrypts the
     * stored range into the buffer's front.
     */
    method Transfer(sector: nat, nsect: nat, buffer: array<byte>, write: bool)
      requires Valid()
      requires buffer != data
      requires SegmentHolds(buffer.Length, nsect, logicalBlockSize)
      modifies data, buffer
      ensures data[..] == TransferEffect(tfm, old(data[..]), old(buffer[..]), sector, nsect, logicalBlockSize, write).0
      ensures buffer[..] == TransferEffect(tfm, old(data[..]), old(buffer[..]), sector, nsect, logicalBlockSize, write).1
    {
      TransferUnits(sector, nsect, logicalBlockSize, buffer, write);
    }

    /** The body of sbd_transfer, with the unit its positions and lengths are counted in. */
    method TransferUnits(sector: nat, nsect: nat, unit: nat, buffer: array<byte>, write: bool)
      requires Valid() && BlockSizeOk(unit)
      requires buffer != data
      requires buffer.Length >= nsect * unit
      modifies data, buffer
      ensures data[..] == TransferEffect(tfm, old(data[..]), old(buffer[..]), sector, nsect, unit, write).0
      ensures buffer[..] == TransferEffect(tfm, old(data[..]), old(buffer[..]), sector, nsect, unit, write).1
    {
      var offset := sector * unit;
      var numbytes := nsect * unit;
      if offset + numbytes > size {
        return;
      }
      SectorsAreWholeBlocks(nsect, unit);
      if write {
        EncryptInto(offset, numbytes, buffer);
      } else {
        DecryptFrom(offset, numbytes, buffer);
      }
    }

    /** The write branch of sbd_transfer: encrypt block by block from the buffer into the store. */
    method EncryptInto(offset: nat, numbytes: nat, buffer: array<byte>)
      requires Valid()
      requires buffer != data
      requires numbytes % AES_BLOCK_SIZE == 0
      requires offset + numbytes <= size && numbytes <= buffer.Length
      modifies data
      ensures data[..] == StoreEncrypted(tfm, old(data[..]), offset, buffer[..numbytes])
    {
      ghost var plain := buffer[..numbytes];
      ghost var initial := data[..];
      var i := 0;
      while i < numbytes
        invariant 0 <= i <= numbytes && i % AES_BLOCK_SIZE == 0
        invariant forall j :: 0 <= j < numbytes ==> buffer[j] == plain[j]
        invariant data[..] == initial[..offset] + EncryptRange(tfm, plain[..i]) + initial[offset + i..]
      {
        NextBlockFits(i, numbytes);
        EncryptNext(offset, numbytes, i, buffer, initial, plain);
        i := i + AES_BLOCK_SIZE;
      }
      assert plain[..numbytes] == plain;
    }

    /** One pass of the write loop: crypto_cipher_encrypt_one on the buffer block at `i`. */
    method EncryptNext(offset: nat, numbytes: nat, i: nat, buffer: array<byte>, ghost initial: seq<byte>, ghost plain: seq<byte>)
      requires Valid()
      requires buffer != data
      // The alignment of i + AES_BLOCK_SIZE follows from that of i; stated so the solver need not derive it.
      requires i % AES_BLOCK_SIZE == 0 && (i + AES_BLOCK_SIZE) % AES_BLOCK_SIZE == 0 && i + AES_BLOCK_SIZE <= numbytes
      requires offset + numbytes <= size == |initial| && numbytes <= buffer.Length && |plain| == numbytes
      requires forall j :: 0 <= j < numbytes ==> buffer[j] == plain[j]
      requires data[..] == initial[..offset] + EncryptRange(tfm, plain[..i]) + initial[offset + i..]
      modifies data
      ensures data[..] == initial[..offset] + EncryptRange(tfm, plain[..i + AES_BLOCK_SIZE]) + initial[offset + i + AES_BLOCK_SIZE..]
    {
      ghost var before := data[..];
      var blk := buffer[i..i + AES_BLOCK_SIZE];
      assert blk == plain[i..i + AES_BLOCK_SIZE];
      WriteBlock(data, offset + i, tfm.encryptOne(blk));
      EncryptStep(tfm, initial, offset, plain, i, before, data[..]);
    }

    /** The read branch of sbd_transfer: decrypt block by block from the store into the buffer. */
    method DecryptFrom(offset: nat, numbytes: nat, buffer: array<byte>)
      requires Valid()
      requires buffer != data
      requires numbytes % AES_BLOCK_SIZE == 0
      requires offset + numbytes <= size && numbytes <= buffer.Length
      modifies buffer
      ensures buffer[..] == LoadDecrypted(tfm, old(buffer[..]), data[offset..offset + numbytes])
    {
      ghost var initial := buffer[..];
      ghost var stored := data[offset..offset + numbytes];
      var i := 0;
      while i < numbytes
        invariant 0 <= i <= numbytes && i % AES_BLOCK_SIZE == 0
        invariant forall j :: offset <= j < offset + numbytes ==> data[j] == stored[j - offset]
        invariant buffer[..] == DecryptRange(tfm, stored[..i]) + initial[i..]
      {
        NextBlockFits(i, numbytes);
        DecryptNext(offset, numbytes, i, buffer, initial, stored);
        i := i + AES_BLOCK_SIZE;
      }
      assert stored[..numbytes] == stored;
    }

    /** One pass of the read loop: crypto_cipher_decrypt_one on the stored block at `offset + i`. */
    method DecryptNext(offset: nat, numbytes: nat, i: nat, buffer: array<byte>, ghost initial: seq<byte>, ghost stored: seq<byte>)
      requires Valid()
      requires buffer != data
      // The alignment of i + AES_BLOCK_SIZE follows from that of i; stated so the solver need not derive it.
      requires i % AES_BLOCK_SIZE == 0 && (i + AES_BLOCK_SIZE) % AES_BLOCK_SIZE == 0 && i + AES_BLOCK_SIZE <= numbytes
      requires offset + numbytes <= size && numbytes <= buffer.Length == |initial|
      requires |stored| == numbytes && forall j :: offset <= j < offset + numbytes ==> data[j] == stored[j - offset]
      requires buffer[..] == DecryptRange(tfm, stored[..i]) + initial[i..]
      modifies buffer
      ensures buffer[..] == DecryptRange(tfm, stored[..i + AES_BLOCK_SIZE]) + initial[i + AES_BLOCK_SIZE..]
    {
      ghost var before := buffer[..];
      var blk := data[offset + i..offset + i + AES_BLOCK_SIZE];
      assert blk == stored[i..i + AES_BLOCK_SIZE];
      assert stored[..i + AES_BLOCK_SIZE] == stored[..i] + blk;
      WriteBlock(buffer, i, tfm.decryptOne(blk));
      DecryptStep(tfm, initial, stored[..i], blk, stored[..i + AES_BLOCK_SIZE], before, buffer[..]);
    }

    /**
     * One pass of the loop in sbd_request, with the transfer counted in the
     * 512-byte sectors the request carries: a request that is not
     * REQ_TYPE_FS is ended with -EIO and never transferred; any other one is
     * transferred and completed with status 0, even when the transfer
     * refused its range.
     */
    method HandleRequest(req: Request) returns (status: int)
      requires Valid()
      requires req.buffer != data
      requires req.buffer.Length >= req.curSectors * KERNEL_SECTOR_SIZE
      modifies data, req.buffer
      ensures status == CompletionStatus(req)
      ensures data[..] == Serve(tfm, old(data[..]), req, old(req.buffer[..])).0
      ensures req.buffer[..] == Serve(tfm, old(data[..]), req, old(req.buffer[..])).1
    {
      if req.cmdType != REQ_TYPE_FS {
        status := -EIO;
        return;
      }
      TransferUnits(req.pos, req.curSectors, KERNEL_SECTOR_SIZE, req.buffer, req.write);
      status := 0;
    }

    /**
     * Request `k` of a queue being drained: the store so far is the fold over the
     * requests before it, and serving it extends the fold by one request.
     */
    method ServeNext(queue: seq<Request>, k: nat, ghost disk: seq<byte>, ghost bufs: seq<seq<byte>>) returns (status: int)
      requires Valid()
      requires SegmentsFit(queue, bufs) && k < |queue|
      requires queue[k].buffer != data && queue[k].buffer[..] == bufs[k]
      requires data[..] == StoreBefore(tfm, disk, queue, bufs, k)
      modifies data, queue[k].buffer
      ensures status == CompletionStatus(queue[k])
      ensures data[..] == StoreBefore(tfm, disk, queue, bufs, k + 1)
      ensures queue[k].buffer[..] == BuffersAfter(tfm, disk, queue, bufs, |queue|)[k]
    {
      ServeStep(tfm, disk, queue, bufs, k, data[..], queue[k].buffer[..]);
      status := HandleRequest(queue[k]);
    }

    /**
     * The loop of sbd_request with the next request fetched after every
     * completion: each queued request is served once, in queue order, and a
     * failed request does not stop the ones behind it. Each request has a
     * buffer of its own.
     */
    method Drain(queue: seq<Request>) returns (statuses: seq<int>)
      requires Valid()
      requires forall k :: 0 <= k < |queue| ==>
        queue[k].buffer != data && queue[k].buffer.Length >= queue[k].curSectors * KERNEL_SECTOR_SIZE
      requires forall i, j :: 0 <= i < j < |queue| ==> queue[i].buffer != queue[j].buffer
      modifies data, set k | 0 <= k < |queue| :: queue[k].buffer
      ensures |statuses| == |queue|
      ensures forall k :: 0 <= k < |queue| ==> statuses[k] == CompletionStatus(queue[k])
      ensures SegmentsFit(queue, old(Contents(queue)))
      ensures data[..] == StoreBefore(tfm, old(data[..]), queue, old(Contents(queue)), |queue|)
      ensures forall k :: 0 <= k < |queue| ==>
        queue[k].buffer[..] == BuffersAfter(tfm, old(data[..]), queue, old(Contents(queue)), |queue|)[k]
    {
      ghost var disk := data[..];
      ghost var bufs := Contents(queue);
      ghost var served := BuffersAfter(tfm, disk, queue, bufs, |queue|);
      statuses := [];
      var k := 0;
      while k < |queue|
        invariant 0 <= k <= |queue|
        invariant |statuses| == k
        invariant forall j :: 0 <= j < k ==> statuses[j] == CompletionStatus(queue[j])
        invariant data[..] == StoreBefore(tfm, disk, queue, bufs, k)
        invariant forall j :: 0 <= j < k ==> queue[j].buffer[..] == served[j]
        invariant forall j :: k <= j < |queue| ==> queue[j].buffer[..] == bufs[j]
      {
        var status := ServeNext(queue, k, disk, bufs);
        statuses := statuses + [status];
        k := k + 1;
      }
      assert served == BuffersAfter(tfm, old(data[..]), queue, old(Contents(queue)), |queue|);
    }

    /**
     * A write of a range followed by a read of the same range into another
     * buffer delivers the bytes that were written.
     */
    method WriteThenRead(sector: nat, nsect: nat, src: array<byte>, dst: array<byte>)
      requires Valid() && tfm.Invertible()
      requires src != data && dst != data && src != dst
      requires src.Length >= nsect * logicalBlockSize && dst.Length >= nsect * logicalBlockSize
      requires (sector + nsect) * logicalBlockSize <= size
      modifies data, src, dst
      ensures dst[..nsect * logicalBlockSize] == old(src[..nsect * logicalBlockSize])
    {
      var offset, numbytes := sector * logicalBlockSize, nsect * logicalBlockSize;
      assert offset + numbytes == (sector + nsect) * logicalBlockSize;
      SectorsAreWholeBlocks(nsect, logicalBlockSize);
      ghost var plain := src[..numbytes];
      ghost var disk := data[..];
      Transfer(sector, nsect, src, true);
      ghost var dstBefore := dst[..];
      Transfer(sector, nsect, dst, false);
      WriteThenReadRoundTrip(tfm, disk, offset, plain, dstBefore);
    }
  }

  /** One pass of the write loop: the next plaintext block is encrypted into its place in the store. */
  lemma EncryptStep(c: BlockCipher, initial: seq<byte>, offset: nat, plain: seq<byte>, i: nat, before: seq<byte>, after: seq<byte>)
    // The alignment of i + AES_BLOCK_SIZE follows from that of i; stated so the solver need not derive it.
    requires i % AES_BLOCK_SIZE == 0 && (i + AES_BLOCK_SIZE) % AES_BLOCK_SIZE == 0
    requires i + AES_BLOCK_SIZE <= |plain| && offset + i + AES_BLOCK_SIZE <= |initial|
    requires before == initial[..offset] + EncryptRange(c, plain[..i]) + initial[offset + i..]
    requires after == before[..offset + i] + c.encryptOne(plain[i..i + AES_BLOCK_SIZE]) + before[offset + i + AES_BLOCK_SIZE..]
    ensures after == initial[..offset] + EncryptRange(c, plain[..i + AES_BLOCK_SIZE]) + initial[offset + i + AES_BLOCK_SIZE..]
  {
    EncryptRangeExtend(c, plain, i);
    assert before[..offset + i] == initial[..offset] + EncryptRange(c, plain[..i]);
    assert before[offset + i + AES_BLOCK_SIZE..] == initial[offset + i + AES_BLOCK_SIZE..];
  }

  /**
   * One pass of the read loop: with `prev` the stored bytes decrypted so far and
   * `blk` the next stored block, the buffer gains the decryption of `blk`.
   */
  lemma DecryptStep(c: BlockCipher, initial: seq<byte>, prev: seq<byte>, blk: Block, next: seq<byte>, before: seq<byte>, after: seq<byte>)
    requires |prev| % AES_BLOCK_SIZE == 0 && |prev| + AES_BLOCK_SIZE <= |initial|
    requires next == prev + blk
    requires before == DecryptRange(c, prev) + initial[|prev|..]
    requires after == before[..|prev|] + c.decryptOne(blk) + before[|prev| + AES_BLOCK_SIZE..]
    ensures after == DecryptRange(c, next) + initial[|prev| + AES_BLOCK_SIZE..]
  {
    assert next[..|prev|] == prev;
    assert next[|prev|..] == blk;
    assert before[..|prev|] == DecryptRange(c, prev);
    assert before[|prev| + AES_BLOCK_SIZE..] == initial[|prev| + AES_BLOCK_SIZE..];
  }

  /**
   * The store half of crypto_cipher_encrypt_one / crypto_cipher_decrypt_one:
   * the 16 bytes the cipher produced are written over `dst` at `dstOff`.
   */
  method WriteBlock(dst: array<byte>, dstOff: nat, block: Block)
    requires dstOff + AES_BLOCK_SIZE <= dst.Length
    modifies dst
    ensures dst[..] == old(dst[..])[..dstOff] + block + old(dst[..])[dstOff + AES_BLOCK_SIZE..]
  {
    forall j | 0 <= j < AES_BLOCK_SIZE {
      dst[dstOff + j] := block[j];
    }
    assert dst[..] == old(dst[..])[..dstOff] + block + old(dst[..])[dstOff + AES_BLOCK_SIZE..];
  }

  /**
   * sbd_init with the setkey result checked: a key that AES refuses stops the
   * set-up with that error instead of leaving a device whose key did not take.
   */
  method Create(nsectors: nat, lbs: nat, key: seq<byte>, cipher: BlockCipher) returns (dev: SbdDevice?, err: int)
    requires BlockSizeOk(lbs)
    requires nsectors * lbs <= INT_MAX
    ensures err == SetKey(key)
    ensures dev != null <==> err == 0
    ensures dev != null ==>
      fresh(dev) && fresh(dev.data) && dev.Valid()
      && dev.size == nsectors * lbs && dev.tfm == cipher && dev.keyStatus == 0
  {
    err := SetKey(key);
    if err != 0 {
      dev := null;
      return;
    }
    dev := new SbdDevice.Init(nsectors, lbs, key, cipher);
  }

  /**
   * With the default parameters the device is still set up although AES
   * refuses the 11-byte default key.
   */
  lemma DefaultKeyRefused()
    ensures |DEFAULT_KEY| == 11
    ensures SetKey(DEFAULT_KEY) == -EINVAL
    ensures DEFAULT_NSECTORS * DEFAULT_LOGICAL_BLOCK_SIZE <= INT_MAX && BlockSizeOk(DEFAULT_LOGICAL_BLOCK_SIZE)
  {
  }
}
