/** The LittleFS block device of the legacy tool, `LfsDriverContext` in gnwmanager.py.
    Unlike gnwmanager/filesystem.py it numbers blocks upwards from a start offset, reads
    through `extflash_read`, and programs through the non-blocking, LZMA-compressed
    `extflash_write`. */
module LegacyLfs {
  import opened Common
  import opened Validation
  import P = HostProtocol
  import H = Host
  import L = Legacy
  import F = Filesystem

  /** The driver's state: the legacy tool (transport, counter, progress) and the cache. */
  datatype Lfs = Lfs(tool: L.Tool, cache: map<nat, Bytes>)

  datatype LfsStep<X> = LfsStep(result: Result<X>, lfs: Lfs)

  /** Offset into external flash of the first byte of block `block`. */
  function BlockStart(offset: int, blockSize: nat, block: nat): int
  {
    offset + block * blockSize
  }

  /** Blocks count up from `offset`: block 0 starts there, each block starts where the
      one before it ends, and two different blocks never overlap. */
  lemma BlocksFromStart(offset: int, blockSize: nat, b1: nat, b2: nat)
    ensures BlockStart(offset, blockSize, 0) == offset
    ensures BlockStart(offset, blockSize, b1) + blockSize == BlockStart(offset, blockSize, b1 + 1)
    ensures b1 < b2 ==> BlockStart(offset, blockSize, b1) + blockSize <= BlockStart(offset, blockSize, b2)
  {
    if b1 < b2 {
      F.MulMono(b1 + 1, b2, blockSize);
    }
  }

  /** `extflash_read(offset, size)`: validate the offset, then read `size` bytes from its
      memory-mapped address. */
  function ExtflashReadOf(l: P.Link, offset: int, size: int): P.Run<Bytes>
  {
    if ValidateExtflashOffset(offset).Fail? then P.Run(Err(ValueError), l)
    else P.ReadBlock(l, EXTFLASH_BASE + offset, size)
  }

  /** `read(block, off, size)`: a cached block is sliced; otherwise wait for both
      contexts, read `size` bytes at the block's start through `extflash_read`, cache
      them as the block and slice them. */
  function ReadOf(s: Lfs, offset: int, blockSize: nat, block: nat, off: nat, size: nat, polls: nat): LfsStep<Bytes>
  {
    if block in s.cache then LfsStep(Ok(Slice(s.cache[block], off, off + size)), s)
    else
      var w := L.WaitForAllContextsCompleteOf(s.tool.link, polls);
      if w.result.Err? then LfsStep(Err(w.result.error), s.(tool := s.tool.(link := w.link)))
      else
        var got := ExtflashReadOf(w.link, BlockStart(offset, blockSize, block), size);
        if got.result.Err? then LfsStep(Err(got.result.error), s.(tool := s.tool.(link := got.link)))
        else
          LfsStep(Ok(Slice(got.result.value, off, off + size)),
                  Lfs(s.tool.(link := got.link), s.cache[block := got.result.value]))
  }

  /** A cached block is served from the cache with nothing else changed. An uncached
      block is read, after the contexts are drained, only at a valid block address;
      what the target returned becomes the block's entry, and the counter and the
      progress record are untouched. */
  lemma ReadServes(s: Lfs, offset: int, blockSize: nat, block: nat, off: nat, size: nat, polls: nat)
    ensures var r := ReadOf(s, offset, blockSize, block, off, size, polls);
            (block in s.cache ==> r == LfsStep(Ok(Slice(s.cache[block], off, off + size)), s))
            && r.lfs.tool.counter == s.tool.counter && r.lfs.tool.progress == s.tool.progress
            && (block !in s.cache && r.result.Ok? ==>
                  var w := L.WaitForAllContextsCompleteOf(s.tool.link, polls);
                  var data := w.link.blocks[0];
                  w.result.Ok? && w.link.blocks != []
                  && ValidateExtflashOffset(BlockStart(offset, blockSize, block)).Pass?
                  && r.lfs.tool.link.log
                       == w.link.log + [P.ReadMem(EXTFLASH_BASE + BlockStart(offset, blockSize, block), size, data)]
                  && r.lfs.cache == s.cache[block := data]
                  && r.result.value == Slice(data, off, off + size))
            && (r.result.Err? ==> r.lfs.cache == s.cache)
  {
  }

  /** `prog(block, off, data)`: patch a cached copy, then send the LZMA-compressed data
      without erasing and without blocking, with the raw length as the decompressed
      size and the raw data's SHA-256; return 0. */
  function ProgOf(s: Lfs, offset: int, blockSize: nat, block: nat, off: nat, data: Bytes, polls: nat,
                  sha: Bytes -> Bytes, lzma: Bytes -> Bytes): LfsStep<int>
  {
    var cache := F.PatchedCache(s.cache, block, off, data);
    var w := L.ExtflashWriteOf(s.tool, BlockStart(offset, blockSize, block) + off, lzma(data), false, false,
                               |data|, Some(sha(data)), polls, sha);
    LfsStep(F.Returned(w.result), Lfs(w.tool, cache))
  }

  /** A program patches only an already cached block, and hands at most one request to
      the device, never touching the progress record. A bad address is refused with
      nothing sent; with a good address and a compressed form of 1 byte to 256 KiB, a
      successful program is exactly one request. */
  lemma ProgSubmits(s: Lfs, offset: int, blockSize: nat, block: nat, off: nat, data: Bytes, polls: nat,
                    sha: Bytes -> Bytes, lzma: Bytes -> Bytes)
    ensures var r := ProgOf(s, offset, blockSize, block, off, data, polls, sha, lzma);
            var addr := BlockStart(offset, blockSize, block) + off;
            r.lfs.cache.Keys == s.cache.Keys
            && (forall b :: b in s.cache && b != block ==> r.lfs.cache[b] == s.cache[b])
            && r.lfs.tool.progress == s.tool.progress
            && (ValidateExtflashOffset(addr).Fail? ==> r.result == Err(ValueError) && r.lfs.tool == s.tool)
            && (r.lfs.tool.counter == s.tool.counter || r.lfs.tool.counter == s.tool.counter + 1)
            && (r.result.Ok? && ValidateExtflashOffset(addr).Pass? && 0 < |lzma(data)| <= L.CHUNK_SIZE ==>
                  r.result.value == 0 && r.lfs.tool.counter == s.tool.counter + 1)
  {
    L.ExtflashWriteChecks(s.tool, BlockStart(offset, blockSize, block) + off, lzma(data), false, false,
                          |data|, Some(sha(data)), polls, sha);
  }

  /** `erase(block)`: the cached copy becomes `block_size` bytes of 0xFF, then
      `extflash_erase` erases exactly `block_size` bytes at the block's start; return 0. */
  function EraseOf(s: Lfs, offset: int, blockSize: nat, block: nat, polls: nat, sha: Bytes -> Bytes): LfsStep<int>
  {
    var cache := s.cache[block := Repeat(0xFF, blockSize)];
    var e := L.ExtflashEraseOf(s.tool, BlockStart(offset, blockSize, block), blockSize, false, polls, sha);
    LfsStep(F.Returned(e.result), Lfs(e.tool, cache))
  }

  /** After an erase a read of any window of the block is served from the cache as
      0xFF bytes with no transport call; the erase is refused, with nothing sent, for an
      empty block or an invalid block address. */
  lemma EraseThenRead(s: Lfs, offset: int, blockSize: nat, block: nat, off: nat, size: nat,
                      polls: nat, polls2: nat, sha: Bytes -> Bytes)
    ensures var e := EraseOf(s, offset, blockSize, block, polls, sha);
            var r := ReadOf(e.lfs, offset, blockSize, block, off, size, polls2);
            r.lfs == e.lfs
            && r.result.Ok?
            && |r.result.value| == (if off <= blockSize then Min(size, blockSize - off) else 0)
            && (forall k :: 0 <= k < |r.result.value| ==> r.result.value[k] == 0xFF)
            && (blockSize == 0 || ValidateExtflashOffset(BlockStart(offset, blockSize, block)).Fail? ==>
                  e.result == Err(ValueError) && e.lfs.tool == s.tool)
  {
    L.ExtflashEraseChecks(s.tool, BlockStart(offset, blockSize, block), blockSize, false, polls, sha);
  }

  /** The legacy `LfsDriverContext`: the tool, the start offset and the block cache. */
  class LegacyLfsDriver {
    const tool: L.LegacyTool
    const offset: int
    var cache: map<nat, Bytes>

    constructor(tool: L.LegacyTool, offset: int)
      requires ValidateExtflashOffset(offset).Pass?
      ensures this.tool == tool && this.offset == offset && cache == map[]
    {
      this.tool := tool;
      this.offset := offset;
      this.cache := map[];
    }

    function State(): Lfs
      reads this, tool, tool.backend
    {
      Lfs(tool.State(), cache)
    }

    method Read(blockSize: nat, block: nat, off: nat, size: nat, polls: nat) returns (r: Result<Bytes>)
      modifies this, tool.backend
      ensures LfsStep(r, State()) == ReadOf(old(State()), offset, blockSize, block, off, size, polls)
    {
      if block in cache {
        return Ok(Slice(cache[block], off, off + size));
      }
      var w := L.WaitForAllContextsComplete(tool.backend, polls);
      if w.Err? {
        return Err(w.error);
      }
      var start := BlockStart(offset, blockSize, block);
      if ValidateExtflashOffset(start).Fail? {
        return Err(ValueError);
      }
      var got := tool.backend.ReadMemory(EXTFLASH_BASE + start, size);
      if got.Err? {
        return Err(got.error);
      }
      cache := cache[block := got.value];
      r := Ok(Slice(got.value, off, off + size));
    }

    /** Bring a cached copy of `block` in line with a program of `data` at `off`. */
    method PatchCache(block: nat, off: nat, data: Bytes)
      modifies this
      ensures cache == F.PatchedCache(old(cache), block, off, data)
    {
      if block in cache {
        cache := cache[block := SliceAssign(cache[block], off, off + |data|, data)];
      }
    }

    method Prog(blockSize: nat, block: nat, off: nat, data: Bytes, polls: nat,
                sha: Bytes -> Bytes, lzma: Bytes -> Bytes) returns (r: Result<int>)
      modifies this, tool, tool.backend
      ensures LfsStep(r, State()) == ProgOf(old(State()), offset, blockSize, block, off, data, polls, sha, lzma)
    {
      PatchCache(block, off, data);
      var w := tool.ExtflashWrite(BlockStart(offset, blockSize, block) + off, lzma(data), false, false,
                                  |data|, Some(sha(data)), polls, sha);
      r := F.Returned(w);
    }

    method Erase(blockSize: nat, block: nat, polls: nat, sha: Bytes -> Bytes) returns (r: Result<int>)
      modifies this, tool, tool.backend
      ensures LfsStep(r, State()) == EraseOf(old(State()), offset, blockSize, block, polls, sha)
    {
      cache := cache[block := Repeat(0xFF, blockSize)];
      var e := tool.ExtflashErase(BlockStart(offset, blockSize, block), blockSize, false, polls, sha);
      r := F.Returned(e);
    }
  }
}
