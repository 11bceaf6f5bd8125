/** The block device under the LittleFS filesystem, gnwmanager/filesystem.py. The
    filesystem occupies the external flash up to `filesystem_end` and numbers its blocks
    from that end downwards: block `b` spans the `block_size` bytes that end
    `b * block_size` bytes before `filesystem_end`. Reads go through a per-driver cache
    of whole blocks; programs and erases go through the target's command pipeline.
    LittleFS itself, which calls these four operations, is not modelled. */
module Filesystem {
  import opened Common
  import opened Validation
  import opened MemoryMap
  import P = HostProtocol
  import H = Host
  import T = Target

  /** The driver's state: the target (transport and context counter) and the cache. */
  datatype Fs = Fs(mixin: T.Mixin, cache: map<nat, Bytes>)

  datatype FsStep<X> = FsStep(result: Result<X>, fs: Fs)

  /** Offset into external flash of the first byte of block `block`. */
  function BlockStart(filesystemEnd: int, blockSize: nat, block: nat): int
  {
    filesystemEnd - (block + 1) * blockSize
  }

  /** Blocks count down from `filesystem_end`: block 0 ends at the end, each block ends
      where the block before it starts, and two different blocks never overlap. */
  lemma BlocksFromEnd(filesystemEnd: int, blockSize: nat, b1: nat, b2: nat)
    requires blockSize > 0
    ensures BlockStart(filesystemEnd, blockSize, 0) + blockSize == filesystemEnd
    ensures BlockStart(filesystemEnd, blockSize, b1 + 1) + blockSize == BlockStart(filesystemEnd, blockSize, b1)
    ensures b1 < b2 ==> BlockStart(filesystemEnd, blockSize, b2) + blockSize <= BlockStart(filesystemEnd, blockSize, b1)
  {
    if b1 < b2 {
      calc {
        BlockStart(filesystemEnd, blockSize, b2) + blockSize;
        filesystemEnd - b2 * blockSize;
      <= { assert b2 * blockSize >= (b1 + 1) * blockSize by { MulMono(b1 + 1, b2, blockSize); } }
        filesystemEnd - (b1 + 1) * blockSize;
        BlockStart(filesystemEnd, blockSize, b1);
      }
    }
  }

  lemma MulMono(a: nat, b: nat, c: nat)
    requires a <= b
    ensures a * c <= b * c
  {
  }

  // ---- Construction ----

  /** `LfsDriverContext(target, filesystem_end)` refuses an end that is not a valid
      external-flash offset. */
  function OpenOf(filesystemEnd: int): (r: Outcome)
    ensures r.Pass? <==> filesystemEnd < EXTFLASH_BASE && filesystemEnd % EXTFLASH_ALIGN == 0
  {
    ValidateExtflashOffset(filesystemEnd)
  }

  /** `get_filesystem(target, offset)`: read `flash_size` and `min_erase_size` from the
      communication block; the filesystem ends `offset` bytes before the end of flash and
      its blocks are `min_erase_size` long. The result is the driver's end, its block
      size, and the link after the two reads. */
  function GetFilesystemOf(l: P.Link, offset: int): P.Run<(int, nat)>
  {
    var f := P.ReadWord(l, P.Comm(FlashSize));
    if f.result.Err? then P.Run(Err(f.result.error), f.link)
    else
      var b := P.ReadWord(f.link, P.Comm(MinEraseSize));
      if b.result.Err? then P.Run(Err(b.result.error), b.link)
      else
        var filesystemEnd := f.result.value - offset;
        if OpenOf(filesystemEnd).Fail? then P.Run(Err(ValueError), b.link)
        else P.Run(Ok((filesystemEnd, b.result.value as nat)), b.link)
  }

  /** A driver is only opened on the two words the device reported: the end is
      `flash_size - offset` and must be a valid offset, the block size is
      `min_erase_size`, and exactly those two reads happen. */
  lemma GetFilesystemReads(l: P.Link, offset: int)
    ensures var r := GetFilesystemOf(l, offset);
            (|l.words| < 2 ==> r.result == Err(TransportError))
            && (|l.words| >= 2 ==>
                  r.link.log == l.log + [P.Read32(P.Comm(FlashSize), l.words[0]), P.Read32(P.Comm(MinEraseSize), l.words[1])]
                  && r.link.words == l.words[2..]
                  && (r.result.Ok? <==> OpenOf(l.words[0] - offset).Pass?)
                  && (r.result.Ok? ==> r.result.value == (l.words[0] - offset, l.words[1] as nat))
                  && (r.result.Err? ==> r.result == Err(ValueError)))
  {
  }

  // ---- Block operations ----

  /** `read(block, off, size)`: a cached block is sliced without touching the target.
      Otherwise wait for both contexts (the flash is not memory-mapped while a program
      or erase is pending), read `size` bytes from the block's memory-mapped start,
      cache what came back as the block, and slice that. */
  function ReadOf(s: Fs, filesystemEnd: int, blockSize: nat, block: nat, off: nat, size: nat, polls: nat)
    : FsStep<Bytes>
  {
    if block in s.cache then FsStep(Ok(Slice(s.cache[block], off, off + size)), s)
    else
      var w := P.WaitForAllContextsComplete(s.mixin.link, polls);
      if w.result.Err? then FsStep(Err(w.result.error), s.(mixin := s.mixin.(link := w.link)))
      else
        var got := P.ReadBlock(w.link, EXTFLASH_BASE + BlockStart(filesystemEnd, blockSize, block), size);
        if got.result.Err? then FsStep(Err(got.result.error), s.(mixin := s.mixin.(link := got.link)))
        else
          var cache := s.cache[block := got.result.value];
          FsStep(Ok(Slice(got.result.value, off, off + size)), Fs(s.mixin.(link := got.link), cache))
  }

  /** A cached block is served from the cache: the result is the requested window of
      the cached bytes and nothing else changes. An uncached block is read from flash at
      its memory-mapped address after the contexts are drained; on success the bytes the
      target returned become the block's cache entry, every other entry is kept, and the
      context counter is untouched. */
  lemma ReadServes(s: Fs, filesystemEnd: int, blockSize: nat, block: nat, off: nat, size: nat, polls: nat)
    ensures var r := ReadOf(s, filesystemEnd, blockSize, block, off, size, polls);
            (block in s.cache ==> r == FsStep(Ok(Slice(s.cache[block], off, off + size)), s))
            && r.fs.mixin.counter == s.mixin.counter
            && (block !in s.cache && r.result.Ok? ==>
                  var w := P.WaitForAllContextsComplete(s.mixin.link, polls);
                  var data := w.link.blocks[0];
                  w.result.Ok? && w.link.blocks != []
                  && r.fs.mixin.link.log == w.link.log
                                         + [P.ReadMem(EXTFLASH_BASE + BlockStart(filesystemEnd, blockSize, block), size, data)]
                  && r.fs.cache == s.cache[block := data]
                  && r.result.value == Slice(data, off, off + size))
            && (r.result.Err? ==> r.fs.cache == s.cache)
  {
  }

  /** The first read of a block that LittleFS issues with a read size equal to the
      block size (offset 0, the whole block) caches the whole block, and every later
      read of any window of that block is answered from the cache. */
  lemma {:induction false} ReadWholeBlockThenHit(s: Fs, filesystemEnd: int, blockSize: nat, block: nat,
                                                 off: nat, size: nat, polls: nat, polls2: nat)
    requires block !in s.cache
    ensures var r := ReadOf(s, filesystemEnd, blockSize, block, 0, blockSize, polls);
            r.result.Ok? ==>
              block in r.fs.cache
              && (|r.fs.cache[block]| == blockSize ==> r.result.value == r.fs.cache[block])
              && ReadOf(r.fs, filesystemEnd, blockSize, block, off, size, polls2)
                   == FsStep(Ok(Slice(r.fs.cache[block], off, off + size)), r.fs)
  {
    var r := ReadOf(s, filesystemEnd, blockSize, block, 0, blockSize, polls);
    ReadServes(s, filesystemEnd, blockSize, block, 0, blockSize, polls);
    if r.result.Ok? {
      var data := r.fs.cache[block];
      if |data| == blockSize {
        assert Slice(data, 0, blockSize) == data;
      }
      ReadServes(r.fs, filesystemEnd, blockSize, block, off, size, polls2);
    }
  }

  /** The callbacks return 0 once the target call returns; its exceptions propagate. */
  function Returned(r: Result<()>): (v: Result<int>)
    ensures v.Ok? <==> r.Ok?
    ensures v.Ok? ==> v.value == 0
    ensures v.Err? ==> v.error == r.error
  {
    if r.Err? then Err(r.error) else Ok(0)
  }

  /** The cache after a program of `data` at `off` in `block`: a cached copy is
      slice-assigned, an absent block stays absent. */
  function PatchedCache(cache: map<nat, Bytes>, block: nat, off: nat, data: Bytes): map<nat, Bytes>
  {
    if block in cache then cache[block := SliceAssign(cache[block], off, off + |data|, data)] else cache
  }

  /** `prog(block, off, data)`: patch a cached copy of the block in place (before the
      target is involved, so even when the program fails), then program `data` at the
      block's start plus `off` with `erase=False`, blocking and compressed; return 0. */
  function ProgOf(s: Fs, filesystemEnd: int, blockSize: nat, block: nat, off: nat, data: Bytes, polls: nat,
                  sha: Bytes -> Bytes, lzma: Bytes -> Bytes): FsStep<int>
  {
    var cache := PatchedCache(s.cache, block, off, data);
    var p := T.ProgOf(s.mixin, 0, BlockStart(filesystemEnd, blockSize, block) + off, data, false, true, true,
                      polls, sha, lzma);
    FsStep(Returned(p.result), Fs(p.state, cache))
  }

  /** A program keeps the cache equal to what the flash will hold: a cached block whose
      window lies inside it keeps its length, takes `data` in the window and keeps every
      other byte; no other entry changes, and no entry is created. The program itself
      goes to the target at the block's start plus `off`, so it is refused, with no
      transport call, unless that address is 4 KiB aligned. */
  lemma ProgUpdatesCache(s: Fs, filesystemEnd: int, blockSize: nat, block: nat, off: nat, data: Bytes,
                         polls: nat, sha: Bytes -> Bytes, lzma: Bytes -> Bytes)
    ensures var r := ProgOf(s, filesystemEnd, blockSize, block, off, data, polls, sha, lzma);
            var addr := BlockStart(filesystemEnd, blockSize, block) + off;
            r.fs.cache.Keys == s.cache.Keys
            && (forall b :: b in s.cache && b != block ==> r.fs.cache[b] == s.cache[b])
            && (block in s.cache && off + |data| <= |s.cache[block]| ==>
                  |r.fs.cache[block]| == |s.cache[block]|
                  && r.fs.cache[block][off..off + |data|] == data
                  && (forall k :: 0 <= k < |s.cache[block]| && !(off <= k < off + |data|) ==>
                        r.fs.cache[block][k] == s.cache[block][k]))
            && (ValidateExtflashOffset(addr).Fail? ==> r.result == Err(ValueError) && r.fs.mixin == s.mixin)
            && (r.result.Ok? ==> r.result.value == 0)
  {
    var addr := BlockStart(filesystemEnd, blockSize, block) + off;
    T.ProgChecks(s.mixin, 0, addr, data, false, true, true, polls, sha, lzma);
    if block in s.cache && off + |data| <= |s.cache[block]| {
      SliceAssignInPlace(s.cache[block], off, data);
    }
  }

  /** `erase(block)`: the cached copy becomes `block_size` bytes of 0xFF, then the
      target erases exactly `block_size` bytes at the block's start; return 0. */
  function EraseOf(s: Fs, filesystemEnd: int, blockSize: nat, block: nat, polls: nat, sha: Bytes -> Bytes)
    : FsStep<int>
  {
    var cache := s.cache[block := Repeat(0xFF, blockSize)];
    var e := T.EraseExtOf(s.mixin, BlockStart(filesystemEnd, blockSize, block), blockSize, false, polls, sha);
    FsStep(Returned(e.result), Fs(e.state, cache))
  }

  /** After an erase, whether the target's erase succeeded or not, a read of any window
      of the block is served from the cache as erased flash (0xFF bytes) with no
      transport call. The erase is refused, with no transport call, for an empty block
      or a block whose start is not a valid external-flash offset. */
  lemma EraseThenRead(s: Fs, filesystemEnd: int, blockSize: nat, block: nat, off: nat, size: nat,
                      polls: nat, polls2: nat, sha: Bytes -> Bytes)
    ensures var e := EraseOf(s, filesystemEnd, blockSize, block, polls, sha);
            var r := ReadOf(e.fs, filesystemEnd, blockSize, block, off, size, polls2);
            r.fs == e.fs
            && r.result.Ok?
            && |r.result.value| == (if off <= blockSize then Min(size, blockSize - off) else 0)
            && (forall k :: 0 <= k < |r.result.value| ==> r.result.value[k] == 0xFF)
            && (blockSize == 0 || ValidateExtflashOffset(BlockStart(filesystemEnd, blockSize, block)).Fail? ==>
                  e.result == Err(ValueError) && e.fs.mixin == s.mixin)
  {
    T.EraseExtChecks(s.mixin, BlockStart(filesystemEnd, blockSize, block), blockSize, false, polls, sha);
  }

  /** `sync` has nothing to flush. */
  function SyncOf(): (r: int)
    ensures r == 0
  {
    0
  }

  // ---- The driver object ----

  /** `LfsDriverContext`: the target, the end of the filesystem and the block cache. */
  class LfsDriver {
    const target: T.TargetMixin
    const filesystemEnd: int
    var cache: map<nat, Bytes>

    constructor(target: T.TargetMixin, filesystemEnd: int)
      requires OpenOf(filesystemEnd).Pass?
      ensures this.target == target && this.filesystemEnd == filesystemEnd && cache == map[]
    {
      this.target := target;
      this.filesystemEnd := filesystemEnd;
      this.cache := map[];
    }

    function State(): Fs
      reads this, target, target.backend
    {
      Fs(target.State(), cache)
    }

    method Read(blockSize: nat, block: nat, off: nat, size: nat, polls: nat) returns (r: Result<Bytes>)
      modifies this, target.backend
      ensures FsStep(r, State()) == ReadOf(old(State()), filesystemEnd, blockSize, block, off, size, polls)
    {
      if block in cache {
        return Ok(Slice(cache[block], off, off + size));
      }
      var w := H.WaitForAllContextsComplete(target.backend, polls);
      if w.Err? {
        return Err(w.error);
      }
      var got := target.backend.ReadMemory(EXTFLASH_BASE + BlockStart(filesystemEnd, blockSize, block), size);
      if got.Err? {
        return Err(got.error);
      }
      cache := cache[block := got.value];
      r := Ok(Slice(got.value, off, off + size));
    }

    method Prog(blockSize: nat, block: nat, off: nat, data: Bytes, polls: nat,
                sha: Bytes -> Bytes, lzma: Bytes -> Bytes) returns (r: Result<int>)
      modifies this, target, target.backend
      ensures FsStep(r, State()) == ProgOf(old(State()), filesystemEnd, blockSize, block, off, data, polls, sha, lzma)
    {
      PatchCache(block, off, data);
      var p := target.Prog(0, BlockStart(filesystemEnd, blockSize, block) + off, data, false, true, true,
                           polls, sha, lzma);
      r := Returned(p);
    }

    /** Bring a cached copy of `block` in line with a program of `data` at `off`. */
    method PatchCache(block: nat, off: nat, data: Bytes)
      modifies this
      ensures cache == PatchedCache(old(cache), block, off, data)
    {
      if block in cache {
        cache := cache[block := SliceAssign(cache[block], off, off + |data|, data)];
      }
    }

    method Erase(blockSize: nat, block: nat, polls: nat, sha: Bytes -> Bytes) returns (r: Result<int>)
      modifies this, target, target.backend
      ensures FsStep(r, State()) == EraseOf(old(State()), filesystemEnd, blockSize, block, polls, sha)
    {
      cache := cache[block := Repeat(0xFF, blockSize)];
      var e := target.EraseExt(BlockStart(filesystemEnd, blockSize, block), blockSize, false, polls, sha);
      r := Returned(e);
    }
  }

  /** `get_filesystem(target, offset)` up to the mount: read the flash geometry and open
      a driver on it. */
  method GetFilesystem(target: T.TargetMixin, offset: int) returns (r: Result<(LfsDriver, nat)>)
    modifies target.backend
    ensures var g := GetFilesystemOf(old(target.backend.Link()), offset);
            target.backend.Link() == g.link
            && (r.Ok? <==> g.result.Ok?)
            && (r.Ok? ==> fresh(r.value.0) && r.value.0.target == target && r.value.0.cache == map[]
                          && (r.value.0.filesystemEnd, r.value.1) == g.result.value)
            && (r.Err? ==> r.error == g.result.error)
  {
    var flashSize := target.backend.ReadUint32(P.Comm(FlashSize));
    if flashSize.Err? {
      return Err(flashSize.error);
    }
    var blockSize := target.backend.ReadUint32(P.Comm(MinEraseSize));
    if blockSize.Err? {
      return Err(blockSize.error);
    }
    var filesystemEnd := flashSize.value - offset;
    if OpenOf(filesystemEnd).Fail? {
      return Err(ValueError);
    }
    var driver := new LfsDriver(target, filesystemEnd);
    r := Ok((driver, blockSize.value as nat));
  }
}
