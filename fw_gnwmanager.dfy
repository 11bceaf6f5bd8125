/** The on-device manager of Core/Src/gnwmanager.c: a state machine that is stepped
    once per pass of the main loop. It claims the work context the host marked ready,
    hashes, erases and programs flash, and releases the context when done. The flash
    chip, the hash peripheral and the LZMA decoder are the parameters in `Env`; what
    the firmware does to the chips is recorded as a log of `FlashOp`s. */
module FwGnwmanager {
  import opened Common
  import opened MemoryMap

  // States of `gnwmanager_state_t`.
  const IDLE := 0
  const DECOMPRESSING := 1
  const CHECK_HASH_RAM := 2
  const ERASE := 3
  const ERASE_FINISH := 4
  const PROGRAM := 5
  const CHECK_HASH_FLASH := 6
  const ERROR := 0xF000

  // Status words the host polls (gnwmanager.h).
  const STATUS_BOOTING := 0
  const STATUS_BAD_HASH_RAM := 0xbad0_0001
  const STATUS_BAD_HASH_FLASH := 0xbad0_0002
  const STATUS_NOT_ALIGNED := 0xbad0_0003
  const STATUS_BAD_DECOMPRESS := 0xbad0_0004
  const STATUS_IDLE := 0xcafe_0000
  const STATUS_ERASE := 0xcafe_0001
  const STATUS_PROG := 0xcafe_0002
  const STATUS_HASH := 0xcafe_0003

  const ACTION_HASH := 1

  /** The hash action digests flash in chunks of 256 KiB. */
  const HASH_CHUNK := 256 * 1024
  /** Internal flash sectors are 8 KiB; a flash word is 16 bytes; an OSPI page 256. */
  const SECTOR := 8192
  const FLASH_WORD := 16
  const PAGE := 256

  /** What `OSPI_Erase` reports: the next offset and bytes left, and whether it is done. */
  datatype EraseProgress = EraseProgress(offset: int, left: int, done: bool)

  /** The hardware as the firmware sees it during one step. */
  datatype Env = Env(
    flashHash: (nat, int, int) -> Digest,  // sha256bank(bank, offset, size) over flash
    sha: Bytes -> Digest,                   // the hash peripheral over RAM
    inflate: Bytes -> Bytes,                // lzma_inflate: the decompressed bytes
    extErased: (int, int) -> bool,          // ext_is_erased(offset, size)
    smallestErase: pos,                     // OSPI_GetSmallestEraseSize()
    ospiErase: (int, int) -> EraseProgress, // OSPI_Erase(&offset, &left, false)
    chipIdle: bool)                         // OSPI_ChipIdle()

  /** The chip operations the firmware issues, in order. */
  datatype FlashOp =
    | PageProgram(address: int, data: Bytes)
    | WordProgram(address: int, data: Bytes)
    | ChipErase
    | ExtErase(offset: int, size: int)
    | SectorErase(bank: nat, sector: int, count: int)

  /** The active context: the fields the firmware uses, as unsigned words, and
      `cursor`, how far its `buffer` pointer has advanced through the data. */
  datatype Ctx = Ctx(size: u32, offset: u32, erase: u32, eraseBytes: u32, compressedSize: u32,
                     expected: Bytes, bank: u32, action: u32, cursor: nat)

  /** `memcpy` of a shared context into the active one, every word field read as an
      unsigned word and the buffer pointer at the start of the data. */
  function Load(c: WorkContext): Ctx
  {
    Ctx(Word(c.size), Word(c.offset), Word(c.erase), Word(c.eraseBytes), Word(c.compressedSize),
        c.expectedSha256, Word(c.bank), Word(c.action), 0)
  }

  /** `struct gnwmanager_comm`: the words the host polls and sets, the two shared
      contexts, the active copy, the two transfer buffers and the decompress buffer. */
  datatype Comm = Comm(status: int, utcTimestamp: int, flashSize: int, minEraseSize: int,
                       contexts: seq<WorkContext>, active: Ctx, buffers: seq<Bytes>,
                       decompressBuffer: Bytes)

  /** The hardware outside `comm`: the RTC, the log of chip operations, and whether an
      `assert` failed or a loop cannot end (`hung`). */
  datatype Device = Device(clock: int, flash: seq<FlashOp>, hung: bool)

  /** The firmware's whole state: `comm`, the static variables of `gnwmanager_run`
      and `context_counter`, and the hardware. */
  datatype Fw = Fw(comm: Comm, state: int, source: nat, counter: u32,
                   eraseOffset: int, eraseBytesLeft: int, programOffset: int, programBytesRemaining: nat,
                   hw: Device)

  predicate Wf(f: Fw)
  {
    |f.comm.contexts| == CONTEXT_COUNT && |f.comm.buffers| == CONTEXT_COUNT && f.source < CONTEXT_COUNT
  }

  function WithStatus(f: Fw, status: int): Fw
  {
    f.(comm := f.comm.(status := status))
  }

  function Issue(f: Fw, ops: seq<FlashOp>): Fw
  {
    f.(hw := f.hw.(flash := f.hw.flash + ops))
  }

  function Hang(f: Fw): Fw
  {
    f.(hw := f.hw.(hung := true))
  }

  /** Where each bank's offsets start in the address space. */
  function BankBase(bank: int): int
  {
    if bank == 0 then 0 else if bank == 1 then 0x0800_0000 else 0x0810_0000
  }

  /** `gnwmanager_main` before its loop: `comm` zeroed, the flash geometry published,
      the statics at their initial values (`context_counter` is 1). Nothing is ready
      to be claimed until the host writes a context. */
  function Boot(flashSize: u32, minEraseSize: u32): (f: Fw)
    ensures Wf(f) && f.state == IDLE && f.hw.flash == [] && !f.hw.hung
    ensures f.comm.flashSize == flashSize && f.comm.minEraseSize == minEraseSize
    ensures GetContextOf(f.comm.contexts, f.counter).None?
  {
    Fw(Comm(STATUS_BOOTING, 0, flashSize, minEraseSize, [RELEASED, RELEASED], Load(RELEASED),
            [Repeat(0, BUFFER_SIZE), Repeat(0, BUFFER_SIZE)], Repeat(0, BUFFER_SIZE)),
       IDLE, 0, 1, 0, 0, 0, 0, Device(0, [], false))
  }

  // ---------------------------------------------------------------------------
  // get_context / release_context (Core/Src/gnwmanager.c:185-200)

  /** `get_context`: the first context whose `ready` word equals the counter. */
  function GetContextOf(contexts: seq<WorkContext>, counter: u32): (r: Option<nat>)
    requires |contexts| == CONTEXT_COUNT
    ensures r.Some? ==> r.value < CONTEXT_COUNT && Word(contexts[r.value].ready) == counter
                        && forall j :: 0 <= j < r.value ==> Word(contexts[j].ready) != counter
    ensures r.None? <==> forall j :: 0 <= j < CONTEXT_COUNT ==> Word(contexts[j].ready) != counter
  {
    if Word(contexts[0].ready) == counter then Some(0)
    else if Word(contexts[1].ready) == counter then Some(1)
    else None
  }

  /** `release_context` zeroes the whole struct, `ready` included, so `get_context`
      passes over a released context for every counter but 0 (the counter starts at 1
      and reaches 0 again only after wrapping around 2^32). */
  lemma ReleasedNotReady(contexts: seq<WorkContext>, j: nat, counter: u32)
    requires |contexts| == CONTEXT_COUNT && j < CONTEXT_COUNT && contexts[j] == RELEASED && counter != 0
    ensures GetContextOf(contexts, counter) != Some(j)
    ensures var r := contexts[j];
            r.size == 0 && r.offset == 0 && r.erase == 0 && r.eraseBytes == 0
            && r.compressedSize == 0 && r.bank == 0 && r.action == 0
            && r.responseReady == 0 && r.ready == 0
            && (forall k :: 0 <= k < |r.expectedSha256| ==> r.expectedSha256[k] == 0)
  {
  }

  // ---------------------------------------------------------------------------
  // gnwmanager_action_hash (Core/Src/gnwmanager.c:211-229)

  /** Digest `k` of the hash action: flash bank 0 from `offset + k * 256 KiB`, the last
      chunk short. */
  function ChunkHashes(h: (nat, int, int) -> Digest, offset: int, size: nat): (r: seq<Digest>)
    decreases size
  {
    if size == 0 then []
    else [h(0, offset, Min(HASH_CHUNK, size))]
         + ChunkHashes(h, offset + HASH_CHUNK, if size <= HASH_CHUNK then 0 else size - HASH_CHUNK)
  }

  /** There is one digest per started 256 KiB chunk, and digest `k` covers bytes
      `[k * 256 KiB, min((k + 1) * 256 KiB, size))` of the range. */
  lemma {:induction false} ChunkHashesCover(h: (nat, int, int) -> Digest, offset: int, size: nat, k: nat)
    ensures |ChunkHashes(h, offset, size)| == CeilDiv(size, HASH_CHUNK)
    ensures k < CeilDiv(size, HASH_CHUNK) ==>
              k * HASH_CHUNK < size
              && ChunkHashes(h, offset, size)[k]
                 == h(0, offset + k * HASH_CHUNK, Min(HASH_CHUNK, size - k * HASH_CHUNK))
    decreases size
  {
    if size == 0 {
    } else if size <= HASH_CHUNK {
      DivOne(size + HASH_CHUNK - 1, HASH_CHUNK);
    } else {
      ChunkHashesCover(h, offset + HASH_CHUNK, size - HASH_CHUNK, if k == 0 then 0 else k - 1);
      DivStep(size - HASH_CHUNK + HASH_CHUNK - 1, HASH_CHUNK);
    }
  }

  /** The response buffer after the hash action: the digests back to back, then what
      the buffer held before. */
  function Respond(buffer: Bytes, digests: seq<Digest>): Bytes
  {
    var out := Flatten(digests);
    out + buffer[Min(|out|, |buffer|)..]
  }

  /** Flattened digests sit at 32-byte strides. */
  lemma {:induction false} FlattenDigests(ds: seq<Digest>, k: nat)
    ensures |Flatten(ds)| == 32 * |ds|
    ensures k < |ds| ==> Flatten(ds)[32 * k .. 32 * k + 32] == ds[k]
  {
    if ds != [] {
      FlattenDigests(ds[1..], if k == 0 then 0 else k - 1);
      if 0 < k < |ds| {
        assert Flatten(ds)[32 * k .. 32 * k + 32] == Flatten(ds[1..])[32 * (k - 1) .. 32 * (k - 1) + 32];
      }
    }
  }

  /** The hash action: the digests go into the context's buffer and `response_ready`
      is set; the context is not released. */
  function HashActionOf(f: Fw, i: nat, env: Env): (r: Fw)
    requires Wf(f) && i < CONTEXT_COUNT
    ensures Wf(r) && r == f.(comm := f.comm.(buffers := r.comm.buffers, contexts := r.comm.contexts))
  {
    var c := Load(f.comm.contexts[i]);
    var ds := ChunkHashes(env.flashHash, c.offset, c.size);
    f.(comm := f.comm.(buffers := f.comm.buffers[i := Respond(f.comm.buffers[i], ds)],
                       contexts := f.comm.contexts[i := f.comm.contexts[i].(responseReady := 1)]))
  }

  // ---------------------------------------------------------------------------
  // erase_intflash (Core/Src/gnwmanager.c:133-155)

  /** `erase_intflash`: asserts bank 1 or 2 and 8 KiB alignment of offset and size, then
      erases `size >> 13` sectors starting at sector `offset >> 13`. */
  function EraseIntflashOf(f: Fw, bank: u32, offset: u32, size: u32): Fw
  {
    var b := bank % 256;
    if !(b == 1 || b == 2) || offset % SECTOR != 0 || size % SECTOR != 0 then Hang(f)
    else Issue(f, [SectorErase(b, offset / SECTOR, size / SECTOR)])
  }

  /** The sectors erased are exactly those of `[offset, offset + size)`. */
  lemma EraseIntflashSectors(f: Fw, bank: u32, offset: u32, size: u32)
    ensures var g := EraseIntflashOf(f, bank, offset, size);
            (g.hw.hung <==> f.hw.hung || !(bank % 256 in {1, 2}) || offset % SECTOR != 0 || size % SECTOR != 0)
            && (!g.hw.hung ==> exists s, n :: g.hw.flash == f.hw.flash + [SectorErase(bank % 256, s, n)]
                                              && s * SECTOR == offset && n * SECTOR == size)
  {
    var g := EraseIntflashOf(f, bank, offset, size);
    if !g.hw.hung {
      assert g.hw.flash == f.hw.flash + [SectorErase(bank % 256, offset / SECTOR, size / SECTOR)];
    }
  }

  // ---------------------------------------------------------------------------
  // The IDLE state (Core/Src/gnwmanager.c:261-335)

  /** Start a background erase of external flash: the offset must be aligned to the
      smallest erase size, and the byte count is rounded up to it. */
  function StartEraseOf(f: Fw, env: Env): (r: Fw)
    ensures r.comm == f.comm.(status := r.comm.status)
    ensures r.source == f.source && r.counter == f.counter && r.programOffset == f.programOffset
            && r.programBytesRemaining == f.programBytesRemaining
            && r.hw.clock == f.hw.clock && r.hw.hung == f.hw.hung
    ensures r.state == f.state + 1 || r.state == ERROR
  {
    var off := f.comm.active.offset;
    var left := f.comm.active.eraseBytes;
    var s := env.smallestErase;
    if off % s != 0 then
      WithStatus(f, STATUS_NOT_ALIGNED).(eraseOffset := off, eraseBytesLeft := left, state := ERROR)
    else
      var rounded := if left % s != 0 then left + (s - left % s) else left;
      var p := env.ospiErase(off, rounded);
      Issue(f, [ExtErase(off, rounded)]).(eraseOffset := p.offset, eraseBytesLeft := p.left, state := f.state + 1)
  }

  /** The erase is refused for a misaligned offset; otherwise the size handed to the
      chip is the smallest multiple of the erase size that covers the request. */
  lemma StartEraseRoundsUp(f: Fw, env: Env)
    ensures var g := StartEraseOf(f, env);
            var s := env.smallestErase;
            var c := f.comm.active;
            (c.offset % s != 0 ==> g.comm.status == STATUS_NOT_ALIGNED && g.state == ERROR && g.hw.flash == f.hw.flash)
            && (c.offset % s == 0 ==>
                  g.state == f.state + 1 && |g.hw.flash| == |f.hw.flash| + 1
                  && var op := g.hw.flash[|f.hw.flash|];
                     op.ExtErase? && op.offset == c.offset
                     && op.size % s == 0 && c.eraseBytes <= op.size < c.eraseBytes + s)
  {
    var s := env.smallestErase;
    var left := f.comm.active.eraseBytes;
    if f.comm.active.offset % s == 0 && left % s != 0 {
      DivUnique(left + (s - left % s), s, left / s + 1, 0);
    }
  }

  /** `memcpy` of context `i` into the active context and the program cursor set to
      its offset (plus the bank's base) and size; an internal bank must be 1 or 2 and
      its offset and size whole 8 KiB sectors, or the firmware's `assert` stops it. */
  function TakeOf(f: Fw, i: nat): (r: Fw)
    requires Wf(f) && i < CONTEXT_COUNT
  {
    var c := Load(f.comm.contexts[i]);
    var f1 := f.(comm := f.comm.(active := c), source := i, programOffset := c.offset, programBytesRemaining := c.size);
    if c.bank != 0 && (!(c.bank == 1 || c.bank == 2) || c.offset % SECTOR != 0 || c.size % SECTOR != 0) then
      Hang(f1)
    else f1.(programOffset := c.offset + BankBase(c.bank))
  }

  /** Skip a context whose data flash already holds (releasing it), else go on to the
      erase decision. */
  function SkipOf(f: Fw, env: Env): (r: Fw)
    requires Wf(f)
  {
    var c := f.comm.active;
    if c.size == 0 then ScheduleOf(f, env)
    else
      var f1 := WithStatus(f, STATUS_HASH);
      if env.flashHash(c.bank, c.offset, c.size) == c.expected then
        f1.(comm := f1.comm.(contexts := f1.comm.contexts[f.source := RELEASED]))
      else ScheduleOf(f1, env)
  }

  /** Claiming an erase-and-flash context: copy it, set up the program cursor, skip
      the work if flash already holds the data, drop an erase of already erased
      external flash, and start the erase. */
  function ClaimOf(f: Fw, i: nat, env: Env): (r: Fw)
    requires Wf(f) && i < CONTEXT_COUNT
    ensures Wf(r) && r.counter == f.counter && r.comm.utcTimestamp == f.comm.utcTimestamp
    ensures r.hw.clock == f.hw.clock && r.comm.buffers == f.comm.buffers
    ensures !r.hw.hung ==>
              var c := r.comm.active;
              r.source == i && c == Load(f.comm.contexts[i]).(erase := c.erase)
              && (c.bank == 0 || c.bank == 1 || c.bank == 2)
              && (c.bank != 0 ==> c.size % SECTOR == 0)
              && r.programOffset == BankBase(c.bank) + c.offset
              && r.programBytesRemaining == c.size
              && (r.state == f.state + 1 || r.state == ERROR
                  || (r.state == f.state && r.comm.contexts == f.comm.contexts[i := RELEASED]))
              && (r.state != f.state ==> r.comm.contexts == f.comm.contexts)
  {
    var f1 := TakeOf(f, i);
    if f1.hw.hung then f1 else SkipOf(f1, env)
  }

  /** The erase decision of a claimed context, then on to decompression. */
  function ScheduleOf(f: Fw, env: Env): (r: Fw)
    ensures r.comm == f.comm.(status := r.comm.status, active := f.comm.active.(erase := r.comm.active.erase))
    ensures r.source == f.source && r.counter == f.counter && r.programOffset == f.programOffset
            && r.programBytesRemaining == f.programBytesRemaining
            && r.hw.clock == f.hw.clock && r.hw.hung == f.hw.hung
    ensures r.state == f.state + 1 || r.state == ERROR
  {
    var c := f.comm.active;
    var f1 := if c.bank == 0 && c.eraseBytes != 0 && env.extErased(c.offset, c.eraseBytes)
              then f.(comm := f.comm.(active := c.(erase := 0))) else f;
    if f1.comm.active.erase == 0 then f1.(state := f1.state + 1)
    else
      var f2 := WithStatus(f1, STATUS_ERASE);
      if c.bank == 0 then StartEraseOf(f2, env) else f2.(state := f2.state + 1)
  }

  /** A nonzero `utc_timestamp` from the host sets the clock and is cleared. */
  function ClockOf(f: Fw): (r: Fw)
  {
    if f.comm.utcTimestamp != 0 then
      f.(comm := f.comm.(utcTimestamp := 0), hw := f.hw.(clock := f.comm.utcTimestamp))
    else f
  }

  /** Claim the next ready context, if any, count it, and run a hash action at once. */
  function PickOf(f: Fw, env: Env): (r: Fw)
    requires Wf(f)
    ensures Wf(r)
  {
    var found := GetContextOf(f.comm.contexts, f.counter);
    if found.None? then WithStatus(f, STATUS_IDLE)
    else
      var i := found.value;
      var f1 := f.(counter := (f.counter + 1) % U32_LIMIT);
      if Word(f1.comm.contexts[i].action) == ACTION_HASH then HashActionOf(WithStatus(f1, STATUS_HASH), i, env)
      else ClaimOf(f1, i, env)
  }

  /** One IDLE step: apply a pending clock setting, then claim the next ready context,
      if any, and count it. */
  function IdleOf(f: Fw, env: Env): (r: Fw)
    requires Wf(f)
    ensures Wf(r)
  {
    PickOf(ClockOf(f), env)
  }

  // ---------------------------------------------------------------------------
  // The working states (Core/Src/gnwmanager.c:336-460)

  /** Fill the decompress buffer: inflate the payload, or copy it when it came
      uncompressed; a bad inflate reports BAD_DECOMPRESS and enters ERROR. */
  function FillOf(f: Fw, env: Env): (r: Fw)
    requires Wf(f)
    ensures Wf(r)
    ensures r == f.(comm := f.comm.(decompressBuffer := r.comm.decompressBuffer, status := r.comm.status),
                    state := r.state)
    ensures r.state == f.state || r.state == ERROR
  {
    var c := f.comm.active;
    if c.compressedSize != 0 then
      var out := env.inflate(Slice(f.comm.buffers[f.source], 0, c.compressedSize));
      if |out| == 0 || |out| != c.size then
        f.(comm := f.comm.(decompressBuffer := out, status := STATUS_BAD_DECOMPRESS), state := ERROR)
      else f.(comm := f.comm.(decompressBuffer := out))
    else f.(comm := f.comm.(decompressBuffer := Slice(f.comm.buffers[f.source], 0, c.size)))
  }

  /** DECOMPRESSING: fill RAM, point the active buffer at it, and release the source
      context. A bad inflate sets ERROR and then, like the source, still increments
      the state. */
  function DecompressOf(f: Fw, env: Env): (r: Fw)
    requires Wf(f)
  {
    var f1 := FillOf(f, env);
    f1.(comm := f1.comm.(active := f1.comm.active.(cursor := 0),
                         contexts := f1.comm.contexts[f1.source := RELEASED]),
        state := f1.state + 1)
  }

  /** CHECK_HASH_RAM: the payload in RAM must hash to the expected digest. */
  function CheckHashRamOf(f: Fw, env: Env): Fw
  {
    var c := f.comm.active;
    if env.sha(Slice(f.comm.decompressBuffer, c.cursor, c.cursor + c.size)) != c.expected then
      WithStatus(f, STATUS_BAD_HASH_RAM).(state := ERROR)
    else f.(state := f.state + 1)
  }

  /** ERASE: a whole-chip erase, one more slice of a background external erase, or a
      blocking internal erase (256 KiB when no size was given). */
  function EraseOf(f: Fw, env: Env): Fw
  {
    if f.comm.active.erase == 0 then f.(state := PROGRAM)
    else
      var f1 := WithStatus(f, STATUS_ERASE);
      if f.comm.active.bank == 0 then EraseExtOf(f1, env) else EraseIntOf(f1)
  }

  /** External flash: a whole-chip erase when no size was given, else one more slice
      of the background erase, until the driver reports it done. */
  function EraseExtOf(f: Fw, env: Env): (r: Fw)
  {
    if f.comm.active.eraseBytes == 0 then Issue(f, [ChipErase]).(state := f.state + 1)
    else
      var p := env.ospiErase(f.eraseOffset, f.eraseBytesLeft);
      Issue(f, [ExtErase(f.eraseOffset, f.eraseBytesLeft)]).(
        eraseOffset := p.offset, eraseBytesLeft := p.left,
        state := if p.done then f.state + 1 else f.state)
  }

  /** Internal flash: a blocking sector erase, 256 KiB when no size was given. */
  function EraseIntOf(f: Fw): (r: Fw)
  {
    var c := f.comm.active;
    var f1 := if c.eraseBytes == 0 then f.(comm := f.comm.(active := c.(eraseBytes := HASH_CHUNK))) else f;
    var c1 := f1.comm.active;
    var f2 := EraseIntflashOf(f1, c1.bank, c1.offset, c1.eraseBytes);
    if f2.hw.hung then f2 else f2.(state := f2.state + 1)
  }

  /** ERASE_FINISH: wait for the chip to go idle. */
  function EraseFinishOf(f: Fw, env: Env): Fw
  {
    if env.chipIdle then f.(state := f.state + 1) else f
  }

  /** The flash-word writes of the internal program loop: 16 bytes at a time. */
  function WordWrites(address: int, ram: Bytes, cursor: nat, n: nat): seq<FlashOp>
    decreases n
  {
    if n < FLASH_WORD then []
    else [WordProgram(address, Slice(ram, cursor, cursor + FLASH_WORD))]
         + WordWrites(address + FLASH_WORD, ram, cursor + FLASH_WORD, n - FLASH_WORD)
  }

  /** The data of a sequence of program operations, in order. */
  function Written(ops: seq<FlashOp>): Bytes
  {
    if ops == [] then []
    else (if ops[0].PageProgram? || ops[0].WordProgram? then ops[0].data else []) + Written(ops[1..])
  }

  /** The internal program loop writes `n / 16` consecutive flash words from `address`
      on, and together they hold exactly the `n` payload bytes from `cursor` on. */
  lemma {:induction false} WordWritesCover(address: int, ram: Bytes, cursor: nat, n: nat, k: nat)
    requires n % FLASH_WORD == 0 && cursor + n <= |ram|
    ensures |WordWrites(address, ram, cursor, n)| == n / FLASH_WORD
    ensures k < n / FLASH_WORD ==>
              WordWrites(address, ram, cursor, n)[k].WordProgram?
              && WordWrites(address, ram, cursor, n)[k].address == address + FLASH_WORD * k
    ensures Written(WordWrites(address, ram, cursor, n)) == ram[cursor .. cursor + n]
    decreases n
  {
    if n >= FLASH_WORD {
      var rest := WordWrites(address + FLASH_WORD, ram, cursor + FLASH_WORD, n - FLASH_WORD);
      WordWritesCover(address + FLASH_WORD, ram, cursor + FLASH_WORD, n - FLASH_WORD, if k == 0 then 0 else k - 1);
      var ops := WordWrites(address, ram, cursor, n);
      assert ops == [WordProgram(address, Slice(ram, cursor, cursor + FLASH_WORD))] + rest;
      assert ops[1..] == rest;
      assert Slice(ram, cursor, cursor + FLASH_WORD) == ram[cursor .. cursor + FLASH_WORD];
      assert ram[cursor .. cursor + n] == ram[cursor .. cursor + FLASH_WORD] + ram[cursor + FLASH_WORD .. cursor + n];
    }
  }

  /** PROGRAM: one page (at most 256 bytes) of external flash per step, or the whole
      internal payload as 16-byte flash words. An internal count that is not a multiple
      of 16 never reaches zero, so that loop never ends. */
  function ProgramOf(f: Fw, env: Env): Fw
  {
    var f1 := WithStatus(f, STATUS_PROG);
    if f.programBytesRemaining == 0 then f1.(state := f1.state + 1)
    else if f.comm.active.bank == 0 then ProgramPageOf(f1)
    else if f.programBytesRemaining % FLASH_WORD != 0 then Hang(f1)
    else ProgramWordsOf(f1).(state := f1.state + 1)
  }

  /** One OSPI page program of at most 256 bytes at the page holding the offset. */
  function ProgramPageOf(f: Fw): (r: Fw)
  {
    var c := f.comm.active;
    var n := Min(PAGE, f.programBytesRemaining);
    Issue(f, [PageProgram(f.programOffset / PAGE * PAGE, Slice(f.comm.decompressBuffer, c.cursor, c.cursor + n))]).(
      comm := f.comm.(active := c.(cursor := c.cursor + n)),
      programOffset := f.programOffset + n,
      programBytesRemaining := f.programBytesRemaining - n)
  }

  /** The internal program loop run to the end. */
  function ProgramWordsOf(f: Fw): (r: Fw)
  {
    var c := f.comm.active;
    var n := f.programBytesRemaining;
    Issue(f, WordWrites(f.programOffset, f.comm.decompressBuffer, c.cursor, n)).(
      comm := f.comm.(active := c.(cursor := c.cursor + n)),
      programOffset := f.programOffset + n,
      programBytesRemaining := 0)
  }

  /** CHECK_HASH_FLASH: the programmed flash must hash to the expected digest; then
      back to IDLE. */
  function CheckHashFlashOf(f: Fw, env: Env): Fw
  {
    var c := f.comm.active;
    if env.flashHash(c.bank, c.offset, c.size) != c.expected then
      WithStatus(f, STATUS_BAD_HASH_FLASH).(state := ERROR)
    else f.(state := IDLE)
  }

  /** One call of `gnwmanager_run`. Any other state (ERROR, and ERROR + 1 after a bad
      inflate) does nothing, and nothing runs once the firmware hangs. */
  function StepOf(f: Fw, env: Env): Fw
    requires Wf(f)
  {
    if f.hw.hung then f
    else if f.state == IDLE then IdleOf(f, env)
    else if f.state == DECOMPRESSING then DecompressOf(f, env)
    else if f.state == CHECK_HASH_RAM then CheckHashRamOf(f, env)
    else if f.state == ERASE then EraseOf(f, env)
    else if f.state == ERASE_FINISH then EraseFinishOf(f, env)
    else if f.state == PROGRAM then ProgramOf(f, env)
    else if f.state == CHECK_HASH_FLASH then CheckHashFlashOf(f, env)
    else f
  }

  // ---------------------------------------------------------------------------
  // Properties

  /** With no context ready for the counter, IDLE only applies the clock and reports
      IDLE. */
  lemma IdleWithoutWork(f: Fw, env: Env)
    requires Wf(f) && !f.hw.hung && f.state == IDLE
    requires forall j :: 0 <= j < CONTEXT_COUNT ==> Word(f.comm.contexts[j].ready) != f.counter
    ensures StepOf(f, env)
            == f.(comm := f.comm.(utcTimestamp := 0, status := STATUS_IDLE),
                  hw := f.hw.(clock := if f.comm.utcTimestamp != 0 then f.comm.utcTimestamp else f.hw.clock))
  {
  }

  /** A context whose `ready` equals the counter is claimed (the first one if both are)
      and the counter advances by one, wrapping at 2^32. */
  lemma IdleClaims(f: Fw, env: Env, i: nat)
    requires Wf(f) && !f.hw.hung && f.state == IDLE && i < CONTEXT_COUNT
    requires Word(f.comm.contexts[i].ready) == f.counter
    requires forall j :: 0 <= j < i ==> Word(f.comm.contexts[j].ready) != f.counter
    ensures var g := StepOf(f, env);
            var c := f.comm.contexts[i];
            g.counter == (f.counter + 1) % U32_LIMIT && g.comm.utcTimestamp == 0
            && (Word(c.action) != ACTION_HASH && !g.hw.hung ==>
                  g.source == i && g.comm.active.offset == Word(c.offset)
                  && g.comm.active.size == Word(c.size) && g.comm.active.bank == Word(c.bank))
  {
    var f0 := ClockOf(f);
    assert GetContextOf(f0.comm.contexts, f0.counter) == Some(i);
  }

  /** The hash action answers in the claimed context's buffer: one digest of bank 0 per
      256 KiB chunk at 32-byte strides, `response_ready` set, the context otherwise
      untouched and not released, and the state still IDLE. */
  lemma HashActionAnswers(f: Fw, env: Env, i: nat, k: nat)
    requires Wf(f) && !f.hw.hung && f.state == IDLE && i < CONTEXT_COUNT
    requires Word(f.comm.contexts[i].ready) == f.counter
    requires forall j :: 0 <= j < i ==> Word(f.comm.contexts[j].ready) != f.counter
    requires Word(f.comm.contexts[i].action) == ACTION_HASH
    ensures var g := StepOf(f, env);
            var c := f.comm.contexts[i];
            var n := CeilDiv(Word(c.size), HASH_CHUNK);
            g.state == IDLE && g.comm.status == STATUS_HASH && !g.hw.hung
            && g.comm.contexts == f.comm.contexts[i := c.(responseReady := 1)]
            && |g.comm.buffers[i]| >= 32 * n
            && (k < n ==> g.comm.buffers[i][32 * k .. 32 * k + 32]
                          == env.flashHash(0, Word(c.offset) + k * HASH_CHUNK,
                                           Min(HASH_CHUNK, Word(c.size) - k * HASH_CHUNK)))
  {
    var c := Load(f.comm.contexts[i]);
    var ds := ChunkHashes(env.flashHash, c.offset, c.size);
    ChunkHashesCover(env.flashHash, c.offset, c.size, k);
    FlattenDigests(ds, k);
    var f0 := ClockOf(f);
    assert GetContextOf(f0.comm.contexts, f0.counter) == Some(i);
    var g := StepOf(f, env);
    assert g.comm.buffers[i] == Respond(f.comm.buffers[i], ds);
    if k < |ds| {
      assert g.comm.buffers[i][32 * k .. 32 * k + 32] == Flatten(ds)[32 * k .. 32 * k + 32];
    }
  }

  /** When flash already holds data with the expected digest, the claimed context is
      released and nothing is erased or programmed: the state stays IDLE. */
  lemma IdleSkipsUnchanged(f: Fw, env: Env, i: nat)
    requires Wf(f) && !f.hw.hung && f.state == IDLE && i < CONTEXT_COUNT
    requires Word(f.comm.contexts[i].ready) == f.counter
    requires forall j :: 0 <= j < i ==> Word(f.comm.contexts[j].ready) != f.counter
    requires Word(f.comm.contexts[i].action) != ACTION_HASH
    requires var c := Load(f.comm.contexts[i]);
             (c.bank == 0 || ((c.bank == 1 || c.bank == 2) && c.offset % SECTOR == 0 && c.size % SECTOR == 0))
             && c.size != 0 && env.flashHash(c.bank, c.offset, c.size) == c.expected
    ensures var g := StepOf(f, env);
            g.state == IDLE && !g.hw.hung && g.hw.flash == f.hw.flash
            && g.comm.contexts == f.comm.contexts[i := RELEASED]
  {
    var f0 := ClockOf(f);
    assert GetContextOf(f0.comm.contexts, f0.counter) == Some(i);
  }

  /** The firmware hangs on an internal bank that is not 1 or 2, or on an internal
      offset or size that is not a whole number of 8 KiB sectors. */
  lemma IdleRefusesBadBank(f: Fw, env: Env, i: nat)
    requires Wf(f) && !f.hw.hung && f.state == IDLE && i < CONTEXT_COUNT
    requires Word(f.comm.contexts[i].ready) == f.counter
    requires forall j :: 0 <= j < i ==> Word(f.comm.contexts[j].ready) != f.counter
    requires Word(f.comm.contexts[i].action) != ACTION_HASH
    ensures var c := Load(f.comm.contexts[i]);
            StepOf(f, env).hw.hung
            <==> c.bank != 0 && (!(c.bank == 1 || c.bank == 2) || c.offset % SECTOR != 0 || c.size % SECTOR != 0)
  {
    var f0 := ClockOf(f);
    assert GetContextOf(f0.comm.contexts, f0.counter) == Some(i);
  }

  /** A bad inflate reports BAD_DECOMPRESS and leaves the machine one past ERROR, a
      state no case handles, so it stays there; the source context is released. */
  lemma BadDecompressSticks(f: Fw, env: Env, env2: Env)
    requires Wf(f) && !f.hw.hung && f.state == DECOMPRESSING && f.comm.active.compressedSize != 0
    requires var out := env.inflate(Slice(f.comm.buffers[f.source], 0, f.comm.active.compressedSize));
             |out| == 0 || |out| != f.comm.active.size
    ensures var g := StepOf(f, env);
            g.comm.status == STATUS_BAD_DECOMPRESS && g.state == ERROR + 1
            && g.comm.contexts[f.source] == RELEASED && Wf(g) && StepOf(g, env2) == g
  {
  }

  /** A RAM digest mismatch reports BAD_HASH_RAM and a flash digest mismatch
      BAD_HASH_FLASH, both entering ERROR with no chip operation; a flash digest match
      goes back to IDLE. */
  lemma HashChecks(f: Fw, env: Env)
    requires Wf(f) && !f.hw.hung
    ensures f.state == CHECK_HASH_RAM ==>
              var g := StepOf(f, env);
              var c := f.comm.active;
              g.hw.flash == f.hw.flash
              && (env.sha(Slice(f.comm.decompressBuffer, c.cursor, c.cursor + c.size)) != c.expected
                  <==> g.comm.status == STATUS_BAD_HASH_RAM && g.state == ERROR)
              && (g.state != ERROR ==> g.state == ERASE)
    ensures f.state == CHECK_HASH_FLASH ==>
              var g := StepOf(f, env);
              var c := f.comm.active;
              g.hw.flash == f.hw.flash
              && (env.flashHash(c.bank, c.offset, c.size) == c.expected <==> g.state == IDLE)
              && (g.state != IDLE ==> g.comm.status == STATUS_BAD_HASH_FLASH && g.state == ERROR)
  {
  }

  /** ERROR, the state past it, and a hung firmware never change again. */
  lemma ErrorAbsorbs(f: Fw, env: Env)
    requires Wf(f) && (f.hw.hung || f.state == ERROR || f.state == ERROR + 1)
    ensures StepOf(f, env) == f
  {
  }

  /** The program bookkeeping from the claim to the flash check: the cursor has
      consumed as much of the payload as the program offset has advanced, and
      the internal count stays a multiple of a flash word. */
  predicate Progress(f: Fw)
  {
    var c := f.comm.active;
    Wf(f)
    && (c.bank == 0 || c.bank == 1 || c.bank == 2)
    && (c.bank != 0 ==> c.size % SECTOR == 0)
    && (f.state == DECOMPRESSING ==>
          f.programOffset == BankBase(c.bank) + c.offset && f.programBytesRemaining == c.size)
    && (CHECK_HASH_RAM <= f.state <= CHECK_HASH_FLASH ==>
          f.programOffset == BankBase(c.bank) + c.offset + c.cursor
          && c.cursor + f.programBytesRemaining == c.size
          && (c.bank != 0 ==> f.programBytesRemaining % FLASH_WORD == 0))
    && (f.state == CHECK_HASH_FLASH ==> f.programBytesRemaining == 0)
  }

  /** Every step keeps the bookkeeping, starting from a claim in IDLE. */
  lemma StepKeepsProgress(f: Fw, env: Env)
    requires Wf(f) && (f.state == IDLE || Progress(f))
    ensures var g := StepOf(f, env);
            g.state == IDLE || g.hw.hung || g.state >= ERROR || Progress(g)
  {
    if f.hw.hung {
    } else if f.state == IDLE {
      ClaimKeepsProgress(f, env);
    } else if f.state == DECOMPRESSING {
      DecompressKeepsProgress(f, env);
    } else if f.state == ERASE {
      EraseKeepsProgress(f, env);
    } else if f.state == PROGRAM {
      ProgramKeepsProgress(f, env);
    }
  }

  /** A claim leaves a context to decompress with the cursor set up. */
  lemma ClaimKeepsProgress(f: Fw, env: Env)
    requires Wf(f) && !f.hw.hung && f.state == IDLE
    ensures var g := IdleOf(f, env);
            g.state == IDLE || g.hw.hung || g.state >= ERROR || Progress(g)
  {
  }

  lemma DecompressKeepsProgress(f: Fw, env: Env)
    requires Progress(f) && f.state == DECOMPRESSING
    ensures var g := DecompressOf(f, env);
            g.state >= ERROR || Progress(g)
  {
    var f1 := FillOf(f, env);
    var g := DecompressOf(f, env);
    var c := f.comm.active;
    if f1.state != ERROR {
      assert g.state == CHECK_HASH_RAM && g.comm.active == c.(cursor := 0);
      if c.bank != 0 {
        SectorsAreWords(c.size);
      }
    }
  }

  /** A whole number of 8 KiB sectors is a whole number of 16-byte flash words. */
  lemma SectorsAreWords(n: int)
    requires n % SECTOR == 0
    ensures n % FLASH_WORD == 0
  {
    DivUnique(n, FLASH_WORD, (n / SECTOR) * (SECTOR / FLASH_WORD), 0);
  }

  lemma EraseKeepsProgress(f: Fw, env: Env)
    requires Progress(f) && f.state == ERASE
    ensures var g := EraseOf(f, env);
            g.hw.hung || Progress(g)
  {
  }

  lemma ProgramKeepsProgress(f: Fw, env: Env)
    requires Progress(f) && f.state == PROGRAM
    ensures var g := ProgramOf(f, env);
            g.hw.hung || Progress(g)
  {
  }

  /** When the flash check is reached every payload byte has been handed to the chip:
      the cursor is at the end and the program offset is one past the last byte. */
  lemma ProgramCompletes(f: Fw)
    requires Progress(f) && f.state == CHECK_HASH_FLASH
    ensures f.comm.active.cursor == f.comm.active.size
    ensures f.programOffset == BankBase(f.comm.active.bank) + f.comm.active.offset + f.comm.active.size
  {
  }

  /** One external program step writes at most one 256-byte page at the page holding
      the program offset, and advances the offset and the cursor by the bytes taken. */
  lemma ExternalProgramStep(f: Fw, env: Env)
    requires Wf(f) && !f.hw.hung && f.state == PROGRAM && f.comm.active.bank == 0 && f.programBytesRemaining > 0
    ensures var g := StepOf(f, env);
            var c := f.comm.active;
            var n := Min(PAGE, f.programBytesRemaining);
            g.state == PROGRAM && g.comm.status == STATUS_PROG
            && g.hw.flash == f.hw.flash + [PageProgram(f.programOffset / PAGE * PAGE,
                                                       Slice(f.comm.decompressBuffer, c.cursor, c.cursor + n))]
            && 0 < n <= PAGE && |g.hw.flash[|f.hw.flash|].data| <= PAGE
            && (f.programOffset % PAGE == 0 ==> g.hw.flash[|f.hw.flash|].address == f.programOffset)
            && g.programBytesRemaining == f.programBytesRemaining - n
            && g.programOffset == f.programOffset + n && g.comm.active.cursor == c.cursor + n
  {
  }

  /** An internal program step hands the chip the whole rest of the payload as
      consecutive 16-byte flash words from the program offset on, and moves on to
      the flash check. */
  lemma InternalProgramStep(f: Fw, env: Env)
    requires Progress(f) && !f.hw.hung && f.state == PROGRAM && f.comm.active.bank != 0
    requires f.comm.active.cursor + f.programBytesRemaining <= |f.comm.decompressBuffer|
    ensures var g := StepOf(f, env);
            var c := f.comm.active;
            var n := f.programBytesRemaining;
            var ops := g.hw.flash[|f.hw.flash|..];
            g.state == CHECK_HASH_FLASH && g.programBytesRemaining == 0 && !g.hw.hung
            && |g.hw.flash| >= |f.hw.flash| && g.hw.flash[..|f.hw.flash|] == f.hw.flash
            && |ops| == n / FLASH_WORD
            && (forall k :: 0 <= k < |ops| ==> ops[k].WordProgram? && ops[k].address == f.programOffset + FLASH_WORD * k)
            && Written(ops) == f.comm.decompressBuffer[c.cursor .. c.cursor + n]
  {
    var c := f.comm.active;
    var n := f.programBytesRemaining;
    var ops := WordWrites(f.programOffset, f.comm.decompressBuffer, c.cursor, n);
    var g := StepOf(f, env);
    assert g.hw.flash == f.hw.flash + ops;
    assert g.hw.flash[|f.hw.flash|..] == ops;
    WordWritesCover(f.programOffset, f.comm.decompressBuffer, c.cursor, n, 0);
    forall k | 0 <= k < |ops|
      ensures ops[k].WordProgram? && ops[k].address == f.programOffset + FLASH_WORD * k
    {
      WordWritesCover(f.programOffset, f.comm.decompressBuffer, c.cursor, n, k);
    }
  }

  // ---------------------------------------------------------------------------
  // The firmware itself: `comm`, the statics of gnwmanager_run, and its steps

  /** `gnwmanager_action_hash`'s loop: one digest of bank 0 per 256 KiB chunk from
      `offset` to `offset + size`, the last chunk short. */
  method HashChunks(h: (nat, int, int) -> Digest, offset: int, size: nat) returns (ds: seq<Digest>)
    ensures ds == ChunkHashes(h, offset, size)
  {
    ds := [];
    var end := offset + size;
    var o := offset;
    while o < end
      invariant offset <= o
      invariant ds + ChunkHashes(h, o, if o < end then end - o else 0) == ChunkHashes(h, offset, size)
      decreases end - o
    {
      var n := Min(HASH_CHUNK, end - o);
      ds := ds + [h(0, o, n)];
      o := o + HASH_CHUNK;
    }
  }

  class Manager {
    var comm: Comm
    var state: int
    var source: nat
    var counter: u32
    var eraseOffset: int
    var eraseBytesLeft: int
    var programOffset: int
    var programBytesRemaining: nat
    var hw: Device

    function State(): Fw
      reads this
    {
      Fw(comm, state, source, counter, eraseOffset, eraseBytesLeft, programOffset, programBytesRemaining, hw)
    }

    /** `gnwmanager_main` up to its loop. */
    constructor(flashSize: u32, minEraseSize: u32)
      ensures State() == Boot(flashSize, minEraseSize)
    {
      comm := Comm(STATUS_BOOTING, 0, flashSize, minEraseSize, [RELEASED, RELEASED], Load(RELEASED),
                   [Repeat(0, BUFFER_SIZE), Repeat(0, BUFFER_SIZE)], Repeat(0, BUFFER_SIZE));
      state, source, counter := IDLE, 0, 1;
      eraseOffset, eraseBytesLeft, programOffset, programBytesRemaining := 0, 0, 0, 0;
      hw := Device(0, [], false);
    }

    /** `get_context`. */
    method GetContext() returns (r: Option<nat>)
      requires |comm.contexts| == CONTEXT_COUNT
      ensures r == GetContextOf(comm.contexts, counter)
    {
      for i := 0 to CONTEXT_COUNT
        invariant forall j :: 0 <= j < i ==> Word(comm.contexts[j].ready) != counter
      {
        if Word(comm.contexts[i].ready) == counter {
          return Some(i);
        }
      }
      return None;
    }

    /** `gnwmanager_action_hash` on context `i`. */
    method HashAction(i: nat, env: Env)
      requires Wf(State()) && i < CONTEXT_COUNT
      modifies this
      ensures State() == HashActionOf(old(State()), i, env)
    {
      var c := Load(comm.contexts[i]);
      var ds := HashChunks(env.flashHash, c.offset, c.size);
      comm := comm.(buffers := comm.buffers[i := Respond(comm.buffers[i], ds)],
                    contexts := comm.contexts[i := comm.contexts[i].(responseReady := 1)]);
    }

    /** `erase_intflash`. */
    method EraseIntflash(bank: u32, offset: u32, size: u32)
      modifies this
      ensures State() == EraseIntflashOf(old(State()), bank, offset, size)
    {
      var b := bank % 256;
      if !(b == 1 || b == 2) || offset % SECTOR != 0 || size % SECTOR != 0 {
        hw := hw.(hung := true);
        return;
      }
      hw := hw.(flash := hw.flash + [SectorErase(b, offset / SECTOR, size / SECTOR)]);
    }

    method StartErase(env: Env)
      modifies this
      ensures State() == StartEraseOf(old(State()), env)
    {
      eraseOffset := comm.active.offset;
      eraseBytesLeft := comm.active.eraseBytes;
      var s := env.smallestErase;
      if eraseOffset % s != 0 {
        comm := comm.(status := STATUS_NOT_ALIGNED);
        state := ERROR;
        return;
      }
      if eraseBytesLeft % s != 0 {
        eraseBytesLeft := eraseBytesLeft + (s - eraseBytesLeft % s);
      }
      hw := hw.(flash := hw.flash + [ExtErase(eraseOffset, eraseBytesLeft)]);
      var p := env.ospiErase(eraseOffset, eraseBytesLeft);
      eraseOffset, eraseBytesLeft := p.offset, p.left;
      state := state + 1;
    }

    method Schedule(env: Env)
      modifies this
      ensures State() == ScheduleOf(old(State()), env)
    {
      if comm.active.bank == 0 && comm.active.eraseBytes != 0
         && env.extErased(comm.active.offset, comm.active.eraseBytes) {
        comm := comm.(active := comm.active.(erase := 0));
      }
      if comm.active.erase != 0 {
        comm := comm.(status := STATUS_ERASE);
        if comm.active.bank == 0 {
          StartErase(env);
          return;
        }
      }
      state := state + 1;
    }

    method Take(i: nat)
      requires Wf(State()) && i < CONTEXT_COUNT
      modifies this
      ensures State() == TakeOf(old(State()), i)
    {
      var c := Load(comm.contexts[i]);
      comm := comm.(active := c);
      source, programOffset, programBytesRemaining := i, c.offset, c.size;
      if c.bank != 0 && (!(c.bank == 1 || c.bank == 2) || c.offset % SECTOR != 0 || c.size % SECTOR != 0) {
        hw := hw.(hung := true);
        return;
      }
      programOffset := programOffset + BankBase(c.bank);
    }

    method Skip(env: Env)
      requires Wf(State())
      modifies this
      ensures State() == SkipOf(old(State()), env)
    {
      if comm.active.size == 0 {
        Schedule(env);
        return;
      }
      comm := comm.(status := STATUS_HASH);
      if env.flashHash(comm.active.bank, comm.active.offset, comm.active.size) == comm.active.expected {
        comm := comm.(contexts := comm.contexts[source := RELEASED]);
        return;
      }
      Schedule(env);
    }

    method Claim(i: nat, env: Env)
      requires Wf(State()) && i < CONTEXT_COUNT
      modifies this
      ensures State() == ClaimOf(old(State()), i, env)
    {
      Take(i);
      if hw.hung {
        return;
      }
      Skip(env);
    }

    method SetClock()
      modifies this
      ensures State() == ClockOf(old(State()))
    {
      if comm.utcTimestamp != 0 {
        hw := hw.(clock := comm.utcTimestamp);
        comm := comm.(utcTimestamp := 0);
      }
    }

    method Pick(env: Env)
      requires Wf(State())
      modifies this
      ensures State() == PickOf(old(State()), env)
    {
      var found := GetContext();
      if found.None? {
        comm := comm.(status := STATUS_IDLE);
        return;
      }
      var i := found.value;
      counter := (counter + 1) % U32_LIMIT;
      if Word(comm.contexts[i].action) == ACTION_HASH {
        comm := comm.(status := STATUS_HASH);
        HashAction(i, env);
        return;
      }
      Claim(i, env);
    }

    /** The IDLE case of `gnwmanager_run`. */
    method RunIdle(env: Env)
      requires Wf(State())
      modifies this
      ensures State() == IdleOf(old(State()), env)
    {
      SetClock();
      Pick(env);
    }

    method Fill(env: Env)
      requires Wf(State())
      modifies this
      ensures State() == FillOf(old(State()), env)
    {
      if comm.active.compressedSize != 0 {
        var out := env.inflate(Slice(comm.buffers[source], 0, comm.active.compressedSize));
        comm := comm.(decompressBuffer := out);
        if |out| == 0 || |out| != comm.active.size {
          comm := comm.(status := STATUS_BAD_DECOMPRESS);
          state := ERROR;
        }
      } else {
        comm := comm.(decompressBuffer := Slice(comm.buffers[source], 0, comm.active.size));
      }
    }

    method RunDecompress(env: Env)
      requires Wf(State())
      modifies this
      ensures State() == DecompressOf(old(State()), env)
    {
      Fill(env);
      comm := comm.(active := comm.active.(cursor := 0), contexts := comm.contexts[source := RELEASED]);
      state := state + 1;
    }

    method RunCheckHashRam(env: Env)
      modifies this
      ensures State() == CheckHashRamOf(old(State()), env)
    {
      var c := comm.active;
      if env.sha(Slice(comm.decompressBuffer, c.cursor, c.cursor + c.size)) != c.expected {
        comm := comm.(status := STATUS_BAD_HASH_RAM);
        state := ERROR;
        return;
      }
      state := state + 1;
    }

    method RunErase(env: Env)
      modifies this
      ensures State() == EraseOf(old(State()), env)
    {
      if comm.active.erase == 0 {
        state := PROGRAM;
        return;
      }
      comm := comm.(status := STATUS_ERASE);
      if comm.active.bank == 0 {
        EraseExt(env);
      } else {
        EraseInt();
      }
    }

    method EraseExt(env: Env)
      modifies this
      ensures State() == EraseExtOf(old(State()), env)
    {
      if comm.active.eraseBytes == 0 {
        hw := hw.(flash := hw.flash + [ChipErase]);
        state := state + 1;
        return;
      }
      hw := hw.(flash := hw.flash + [ExtErase(eraseOffset, eraseBytesLeft)]);
      var p := env.ospiErase(eraseOffset, eraseBytesLeft);
      eraseOffset, eraseBytesLeft := p.offset, p.left;
      if p.done {
        state := state + 1;
      }
    }

    method EraseInt()
      modifies this
      ensures State() == EraseIntOf(old(State()))
    {
      if comm.active.eraseBytes == 0 {
        comm := comm.(active := comm.active.(eraseBytes := HASH_CHUNK));
      }
      EraseIntflash(comm.active.bank, comm.active.offset, comm.active.eraseBytes);
      if !hw.hung {
        state := state + 1;
      }
    }

    method RunEraseFinish(env: Env)
      modifies this
      ensures State() == EraseFinishOf(old(State()), env)
    {
      if env.chipIdle {
        state := state + 1;
      }
    }

    /** The internal-bank program loop: one 16-byte flash word at a time until no
        bytes remain. */
    method ProgramWords()
      requires programBytesRemaining % FLASH_WORD == 0
      modifies this
      ensures State() == ProgramWordsOf(old(State()))
    {
      var ram := comm.decompressBuffer;
      var ops, off := hw.flash, programOffset;
      var cur: nat, left: nat := comm.active.cursor, programBytesRemaining;
      while left != 0
        decreases left
        invariant left % FLASH_WORD == 0 && left <= programBytesRemaining
        invariant off == programOffset + (programBytesRemaining - left)
        invariant cur == comm.active.cursor + (programBytesRemaining - left)
        invariant ops + WordWrites(off, ram, cur, left)
                  == hw.flash + WordWrites(programOffset, ram, comm.active.cursor, programBytesRemaining)
      {
        ops := ops + [WordProgram(off, Slice(ram, cur, cur + FLASH_WORD))];
        off, cur, left := off + FLASH_WORD, cur + FLASH_WORD, left - FLASH_WORD;
      }
      hw := hw.(flash := ops);
      comm := comm.(active := comm.active.(cursor := cur));
      programOffset, programBytesRemaining := off, left;
    }

    method ProgramPage()
      modifies this
      ensures State() == ProgramPageOf(old(State()))
    {
      var c := comm.active;
      var n := Min(PAGE, programBytesRemaining);
      hw := hw.(flash := hw.flash + [PageProgram(programOffset / PAGE * PAGE,
                                                 Slice(comm.decompressBuffer, c.cursor, c.cursor + n))]);
      comm := comm.(active := c.(cursor := c.cursor + n));
      programOffset, programBytesRemaining := programOffset + n, programBytesRemaining - n;
    }

    method RunProgram(env: Env)
      modifies this
      ensures State() == ProgramOf(old(State()), env)
    {
      comm := comm.(status := STATUS_PROG);
      if programBytesRemaining == 0 {
        state := state + 1;
        return;
      }
      if comm.active.bank == 0 {
        ProgramPage();
      } else if programBytesRemaining % FLASH_WORD != 0 {
        hw := hw.(hung := true);
      } else {
        ProgramWords();
        state := state + 1;
      }
    }

    method RunCheckHashFlash(env: Env)
      modifies this
      ensures State() == CheckHashFlashOf(old(State()), env)
    {
      var c := comm.active;
      if env.flashHash(c.bank, c.offset, c.size) != c.expected {
        comm := comm.(status := STATUS_BAD_HASH_FLASH);
        state := ERROR;
        return;
      }
      state := IDLE;
    }

    /** `gnwmanager_run`: dispatch on the state. */
    method Run(env: Env)
      requires Wf(State())
      modifies this
      ensures State() == StepOf(old(State()), env)
    {
      if hw.hung {
        return;
      }
      if state == IDLE {
        RunIdle(env);
      } else if state == DECOMPRESSING {
        RunDecompress(env);
      } else if state == CHECK_HASH_RAM {
        RunCheckHashRam(env);
      } else if state == ERASE {
        RunErase(env);
      } else if state == ERASE_FINISH {
        RunEraseFinish(env);
      } else if state == PROGRAM {
        RunProgram(env);
      } else if state == CHECK_HASH_FLASH {
        RunCheckHashFlash(env);
      }
    }
  }
}
