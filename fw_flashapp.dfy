/** The legacy on-device flash application of Core/Src/flashapp.c: a state machine
    stepped by `flashapp_run`. It claims the context the host marked ready, checks its
    hash in RAM, decompresses it (checking the hash again), erases and programs
    external flash a page per step, and checks the hash in flash. The SHA-256 routine,
    the LZMA decoder and the OSPI chip are the parameters in `Env`; what the firmware
    asks of the chip is recorded as a log of `FlashOp`s. */
module FwFlashapp {
  import opened Common

  // States of `flashapp_state_t`.
  const INIT := 0x00
  const IDLE := 0x01
  const START := 0x02
  const CHECK_HASH_RAM_NEXT := 0x03
  const CHECK_HASH_RAM := 0x04
  const DECOMPRESSING := 0x05
  const ERASE_NEXT := 0x06
  const ERASE := 0x07
  const PROGRAM_NEXT := 0x08
  const PROGRAM := 0x09
  const CHECK_HASH_FLASH_NEXT := 0x0A
  const CHECK_HASH_FLASH := 0x0B
  const FINAL := 0x0C
  const ERROR := 0x0D

  // Values of `flashapp_status_t`.
  const STATUS_BOOTING := 0
  const STATUS_BAD_HASH_RAM := 0xbad0_0001
  const STATUS_BAD_HASH_FLASH := 0xbad0_0002
  const STATUS_NOT_ALIGNED := 0xbad0_0003
  const STATUS_IDLE := 0xcafe_0000
  const STATUS_DONE := 0xcafe_0001
  const STATUS_BUSY := 0xcafe_0002

  /** Each transfer buffer and the decompress buffer hold 256 KiB. */
  const BUFFER_SIZE := 256 * 1024
  const CONTEXT_COUNT := 2
  /** External flash is programmed one 256-byte page at a time. */
  const PAGE := 256

  type i32 = x: int | -0x8000_0000 <= x < 0x8000_0000

  /** Where a `buffer` pointer points: nowhere (zeroed), at a transfer buffer, or at
      the decompress buffer. */
  datatype Buf = Null | Transfer(index: nat) | Decompressed

  /** `struct work_context`, as the host fills it in. */
  datatype Context = Context(ready: u32, size: u32, address: u32, erase: u32, eraseBytes: i32,
                             decompressedSize: u32, expected: Bytes, expectedDecompressed: Bytes,
                             buffer: Buf)

  /** A context after `memset(..., 0, ...)`. */
  const RELEASED := Context(0, 0, 0, 0, 0, 0, Repeat(0, 32), Repeat(0, 32), Null)

  /** `struct flashapp_comm`: the state and the words the host polls and sets, the two
      shared contexts, the active copy, the two transfer buffers and the decompress
      buffer. */
  datatype Comm = Comm(state: int, status: int, utcTimestamp: int, chunkIdx: int, chunkCount: int,
                       activeIndex: int, contexts: seq<Context>, active: Context,
                       buffers: seq<Bytes>, decompressBuffer: Bytes)

  /** `program_buf`: a buffer and the offset into it that `program_buf` has reached. */
  datatype Ptr = Ptr(buf: Buf, at: nat)

  /** The chip operations the firmware issues, in order. */
  datatype FlashOp =
    | PageProgram(address: int, data: Bytes)
    | ChipErase
    | ExtErase(offset: int, size: int, blocking: bool)

  /** The chip log and whether an `assert` stopped the firmware. */
  datatype Device = Device(flash: seq<FlashOp>, hung: bool)

  /** What `OSPI_Erase` reports: the next address and bytes left, and whether it is done. */
  datatype EraseProgress = EraseProgress(offset: int, left: int, done: bool)

  /** The hardware and libraries as the firmware sees them during one step. */
  datatype Env = Env(
    sha: Bytes -> Digest,                         // sha256 over RAM
    flashSha: (int, int) -> Digest,               // sha256 over memory-mapped flash (address, size)
    inflate: Bytes -> Bytes,                      // lzma_inflate: the decompressed bytes
    smallestErase: pos,                           // OSPI_GetSmallestEraseSize()
    ospiErase: (int, int, bool) -> EraseProgress) // OSPI_Erase(&address, &left, blocking)

  /** `comm` and the fields of `flashapp_t` the state machine uses, and the chip. */
  datatype Fa = Fa(comm: Comm, eraseAddress: int, eraseBytesLeft: int, programAddress: int,
                   programBytesLeft: int, programBuf: Ptr, progressMax: int, progressValue: int,
                   contextCounter: u32, hw: Device)

  predicate Wf(f: Fa)
  {
    |f.comm.contexts| == CONTEXT_COUNT && |f.comm.buffers| == CONTEXT_COUNT
    && 0 <= f.comm.activeIndex < CONTEXT_COUNT
  }

  /** The bytes a buffer pointer designates. */
  function BufBytes(c: Comm, b: Buf): Bytes
  {
    match b
    case Null => []
    case Transfer(i) => if i < |c.buffers| then c.buffers[i] else []
    case Decompressed => c.decompressBuffer
  }

  /** `comm` after `memset(comm, 0, sizeof(*comm))`. */
  const ZERO_COMM := Comm(INIT, STATUS_BOOTING, 0, 0, 0, 0, [RELEASED, RELEASED], RELEASED,
                          [Repeat(0, BUFFER_SIZE), Repeat(0, BUFFER_SIZE)], Repeat(0, BUFFER_SIZE))

  /** `flashapp_main` before its loop: `comm` zeroed, so the machine is in INIT, and
      the context counter at 1. */
  function Boot(): (f: Fa)
    ensures Wf(f) && f.comm.state == INIT && f.contextCounter == 1 && f.hw.flash == [] && !f.hw.hung
  {
    Fa(ZERO_COMM, 0, 0, 0, 0, Ptr(Null, 0), 0, 0, 1, Device([], false))
  }

  // ---------------------------------------------------------------------------
  // state_set / state_inc (Core/Src/flashapp.c:228-238)

  function StateSetOf(f: Fa, next: int): (r: Fa)
    ensures r.comm.state == next && r == f.(comm := f.comm.(state := r.comm.state))
  {
    f.(comm := f.comm.(state := next))
  }

  /** `state_inc` moves to the next state and changes nothing else. */
  function StateIncOf(f: Fa): (r: Fa)
    ensures r.comm.state == f.comm.state + 1 && r == f.(comm := f.comm.(state := r.comm.state))
  {
    StateSetOf(f, f.comm.state + 1)
  }

  function WithStatus(f: Fa, status: int): Fa
  {
    f.(comm := f.comm.(status := status))
  }

  function Issue(f: Fa, op: FlashOp): Fa
  {
    f.(hw := f.hw.(flash := f.hw.flash + [op]))
  }

  // ---------------------------------------------------------------------------
  // INIT and IDLE (Core/Src/flashapp.c:246-303)

  /** INIT: clear `comm`, announce one chunk, zero the progress, and go to IDLE. */
  function InitOf(f: Fa): (r: Fa)
    ensures r.comm.state == IDLE && Wf(r)
  {
    StateIncOf(f.(comm := ZERO_COMM.(chunkCount := 1), progressValue := 0, progressMax := 0))
  }

  /** The first context whose `ready` equals the counter. */
  function GetContextOf(contexts: seq<Context>, counter: u32): (r: Option<nat>)
    requires |contexts| == CONTEXT_COUNT
    ensures r.Some? ==> r.value < CONTEXT_COUNT && contexts[r.value].ready == counter
                        && forall j :: 0 <= j < r.value ==> contexts[j].ready != counter
    ensures r.None? <==> forall j :: 0 <= j < CONTEXT_COUNT ==> contexts[j].ready != counter
  {
    if contexts[0].ready == counter then Some(0)
    else if contexts[1].ready == counter then Some(1)
    else None
  }

  /** Start a background erase: the address must be aligned to the smallest erase
      size, and the byte count is rounded up to it. */
  function StartEraseOf(f: Fa, env: Env): (r: Fa)
    ensures r.comm == f.comm.(status := r.comm.status, state := r.comm.state)
    ensures r.programAddress == f.programAddress && r.programBytesLeft == f.programBytesLeft
            && r.programBuf == f.programBuf && r.progressMax == f.progressMax
            && r.progressValue == f.progressValue && r.contextCounter == f.contextCounter
            && r.hw.hung == f.hw.hung
  {
    var addr := f.comm.active.address;
    var left := Word(f.comm.active.eraseBytes);
    var s := env.smallestErase;
    if addr % s != 0 then
      StateSetOf(WithStatus(f, STATUS_NOT_ALIGNED).(eraseAddress := addr, eraseBytesLeft := left), ERROR)
    else
      var rounded := if left % s != 0 then left + (s - left % s) else left;
      var p := env.ospiErase(addr, rounded, false);
      StateIncOf(Issue(f, ExtErase(addr, rounded, false)).(eraseAddress := p.offset, eraseBytesLeft := p.left))
  }

  /** Claim context `i`: count it, remember its index, copy it into the active context
      with its buffer pointer set, and start the erase if one was asked for. */
  function ClaimOf(f: Fa, i: nat, env: Env): (r: Fa)
    requires Wf(f) && i < CONTEXT_COUNT
    ensures Wf(r)
  {
    var c := f.comm.contexts[i].(buffer := Transfer(i));
    var f1 := f.(contextCounter := (f.contextCounter + 1) % U32_LIMIT,
                 comm := f.comm.(activeIndex := i, active := c));
    if c.erase != 0 then StartEraseOf(f1, env) else StateIncOf(f1)
  }

  /** IDLE: report IDLE, zero the progress, drop a pending clock setting, and claim the
      next ready context if there is one. */
  function IdleOf(f: Fa, env: Env): (r: Fa)
    requires Wf(f)
    ensures Wf(r)
  {
    var f1 := WithStatus(f, STATUS_IDLE).(progressValue := 0, progressMax := 0);
    var f2 := if f1.comm.utcTimestamp != 0 then f1.(comm := f1.comm.(utcTimestamp := 0)) else f1;
    var found := GetContextOf(f2.comm.contexts, f2.contextCounter);
    if found.None? then f2 else ClaimOf(f2, found.value, env)
  }

  // ---------------------------------------------------------------------------
  // The working states (Core/Src/flashapp.c:304-442)

  /** START: report BUSY. */
  function StartOf(f: Fa): Fa
  {
    StateIncOf(WithStatus(f, STATUS_BUSY))
  }

  /** CHECK_HASH_RAM: the active buffer's first `size` bytes must hash to the expected
      digest. */
  function CheckHashRamOf(f: Fa, env: Env): Fa
  {
    var c := f.comm.active;
    if env.sha(Slice(BufBytes(f.comm, c.buffer), 0, c.size)) != c.expected then
      StateSetOf(WithStatus(f, STATUS_BAD_HASH_RAM), ERROR)
    else StateIncOf(f)
  }

  /** DECOMPRESSING: a compressed payload is inflated into the decompress buffer, whose
      size must be the announced one (an `assert`); the active context then describes
      the inflated data and its digest, the shared context is released, and the machine
      goes back to check the new digest. An uncompressed payload still in a transfer
      buffer is copied (all 256 KiB) and its context released; then on to ERASE_NEXT. */
  function DecompressOf(f: Fa, env: Env): (r: Fa)
    requires Wf(f)
    ensures Wf(r)
  {
    var c := f.comm.active;
    if c.decompressedSize != 0 then
      var out := env.inflate(Slice(BufBytes(f.comm, c.buffer), 0, c.size));
      var f1 := f.(comm := f.comm.(decompressBuffer := out));
      if |out| != c.decompressedSize then f1.(hw := f1.hw.(hung := true))
      else
        var c1 := c.(size := c.decompressedSize, decompressedSize := 0, buffer := Decompressed,
                     expected := c.expectedDecompressed);
        StateSetOf(f1.(comm := f1.comm.(active := c1, contexts := f1.comm.contexts[f.comm.activeIndex := RELEASED])),
                   CHECK_HASH_RAM_NEXT)
    else if c.buffer != Decompressed then
      var data := Slice(BufBytes(f.comm, c.buffer), 0, BUFFER_SIZE);
      StateIncOf(f.(comm := f.comm.(decompressBuffer := data, active := c.(buffer := Decompressed),
                                    contexts := f.comm.contexts[f.comm.activeIndex := RELEASED])))
    else StateIncOf(f)
  }

  /** ERASE_NEXT: on to ERASE when an erase was asked for, else straight to PROGRAM_NEXT. */
  function EraseNextOf(f: Fa): Fa
  {
    if f.comm.active.erase != 0 then StateIncOf(f) else StateSetOf(f, PROGRAM_NEXT)
  }

  /** ERASE: a whole-chip erase when no size was given, else the rest of the erase,
      blocking, until the driver reports it done. */
  function EraseOf(f: Fa, env: Env): Fa
  {
    if f.comm.active.eraseBytes == 0 then StateIncOf(Issue(f, ChipErase))
    else
      var p := env.ospiErase(f.eraseAddress, f.eraseBytesLeft, true);
      var f1 := Issue(f, ExtErase(f.eraseAddress, f.eraseBytesLeft, true)).(eraseAddress := p.offset, eraseBytesLeft := p.left);
      if p.done then StateIncOf(f1) else f1
  }

  /** PROGRAM_NEXT: set up the program cursor and the progress bar. */
  function ProgramNextOf(f: Fa): Fa
  {
    var c := f.comm.active;
    StateIncOf(f.(progressValue := 0, programAddress := c.address, progressMax := c.size,
                  programBytesLeft := c.size, programBuf := Ptr(c.buffer, 0)))
  }

  /** PROGRAM: one page program of at most 256 bytes per step at the page holding the
      address, the progress following the bytes written; on when nothing is left. */
  function ProgramOf(f: Fa): Fa
  {
    if f.programBytesLeft > 0 then
      var n := Min(PAGE, f.programBytesLeft);
      var b := f.programBuf;
      var data := Slice(BufBytes(f.comm, b.buf), b.at, b.at + n);
      var f1 := Issue(f, PageProgram(f.programAddress / PAGE * PAGE, data));
      f1.(programAddress := f.programAddress + n, programBuf := b.(at := b.at + n),
          programBytesLeft := f.programBytesLeft - n,
          progressValue := f.progressMax - (f.programBytesLeft - n))
    else StateIncOf(f)
  }

  /** CHECK_HASH_FLASH: flash at the context's address must hash to the expected digest;
      then back to IDLE. */
  function CheckHashFlashOf(f: Fa, env: Env): Fa
  {
    var c := f.comm.active;
    if env.flashSha(c.address, c.size) != c.expected then
      StateSetOf(WithStatus(f, STATUS_BAD_HASH_FLASH), ERROR)
    else StateSetOf(f, IDLE)
  }

  /** One call of `flashapp_run`. FINAL, ERROR and any other value do nothing, and
      nothing runs once an `assert` has stopped the firmware. */
  function StepOf(f: Fa, env: Env): Fa
    requires Wf(f)
  {
    var s := f.comm.state;
    if f.hw.hung then f
    else if s == INIT then InitOf(f)
    else if s == IDLE then IdleOf(f, env)
    else if s == START then StartOf(f)
    else if s == CHECK_HASH_RAM_NEXT then StateIncOf(f)
    else if s == CHECK_HASH_RAM then CheckHashRamOf(f, env)
    else if s == DECOMPRESSING then DecompressOf(f, env)
    else if s == ERASE_NEXT then EraseNextOf(f)
    else if s == ERASE then EraseOf(f, env)
    else if s == PROGRAM_NEXT then ProgramNextOf(f)
    else if s == PROGRAM then ProgramOf(f)
    else if s == CHECK_HASH_FLASH_NEXT then StateIncOf(f)
    else if s == CHECK_HASH_FLASH then CheckHashFlashOf(f, env)
    else f
  }

  // ---------------------------------------------------------------------------
  // Properties

  /** The announcement states only move on by one (START also reports BUSY). */
  lemma PassThroughStates(f: Fa, env: Env)
    requires Wf(f) && !f.hw.hung
    requires f.comm.state in {START, CHECK_HASH_RAM_NEXT, CHECK_HASH_FLASH_NEXT}
    ensures var g := StepOf(f, env);
            g.comm.state == f.comm.state + 1
            && g == f.(comm := f.comm.(state := g.comm.state, status := g.comm.status))
            && (f.comm.state == START ==> g.comm.status == STATUS_BUSY)
            && (f.comm.state != START ==> g.comm.status == f.comm.status)
  {
  }

  /** With no context ready for the counter, IDLE reports IDLE, zeroes the progress and
      stays. */
  lemma IdleWithoutWork(f: Fa, env: Env)
    requires Wf(f) && !f.hw.hung && f.comm.state == IDLE
    requires forall j :: 0 <= j < CONTEXT_COUNT ==> f.comm.contexts[j].ready != f.contextCounter
    ensures StepOf(f, env)
            == f.(comm := f.comm.(status := STATUS_IDLE, utcTimestamp := 0), progressValue := 0, progressMax := 0)
  {
  }

  /** The context whose `ready` equals the counter (the first if both do) is claimed:
      the counter advances, wrapping at 2^32, the index is recorded, the active context
      is a copy pointing at that context's transfer buffer, and the machine moves on
      to START, or to ERROR on a misaligned erase. */
  lemma IdleClaims(f: Fa, env: Env, i: nat)
    requires Wf(f) && !f.hw.hung && f.comm.state == IDLE && i < CONTEXT_COUNT
    requires f.comm.contexts[i].ready == f.contextCounter
    requires forall j :: 0 <= j < i ==> f.comm.contexts[j].ready != f.contextCounter
    ensures var g := StepOf(f, env);
            g.contextCounter == (f.contextCounter + 1) % U32_LIMIT
            && g.comm.activeIndex == i
            && g.comm.active == f.comm.contexts[i].(buffer := Transfer(i))
            && g.comm.contexts == f.comm.contexts
            && (g.comm.state == START || (g.comm.state == ERROR && g.comm.status == STATUS_NOT_ALIGNED))
  {
    var f1 := WithStatus(f, STATUS_IDLE).(progressValue := 0, progressMax := 0);
    var f2 := if f1.comm.utcTimestamp != 0 then f1.(comm := f1.comm.(utcTimestamp := 0)) else f1;
    assert GetContextOf(f2.comm.contexts, f2.contextCounter) == Some(i);
  }

  /** The erase is refused for a misaligned address; otherwise the size handed to the
      chip is the smallest multiple of the erase size that covers the request. */
  lemma StartEraseRoundsUp(f: Fa, env: Env)
    ensures var g := StartEraseOf(f, env);
            var s := env.smallestErase;
            var c := f.comm.active;
            var left := Word(c.eraseBytes);
            (c.address % s != 0 ==>
               g.comm.status == STATUS_NOT_ALIGNED && g.comm.state == ERROR && g.hw.flash == f.hw.flash)
            && (c.address % s == 0 ==>
                  g.comm.state == f.comm.state + 1 && |g.hw.flash| == |f.hw.flash| + 1
                  && var op := g.hw.flash[|f.hw.flash|];
                     op.ExtErase? && op.offset == c.address && !op.blocking
                     && op.size % s == 0 && left <= op.size < left + s)
  {
    var s := env.smallestErase;
    var left := Word(f.comm.active.eraseBytes);
    if f.comm.active.address % s == 0 && left % s != 0 {
      DivUnique(left + (s - left % s), s, left / s + 1, 0);
    }
  }

  /** After inflating, the active context describes the inflated data: its size is the
      announced decompressed size, its digest the one of the decompressed data, it
      points at the decompress buffer, the shared context is released, and the machine
      goes back to CHECK_HASH_RAM_NEXT; the hash checked next is over exactly the
      inflated bytes. */
  lemma DecompressSwapsDigest(f: Fa, env: Env)
    requires Wf(f) && !f.hw.hung && f.comm.state == DECOMPRESSING && f.comm.active.decompressedSize != 0
    requires var c := f.comm.active;
             |env.inflate(Slice(BufBytes(f.comm, c.buffer), 0, c.size))| == c.decompressedSize
    ensures var g := StepOf(f, env);
            var c := f.comm.active;
            var out := env.inflate(Slice(BufBytes(f.comm, c.buffer), 0, c.size));
            g.comm.state == CHECK_HASH_RAM_NEXT && !g.hw.hung
            && g.comm.active.size == c.decompressedSize && g.comm.active.decompressedSize == 0
            && g.comm.active.expected == c.expectedDecompressed
            && g.comm.active.buffer == Decompressed
            && g.comm.contexts[f.comm.activeIndex] == RELEASED
            && Slice(BufBytes(g.comm, g.comm.active.buffer), 0, g.comm.active.size) == out
  {
  }

  /** An inflate whose size is not the announced one stops the firmware. */
  lemma DecompressSizeChecked(f: Fa, env: Env)
    requires Wf(f) && !f.hw.hung && f.comm.state == DECOMPRESSING && f.comm.active.decompressedSize != 0
    ensures var c := f.comm.active;
            StepOf(f, env).hw.hung
            <==> |env.inflate(Slice(BufBytes(f.comm, c.buffer), 0, c.size))| != c.decompressedSize
  {
  }

  /** Uncompressed data is copied into the decompress buffer and its context released;
      on the second visit, after the inflated data's digest was checked, DECOMPRESSING
      only moves on. Either way the next state is ERASE_NEXT. */
  lemma DecompressPassesThrough(f: Fa, env: Env)
    requires Wf(f) && !f.hw.hung && f.comm.state == DECOMPRESSING && f.comm.active.decompressedSize == 0
    ensures var g := StepOf(f, env);
            var c := f.comm.active;
            g.comm.state == ERASE_NEXT && g.comm.active.buffer == Decompressed
            && (c.buffer == Decompressed ==> g == StateIncOf(f))
            && (c.buffer != Decompressed ==>
                  g.comm.decompressBuffer == Slice(BufBytes(f.comm, c.buffer), 0, BUFFER_SIZE)
                  && g.comm.contexts[f.comm.activeIndex] == RELEASED)
  {
  }

  /** The program bookkeeping from PROGRAM to the flash check: the progress value is
      the bytes written, which is how far the address and the buffer pointer have
      moved, and it never passes the maximum, the context's size. */
  predicate Progress(f: Fa)
  {
    var c := f.comm.active;
    (f.comm.state == PROGRAM || f.comm.state == CHECK_HASH_FLASH_NEXT || f.comm.state == CHECK_HASH_FLASH) ==>
      f.progressMax == c.size
      && 0 <= f.programBytesLeft <= f.progressMax
      && f.progressValue == f.progressMax - f.programBytesLeft
      && f.programAddress == c.address + f.progressValue
      && f.programBuf == Ptr(c.buffer, f.progressValue)
      && (f.comm.state != PROGRAM ==> f.programBytesLeft == 0)
  }

  /** PROGRAM_NEXT starts the bookkeeping with nothing written. */
  lemma ProgramNextStarts(f: Fa, env: Env)
    requires Wf(f) && !f.hw.hung && f.comm.state == PROGRAM_NEXT
    ensures var g := StepOf(f, env);
            g.comm.state == PROGRAM && Progress(g) && g.progressValue == 0
            && g.programBytesLeft == f.comm.active.size
  {
  }

  /** Every step keeps the bookkeeping: PROGRAM_NEXT starts it, PROGRAM and the flash
      check's announcement keep it, and no other state leads into those three. */
  lemma StepKeepsProgress(f: Fa, env: Env)
    requires Wf(f) && Progress(f)
    ensures Progress(StepOf(f, env))
  {
    var s := f.comm.state;
    if f.hw.hung {
    } else if s == PROGRAM {
      ProgramKeepsProgress(f);
    } else if s == PROGRAM_NEXT {
      ProgramNextStarts(f, env);
    } else if s == IDLE {
      IdleStaysOut(f, env);
    }
  }

  /** IDLE leads to IDLE, START or ERROR. */
  lemma IdleStaysOut(f: Fa, env: Env)
    requires Wf(f) && !f.hw.hung && f.comm.state == IDLE
    ensures StepOf(f, env).comm.state in {IDLE, START, ERROR}
  {
    var f1 := WithStatus(f, STATUS_IDLE).(progressValue := 0, progressMax := 0);
    var f2 := if f1.comm.utcTimestamp != 0 then f1.(comm := f1.comm.(utcTimestamp := 0)) else f1;
    var found := GetContextOf(f2.comm.contexts, f2.contextCounter);
    if found.Some? {
      var c := f2.comm.contexts[found.value];
      if c.erase != 0 {
        var f3 := f2.(contextCounter := (f2.contextCounter + 1) % U32_LIMIT,
                      comm := f2.comm.(activeIndex := found.value, active := c.(buffer := Transfer(found.value))));
        assert StartEraseOf(f3, env).comm.state in {START, ERROR};
      }
    }
  }

  lemma ProgramKeepsProgress(f: Fa)
    requires Progress(f) && f.comm.state == PROGRAM
    ensures Progress(ProgramOf(f))
  {
  }

  /** One PROGRAM step with bytes left writes one page of at most 256 bytes at the page
      holding the address, taken from where the buffer pointer is, and the progress
      grows by the bytes written. */
  lemma ProgramWritesPage(f: Fa, env: Env)
    requires Wf(f) && !f.hw.hung && f.comm.state == PROGRAM && f.programBytesLeft > 0
    ensures var g := StepOf(f, env);
            var n := Min(PAGE, f.programBytesLeft);
            var b := f.programBuf;
            g.comm.state == PROGRAM && 0 < n <= PAGE
            && g.hw.flash == f.hw.flash + [PageProgram(f.programAddress / PAGE * PAGE,
                                                       Slice(BufBytes(f.comm, b.buf), b.at, b.at + n))]
            && (f.programAddress % PAGE == 0 ==> g.hw.flash[|f.hw.flash|].address == f.programAddress)
            && g.programBytesLeft == f.programBytesLeft - n
            && g.progressValue == f.progressMax - g.programBytesLeft
            && g.programAddress == f.programAddress + n && g.programBuf.at == b.at + n
  {
  }

  /** When the flash check is reached every byte of the payload has gone to the chip:
      the progress is full and the address is one past the last byte. */
  lemma ProgramCompletes(f: Fa)
    requires Progress(f) && f.comm.state == CHECK_HASH_FLASH
    ensures f.progressValue == f.progressMax == f.comm.active.size
    ensures f.programAddress == f.comm.active.address + f.comm.active.size
  {
  }

  /** A RAM digest mismatch reports BAD_HASH_RAM and a flash digest mismatch
      BAD_HASH_FLASH, both entering ERROR; a flash match goes back to IDLE. */
  lemma HashChecks(f: Fa, env: Env)
    requires Wf(f) && !f.hw.hung
    ensures f.comm.state == CHECK_HASH_RAM ==>
              var g := StepOf(f, env);
              var c := f.comm.active;
              (env.sha(Slice(BufBytes(f.comm, c.buffer), 0, c.size)) != c.expected
               <==> g.comm.state == ERROR && g.comm.status == STATUS_BAD_HASH_RAM)
              && (g.comm.state != ERROR ==> g.comm.state == DECOMPRESSING)
    ensures f.comm.state == CHECK_HASH_FLASH ==>
              var g := StepOf(f, env);
              var c := f.comm.active;
              (env.flashSha(c.address, c.size) == c.expected <==> g.comm.state == IDLE)
              && (g.comm.state != IDLE ==> g.comm.state == ERROR && g.comm.status == STATUS_BAD_HASH_FLASH)
  {
  }

  /** FINAL and ERROR never change again, nor does a stopped firmware. */
  lemma FinalAndErrorAbsorb(f: Fa, env: Env)
    requires Wf(f) && (f.hw.hung || f.comm.state == FINAL || f.comm.state == ERROR)
    ensures StepOf(f, env) == f
  {
  }

  // ---------------------------------------------------------------------------
  // The firmware itself: `comm` and `flashapp_t`, and `flashapp_run`

  class FlashApp {
    var comm: Comm
    var eraseAddress: int
    var eraseBytesLeft: int
    var programAddress: int
    var programBytesLeft: int
    var programBuf: Ptr
    var progressMax: int
    var progressValue: int
    var contextCounter: u32
    var hw: Device

    function State(): Fa
      reads this
    {
      Fa(comm, eraseAddress, eraseBytesLeft, programAddress, programBytesLeft, programBuf,
         progressMax, progressValue, contextCounter, hw)
    }

    /** `flashapp_main` up to its loop. */
    constructor()
      ensures State() == Boot()
    {
      comm := ZERO_COMM;
      eraseAddress, eraseBytesLeft, programAddress, programBytesLeft := 0, 0, 0, 0;
      programBuf, progressMax, progressValue, contextCounter := Ptr(Null, 0), 0, 0, 1;
      hw := Device([], false);
    }

    /** `state_set`. */
    method StateSet(next: int)
      modifies this
      ensures State() == StateSetOf(old(State()), next)
    {
      comm := comm.(state := next);
    }

    /** `state_inc`. */
    method StateInc()
      modifies this
      ensures State() == StateIncOf(old(State()))
    {
      StateSet(comm.state + 1);
    }

    method RunInit()
      modifies this
      ensures State() == InitOf(old(State()))
    {
      comm := ZERO_COMM.(chunkCount := 1);
      progressValue, progressMax := 0, 0;
      StateInc();
    }

    /** The search of the IDLE case for the context to claim. */
    method GetContext() returns (r: Option<nat>)
      requires |comm.contexts| == CONTEXT_COUNT
      ensures r == GetContextOf(comm.contexts, contextCounter)
    {
      for i := 0 to CONTEXT_COUNT
        invariant forall j :: 0 <= j < i ==> comm.contexts[j].ready != contextCounter
      {
        if comm.contexts[i].ready == contextCounter {
          return Some(i);
        }
      }
      return None;
    }

    method StartErase(env: Env)
      modifies this
      ensures State() == StartEraseOf(old(State()), env)
    {
      eraseAddress := comm.active.address;
      eraseBytesLeft := Word(comm.active.eraseBytes);
      var s := env.smallestErase;
      if eraseAddress % s != 0 {
        comm := comm.(status := STATUS_NOT_ALIGNED);
        StateSet(ERROR);
        return;
      }
      if eraseBytesLeft % s != 0 {
        eraseBytesLeft := eraseBytesLeft + (s - eraseBytesLeft % s);
      }
      hw := hw.(flash := hw.flash + [ExtErase(eraseAddress, eraseBytesLeft, false)]);
      var p := env.ospiErase(eraseAddress, eraseBytesLeft, false);
      eraseAddress, eraseBytesLeft := p.offset, p.left;
      StateInc();
    }

    method Claim(i: nat, env: Env)
      requires Wf(State()) && i < CONTEXT_COUNT
      modifies this
      ensures State() == ClaimOf(old(State()), i, env)
    {
      contextCounter := (contextCounter + 1) % U32_LIMIT;
      comm := comm.(activeIndex := i, active := comm.contexts[i].(buffer := Transfer(i)));
      if comm.active.erase != 0 {
        StartErase(env);
        return;
      }
      StateInc();
    }

    method RunIdle(env: Env)
      requires Wf(State())
      modifies this
      ensures State() == IdleOf(old(State()), env)
    {
      comm := comm.(status := STATUS_IDLE);
      progressValue, progressMax := 0, 0;
      if comm.utcTimestamp != 0 {
        comm := comm.(utcTimestamp := 0);
      }
      var found := GetContext();
      if found.Some? {
        Claim(found.value, env);
      }
    }

    method RunStart()
      modifies this
      ensures State() == StartOf(old(State()))
    {
      comm := comm.(status := STATUS_BUSY);
      StateInc();
    }

    method RunCheckHashRam(env: Env)
      modifies this
      ensures State() == CheckHashRamOf(old(State()), env)
    {
      var c := comm.active;
      if env.sha(Slice(BufBytes(comm, c.buffer), 0, c.size)) != c.expected {
        comm := comm.(status := STATUS_BAD_HASH_RAM);
        StateSet(ERROR);
        return;
      }
      StateInc();
    }

    method RunDecompress(env: Env)
      requires Wf(State())
      modifies this
      ensures State() == DecompressOf(old(State()), env)
    {
      var c := comm.active;
      if c.decompressedSize != 0 {
        var out := env.inflate(Slice(BufBytes(comm, c.buffer), 0, c.size));
        comm := comm.(decompressBuffer := out);
        if |out| != c.decompressedSize {
          hw := hw.(hung := true);
          return;
        }
        comm := comm.(active := c.(size := c.decompressedSize, decompressedSize := 0, buffer := Decompressed,
                                   expected := c.expectedDecompressed),
                      contexts := comm.contexts[comm.activeIndex := RELEASED]);
        StateSet(CHECK_HASH_RAM_NEXT);
        return;
      }
      if c.buffer != Decompressed {
        comm := comm.(decompressBuffer := Slice(BufBytes(comm, c.buffer), 0, BUFFER_SIZE),
                      active := c.(buffer := Decompressed),
                      contexts := comm.contexts[comm.activeIndex := RELEASED]);
      }
      StateInc();
    }

    method RunEraseNext()
      modifies this
      ensures State() == EraseNextOf(old(State()))
    {
      if comm.active.erase != 0 {
        StateInc();
      } else {
        StateSet(PROGRAM_NEXT);
      }
    }

    method RunErase(env: Env)
      modifies this
      ensures State() == EraseOf(old(State()), env)
    {
      if comm.active.eraseBytes == 0 {
        hw := hw.(flash := hw.flash + [ChipErase]);
        StateInc();
        return;
      }
      hw := hw.(flash := hw.flash + [ExtErase(eraseAddress, eraseBytesLeft, true)]);
      var p := env.ospiErase(eraseAddress, eraseBytesLeft, true);
      eraseAddress, eraseBytesLeft := p.offset, p.left;
      if p.done {
        StateInc();
      }
    }

    method RunProgramNext()
      modifies this
      ensures State() == ProgramNextOf(old(State()))
    {
      progressValue := 0;
      programAddress := comm.active.address;
      progressMax := comm.active.size;
      programBytesLeft := comm.active.size;
      programBuf := Ptr(comm.active.buffer, 0);
      StateInc();
    }

    method RunProgram()
      modifies this
      ensures State() == ProgramOf(old(State()))
    {
      if programBytesLeft > 0 {
        var n := Min(PAGE, programBytesLeft);
        var data := Slice(BufBytes(comm, programBuf.buf), programBuf.at, programBuf.at + n);
        hw := hw.(flash := hw.flash + [PageProgram(programAddress / PAGE * PAGE, data)]);
        programAddress := programAddress + n;
        programBuf := programBuf.(at := programBuf.at + n);
        programBytesLeft := programBytesLeft - n;
        progressValue := progressMax - programBytesLeft;
      } else {
        StateInc();
      }
    }

    method RunCheckHashFlash(env: Env)
      modifies this
      ensures State() == CheckHashFlashOf(old(State()), env)
    {
      var c := comm.active;
      if env.flashSha(c.address, c.size) != c.expected {
        comm := comm.(status := STATUS_BAD_HASH_FLASH);
        StateSet(ERROR);
        return;
      }
      StateSet(IDLE);
    }

    /** `flashapp_run`: dispatch on the state. */
    method Run(env: Env)
      requires Wf(State())
      modifies this
      ensures State() == StepOf(old(State()), env)
    {
      var s := comm.state;
      if hw.hung {
        return;
      }
      if s == INIT {
        RunInit();
      } else if s == IDLE {
        RunIdle(env);
      } else if s == START {
        RunStart();
      } else if s == CHECK_HASH_RAM_NEXT {
        StateInc();
      } else if s == CHECK_HASH_RAM {
        RunCheckHashRam(env);
      } else if s == DECOMPRESSING {
        RunDecompress(env);
      } else if s == ERASE_NEXT {
        RunEraseNext();
      } else if s == ERASE {
        RunErase(env);
      } else if s == PROGRAM_NEXT {
        RunProgramNext();
      } else if s == PROGRAM {
        RunProgram();
      } else if s == CHECK_HASH_FLASH_NEXT {
        StateInc();
      } else if s == CHECK_HASH_FLASH {
        RunCheckHashFlash(env);
      }
    }
  }
}
