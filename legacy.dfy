/** The legacy single-file host tool, gnwmanager.py. It speaks an older layout of the
    same mailbox protocol: two contexts of 4 KiB each after the communication block in
    the second framebuffer, a global `context_counter` that starts at 1, and a `_flash_ext`
    upload that can resume from a progress file. Transport calls go through the same
    link model as gnw.py; halting and resuming the core are not memory effects and are
    not modelled. SHA-256 and LZMA are parameters. */
module Legacy {
  import opened Common
  import opened Validation
  import P = HostProtocol
  import H = Host

  /** `comm["flashapp_comm"]` is `framebuffer2`. */
  const FLASHAPP_COMM: int := 0x2402_5800
  const CONTEXTS: nat := 2
  /** Each context struct starts on its own 4 KiB page. */
  const PAGE: nat := 4096
  /** Transfer buffers, and so upload chunks, are 256 KiB. */
  const CHUNK_SIZE: nat := 256 * 1024

  // ---- Layout (`_populate_comm`) ----

  datatype CommSlot =
    | FlashappState | ProgramStatus | UtcTimestamp | ProgramChunkIdx | ProgramChunkCount | ActiveContextIndex

  /** The communication words follow each other from the start of `flashapp_comm`. */
  function CommAddress(s: CommSlot): int
  {
    FLASHAPP_COMM + match s
      case FlashappState => 0
      case ProgramStatus => 4
      case UtcTimestamp => 8
      case ProgramChunkIdx => 12
      case ProgramChunkCount => 16
      case ActiveContextIndex => 20
  }

  /** The fields of a context struct, in declaration order. */
  datatype Slot =
    | Ready | Size | Address | Erase | EraseBytes | DecompressedSize
    | ExpectedSha256 | ExpectedSha256Decompressed | BufferPtr

  function Rank(s: Slot): nat
  {
    match s
    case Ready => 0 case Size => 1 case Address => 2 case Erase => 3 case EraseBytes => 4
    case DecompressedSize => 5 case ExpectedSha256 => 6 case ExpectedSha256Decompressed => 7
    case BufferPtr => 8
  }

  function Previous(s: Slot): (r: Slot)
    requires s != Ready
    ensures Rank(r) + 1 == Rank(s)
  {
    match s
    case Size => Ready case Address => Size case Erase => Address case EraseBytes => Erase
    case DecompressedSize => EraseBytes case ExpectedSha256 => DecompressedSize
    case ExpectedSha256Decompressed => ExpectedSha256 case BufferPtr => ExpectedSha256Decompressed
  }

  function SlotSize(s: Slot): nat
  {
    if s == ExpectedSha256 || s == ExpectedSha256Decompressed then 32 else 4
  }

  /** Each field starts where the previous one ends, the first at the struct's start. */
  function SlotOffset(s: Slot): nat
    decreases Rank(s)
  {
    if s == Ready then 0 else SlotOffset(Previous(s)) + SlotSize(Previous(s))
  }

  /** Where each field lies in its struct: the struct takes 92 bytes, well inside its
      page, and only `ready` sits at offset 0. */
  function OffsetTable(s: Slot): (r: nat)
    ensures r + SlotSize(s) <= 92 && (s != Ready ==> r >= 4)
  {
    match s
    case Ready => 0 case Size => 4 case Address => 8 case Erase => 12 case EraseBytes => 16
    case DecompressedSize => 20 case ExpectedSha256 => 24 case ExpectedSha256Decompressed => 56
    case BufferPtr => 88
  }

  /** The chain of fields, each placed after the previous one, yields the table. */
  lemma {:induction false} SlotOffsetValue(s: Slot)
    ensures SlotOffset(s) == OffsetTable(s)
    decreases Rank(s)
  {
    if s != Ready {
      SlotOffsetValue(Previous(s));
    }
  }

  /** `contexts[i][s].address`. */
  function SlotAddress(i: nat, s: Slot): int
    requires i < CONTEXTS
  {
    FLASHAPP_COMM + (i + 1) * PAGE + OffsetTable(s)
  }

  /** `contexts[i]["buffer"]`: the buffers follow the 4 KiB `active_context` at page 3. */
  function BufferAddress(i: nat): int
    requires i < CONTEXTS
  {
    FLASHAPP_COMM + 3 * PAGE + PAGE + i * CHUNK_SIZE
  }

  /** Two distinct fields of one context never overlap, no field of one context reaches
      another's page, and the buffers lie beyond every context struct. */
  lemma SlotsApart(i: nat, j: nat, s: Slot, t: Slot)
    requires i < CONTEXTS && j < CONTEXTS && (i, s) != (j, t)
    ensures SlotAddress(i, s) + SlotSize(s) <= SlotAddress(j, t) || SlotAddress(j, t) + SlotSize(t) <= SlotAddress(i, s)
    ensures SlotAddress(i, s) + SlotSize(s) <= BufferAddress(j)
  {
  }

  // ---- State ----

  /** The progress file: the data file's modification time and the chunks known flashed. */
  datatype ProgressRecord = ProgressRecord(time: string, count: nat)

  /** The tool's state: the link, the global `context_counter`, and the progress file. */
  datatype Tool = Tool(link: P.Link, counter: int, progress: Option<ProgressRecord>)

  datatype Step<T> = Step(result: Result<T>, tool: Tool)

  // ---- Polling ----

  /** `get_context`: read each context's `ready` in turn and take the first that is 0;
      the deadline is checked after every busy context. */
  function GetContextOf(l: P.Link, polls: nat, ctx: nat): (r: P.Run<nat>)
    requires ctx < CONTEXTS
    ensures r.result.Ok? ==> r.result.value < CONTEXTS
    decreases polls
  {
    var r := P.ReadWord(l, SlotAddress(ctx, Ready));
    if r.result.Err? then P.Run(Err(r.result.error), r.link)
    else if r.result.value == 0 then P.Run(Ok(ctx), r.link)
    else if polls == 0 then P.Run(Err(TimeoutError), r.link)
    else GetContextOf(r.link, polls - 1, if ctx + 1 == CONTEXTS then 0 else ctx + 1)
  }

  /** The context handed out is the one whose `ready` was read as 0 by the last call;
      every earlier read in the poll found a busy context. */
  lemma {:induction false} GetContextFree(l: P.Link, polls: nat, ctx: nat)
    requires ctx < CONTEXTS
    ensures var r := GetContextOf(l, polls, ctx);
            |r.link.log| >= |l.log| && r.link.log[..|l.log|] == l.log
            && r.link.blocks == l.blocks
            && (r.result.Err? ==> r.result.error in {TimeoutError, TransportError})
    ensures var r := GetContextOf(l, polls, ctx);
            r.result.Ok? ==> |r.link.log| > |l.log|
                             && r.link.log[|r.link.log| - 1] == P.Read32(SlotAddress(r.result.value, Ready), 0)
                             && forall k :: |l.log| <= k < |r.link.log| - 1 ==> r.link.log[k].Read32? && r.link.log[k].word != 0
    decreases polls
  {
    var r := P.ReadWord(l, SlotAddress(ctx, Ready));
    if r.result.Ok? && r.result.value != 0 && polls > 0 {
      GetContextFree(r.link, polls - 1, if ctx + 1 == CONTEXTS then 0 else ctx + 1);
    }
  }

  /** `wait_for(status)`: read `program_status` until its name is `status`; an error
      status (upper half-word 0xBAD0) raises `DataError` with its name, and the deadline
      raises `TimeoutError`. */
  function WaitForOf(l: P.Link, status: string, polls: nat): P.Run<()>
    decreases polls
  {
    var r := P.ReadWord(l, CommAddress(ProgramStatus));
    if r.result.Err? then P.Run(Err(r.result.error), r.link)
    else
      var name := P.StatusName(r.result.value);
      if name == status then P.Run(Ok(()), r.link)
      else if P.IsErrorStatus(r.result.value) then P.Run(Err(DataError(name)), r.link)
      else if polls == 0 then P.Run(Err(TimeoutError), r.link)
      else WaitForOf(r.link, status, polls - 1)
  }

  /** `wait_for` returns only right after reading the wanted status, and raises
      `DataError` only right after reading an error status that is not the wanted one. */
  lemma {:induction false} WaitForOutcome(l: P.Link, status: string, polls: nat)
    ensures var r := WaitForOf(l, status, polls);
            |r.link.log| >= |l.log| && r.link.log[..|l.log|] == l.log
    ensures var r := WaitForOf(l, status, polls);
            r.result.Ok? ==> |r.link.log| > |l.log|
                             && var last := r.link.log[|r.link.log| - 1];
                                last.Read32? && last.addr == CommAddress(ProgramStatus)
                                && P.StatusName(last.word) == status
    ensures var r := WaitForOf(l, status, polls);
            r.result.Err? && r.result.error.DataError? ==>
              |r.link.log| > |l.log|
              && var last := r.link.log[|r.link.log| - 1];
                 last.Read32? && last.addr == CommAddress(ProgramStatus) && P.IsErrorStatus(last.word)
                 && r.result.error.status == P.StatusName(last.word) != status
    decreases polls
  {
    var r := P.ReadWord(l, CommAddress(ProgramStatus));
    if r.result.Ok? {
      var name := P.StatusName(r.result.value);
      if name != status && !P.IsErrorStatus(r.result.value) && polls > 0 {
        WaitForOutcome(r.link, status, polls - 1);
      }
    }
  }

  /** `wait_for_all_contexts_complete`: both `ready` words clear, then IDLE, all within
      one deadline. */
  function WaitForAllContextsCompleteOf(l: P.Link, polls: nat): P.Run<()>
  {
    var a := P.WaitCleared(l, SlotAddress(0, Ready), polls);
    if a.result.Err? then P.Run(Err(a.result.error), a.link)
    else
      var b := P.WaitCleared(a.link, SlotAddress(1, Ready), a.result.value);
      if b.result.Err? then P.Run(Err(b.result.error), b.link)
      else WaitForOf(b.link, "IDLE", b.result.value)
  }

  // ---- Requests ----

  /** The request's writes hand the context over: the last write puts the counter in
      `ready`, and no earlier write touches `ready`. */
  predicate ReadyLast(w: seq<P.Op>, ctx: nat, counter: int)
    requires ctx < CONTEXTS
  {
    |w| > 0 && w[|w| - 1] == P.Write32(SlotAddress(ctx, Ready), counter)
    && forall k :: 0 <= k < |w| - 1 ==> w[k].addr != SlotAddress(ctx, Ready)
  }

  /** No write of `w` goes to field `s` of the context. */
  predicate Untouched(w: seq<P.Op>, ctx: nat, s: Slot)
    requires ctx < CONTEXTS
  {
    forall k :: 0 <= k < |w| ==> w[k].addr != SlotAddress(ctx, s)
  }

  /** The writes of `extflash_write` once it holds context `ctx`. With `erase`, the erase
      length is the decompressed size when there is one and the payload length
      otherwise; without it, neither erase field is written. The decompressed digest is
      written only when one is given and non-empty. */
  function WriteRequest(ctx: nat, offset: int, data: Bytes, erase: bool, decompressedSize: int,
                        decompressedHash: Option<Bytes>, digest: Bytes, counter: int): seq<P.Op>
    requires ctx < CONTEXTS
  {
    [P.Write32(SlotAddress(ctx, Address), offset), P.Write32(SlotAddress(ctx, Size), |data|)]
    + (if erase then [P.Write32(SlotAddress(ctx, Erase), 1),
                      P.Write32(SlotAddress(ctx, EraseBytes), if decompressedSize != 0 then decompressedSize else |data|)]
       else [])
    + [P.Write32(SlotAddress(ctx, DecompressedSize), decompressedSize),
       P.WriteMem(SlotAddress(ctx, ExpectedSha256), digest)]
    + (if decompressedHash.Some? && decompressedHash.value != [] then
         [P.WriteMem(SlotAddress(ctx, ExpectedSha256Decompressed), decompressedHash.value)]
       else [])
    + [P.WriteMem(BufferAddress(ctx), data), P.Write32(SlotAddress(ctx, Ready), counter)]
  }

  /** With `erase`, the erase length is the decompressed size when there is one and the
      payload length otherwise; without it, neither erase field is written. The
      decompressed digest is written only when one is given and non-empty, and `ready`
      goes last. */
  lemma WriteRequestShape(ctx: nat, offset: int, data: Bytes, erase: bool, decompressedSize: int,
                          decompressedHash: Option<Bytes>, digest: Bytes, counter: int)
    requires ctx < CONTEXTS
    ensures var w := WriteRequest(ctx, offset, data, erase, decompressedSize, decompressedHash, digest, counter);
            ReadyLast(w, ctx, counter)
            && (erase ==> w[2] == P.Write32(SlotAddress(ctx, Erase), 1)
                          && w[3] == P.Write32(SlotAddress(ctx, EraseBytes),
                                               if decompressedSize != 0 then decompressedSize else |data|))
            && (!erase ==> Untouched(w, ctx, Erase) && Untouched(w, ctx, EraseBytes))
            && ((decompressedHash.None? || decompressedHash.value == []) <==> Untouched(w, ctx, ExpectedSha256Decompressed))
            && P.WriteMem(SlotAddress(ctx, ExpectedSha256), digest) in w && P.WriteMem(BufferAddress(ctx), data) in w
  {
    var w := WriteRequest(ctx, offset, data, erase, decompressedSize, decompressedHash, digest, counter);
    var addr, size := P.Write32(SlotAddress(ctx, Address), offset), P.Write32(SlotAddress(ctx, Size), |data|);
    var e1 := P.Write32(SlotAddress(ctx, Erase), 1);
    var e2 := P.Write32(SlotAddress(ctx, EraseBytes), if decompressedSize != 0 then decompressedSize else |data|);
    var ds := P.Write32(SlotAddress(ctx, DecompressedSize), decompressedSize);
    var sh := P.WriteMem(SlotAddress(ctx, ExpectedSha256), digest);
    var buf, rdy := P.WriteMem(BufferAddress(ctx), data), P.Write32(SlotAddress(ctx, Ready), counter);
    if decompressedHash.Some? && decompressedHash.value != [] {
      var dh := P.WriteMem(SlotAddress(ctx, ExpectedSha256Decompressed), decompressedHash.value);
      if erase {
        assert w == [addr, size, e1, e2, ds, sh, dh, buf, rdy];
      } else {
        assert w == [addr, size, ds, sh, dh, buf, rdy];
      }
      assert !Untouched(w, ctx, ExpectedSha256Decompressed) by {
        assert w[|w| - 3] == dh;
      }
    } else if erase {
      assert w == [addr, size, e1, e2, ds, sh, buf, rdy];
    } else {
      assert w == [addr, size, ds, sh, buf, rdy];
    }
  }

  /** `extflash_write(offset, data, erase, blocking, decompressed_size, decompressed_hash)`:
      the offset is validated, empty data returns at once, more than 256 KiB is a
      `ValueError`; otherwise the request is submitted, waiting for the device around it
      when blocking. */
  function ExtflashWriteOf(t: Tool, offset: int, data: Bytes, erase: bool, blocking: bool,
                           decompressedSize: int, decompressedHash: Option<Bytes>,
                           polls: nat, sha: Bytes -> Bytes): Step<()>
  {
    if ValidateExtflashOffset(offset).Fail? then Step(Err(ValueError), t)
    else if data == [] then Step(Ok(()), t)
    else if |data| > CHUNK_SIZE then Step(Err(ValueError), t)
    else if blocking then BlockingWriteOf(t, offset, data, erase, decompressedSize, decompressedHash, polls, sha)
    else SubmitWriteOf(t, offset, data, erase, decompressedSize, decompressedHash, polls, sha)
  }

  /** A non-blocking write: claim a context, write the request, advance the counter. */
  function SubmitWriteOf(t: Tool, offset: int, data: Bytes, erase: bool, decompressedSize: int,
                         decompressedHash: Option<Bytes>, polls: nat, sha: Bytes -> Bytes): Step<()>
  {
    var g := GetContextOf(t.link, polls, 0);
    if g.result.Err? then Step(Err(g.result.error), t.(link := g.link))
    else
      var sent := P.Send(g.link, WriteRequest(g.result.value, offset, data, erase, decompressedSize,
                                              decompressedHash, sha(data), t.counter));
      Step(Ok(()), t.(link := sent, counter := t.counter + 1))
  }

  /** A blocking write: claim a context, wait for IDLE, write the request, advance the
      counter, and wait for both contexts and IDLE. */
  function BlockingWriteOf(t: Tool, offset: int, data: Bytes, erase: bool, decompressedSize: int,
                           decompressedHash: Option<Bytes>, polls: nat, sha: Bytes -> Bytes): Step<()>
  {
    var g := GetContextOf(t.link, polls, 0);
    if g.result.Err? then Step(Err(g.result.error), t.(link := g.link))
    else
      var w := WaitForOf(g.link, "IDLE", polls);
      if w.result.Err? then Step(Err(w.result.error), t.(link := w.link))
      else
        var sent := P.Send(w.link, WriteRequest(g.result.value, offset, data, erase, decompressedSize,
                                                decompressedHash, sha(data), t.counter));
        var c := WaitForAllContextsCompleteOf(sent, polls);
        Step(c.result, t.(link := c.link, counter := t.counter + 1))
  }

  /** `extflash_write` with `blocking=False`, as `_flash_ext` calls it. */
  function NonBlockingWriteOf(t: Tool, offset: int, data: Bytes, decompressedSize: int,
                              decompressedHash: Option<Bytes>, polls: nat, sha: Bytes -> Bytes): (r: Step<()>)
    ensures r == ExtflashWriteOf(t, offset, data, true, false, decompressedSize, decompressedHash, polls, sha)
  {
    if ValidateExtflashOffset(offset).Fail? || |data| > CHUNK_SIZE then Step(Err(ValueError), t)
    else if data == [] then Step(Ok(()), t)
    else SubmitWriteOf(t, offset, data, true, decompressedSize, decompressedHash, polls, sha)
  }

  /** `extflash_write` submits at most one request, and only for a valid offset and
      between 1 byte and 256 KiB of data: empty data is a no-op, oversize data a
      `ValueError` with nothing sent. It never touches the progress file. */
  lemma ExtflashWriteChecks(t: Tool, offset: int, data: Bytes, erase: bool, blocking: bool,
                            decompressedSize: int, decompressedHash: Option<Bytes>, polls: nat, sha: Bytes -> Bytes)
    ensures var r := ExtflashWriteOf(t, offset, data, erase, blocking, decompressedSize, decompressedHash, polls, sha);
            var valid := ValidateExtflashOffset(offset).Pass?;
            (valid && data == [] ==> r == Step(Ok(()), t))
            && (valid && |data| > CHUNK_SIZE ==> r == Step(Err(ValueError), t))
            && (!valid ==> r == Step(Err(ValueError), t))
            && (r.tool.counter == t.counter || (r.tool.counter == t.counter + 1 && valid && 0 < |data| <= CHUNK_SIZE))
            && r.tool.progress == t.progress
            && (r.result.Ok? && valid && 0 < |data| <= CHUNK_SIZE ==> r.tool.counter == t.counter + 1)
  {
  }

  /** The writes of `extflash_erase`: erase at `offset`, program nothing, erase `size`
      bytes or, with 0, the whole chip; the empty-data digest; `ready` last. */
  function EraseRequest(ctx: nat, offset: int, size: int, wholeChip: bool, emptyDigest: Bytes,
                        counter: int): (w: seq<P.Op>)
    requires ctx < CONTEXTS
    ensures ReadyLast(w, ctx, counter)
    ensures P.Write32(SlotAddress(ctx, EraseBytes), if wholeChip then 0 else size) in w
    ensures P.Write32(SlotAddress(ctx, Size), 0) in w && P.Write32(SlotAddress(ctx, Erase), 1) in w
  {
    [P.Write32(SlotAddress(ctx, Address), offset), P.Write32(SlotAddress(ctx, Erase), 1),
     P.Write32(SlotAddress(ctx, Size), 0),
     P.Write32(SlotAddress(ctx, EraseBytes), if wholeChip then 0 else size),
     P.WriteMem(SlotAddress(ctx, ExpectedSha256), emptyDigest),
     P.Write32(SlotAddress(ctx, Ready), counter)]
  }

  /** `extflash_erase(offset, size, whole_chip)`: a non-positive size without
      `whole_chip` is a `ValueError`; the request always ends with a wait for both
      contexts and IDLE. */
  function ExtflashEraseOf(t: Tool, offset: int, size: int, wholeChip: bool, polls: nat,
                           sha: Bytes -> Bytes): Step<()>
  {
    if ValidateExtflashOffset(offset).Fail? || (size <= 0 && !wholeChip) then Step(Err(ValueError), t)
    else
      var g := GetContextOf(t.link, polls, 0);
      if g.result.Err? then Step(Err(g.result.error), t.(link := g.link))
      else
        var sent := P.Send(g.link, EraseRequest(g.result.value, offset, size, wholeChip, sha([]), t.counter));
        var c := WaitForAllContextsCompleteOf(sent, polls);
        Step(c.result, t.(link := c.link, counter := t.counter + 1))
  }

  /** An erase is submitted exactly when the offset is valid and either `whole_chip` is
      set or the size is positive; the device is then told to erase 0 bytes, meaning the
      whole chip, exactly when `whole_chip` is set. */
  lemma ExtflashEraseChecks(t: Tool, offset: int, size: int, wholeChip: bool, polls: nat, sha: Bytes -> Bytes)
    ensures var r := ExtflashEraseOf(t, offset, size, wholeChip, polls, sha);
            var accepted := ValidateExtflashOffset(offset).Pass? && (size > 0 || wholeChip);
            (!accepted ==> r == Step(Err(ValueError), t))
            && (r.tool.counter != t.counter ==> accepted && r.tool.counter == t.counter + 1)
            && (accepted ==> ((if wholeChip then 0 else size) == 0 <==> wholeChip))
  {
  }

  // ---- Resumable upload (`_flash_ext`) ----

  /** The chunk count to resume from: the recorded count when progress is tracked, a
      record exists, and its time stamp is the data file's; 0 otherwise. */
  function ResumePoint(progress: Option<ProgressRecord>, tracking: bool, dataTime: string): (r: nat)
    ensures r != 0 ==> tracking && progress.Some? && progress.value.time == dataTime
    ensures tracking && progress.Some? && progress.value.time == dataTime ==> r == progress.value.count
  {
    if tracking && progress.Some? && progress.value.time == dataTime then progress.value.count else 0
  }

  /** `max(previous, chunk_1_idx - 3)`: up to three chunks handed to the device may not
      have reached flash yet, and the resume point is never given back. */
  function SafeCount(previous: nat, handedOver: nat): (r: nat)
    ensures previous <= r && r <= Max(previous, handedOver) && handedOver <= r + 3
  {
    Max(previous, handedOver - 3)
  }

  /** What one chunk is sent as. */
  datatype Upload = Upload(data: Bytes, decompressedSize: int, decompressedHash: Option<Bytes>)

  /** The compressed chunk is sent only if it is strictly shorter; it then carries the raw
      length and the raw chunk's digest for the device to check after decompressing. */
  function ChooseUpload(chunk: Bytes, compressed: Bytes, sha: Bytes -> Bytes): (u: Upload)
    ensures |u.data| <= |chunk|
    ensures u.decompressedSize != 0 <==> |compressed| < |chunk|
    ensures u.decompressedSize == 0 ==> u == Upload(chunk, 0, None)
    ensures u.decompressedSize != 0 ==> u == Upload(compressed, |chunk|, Some(sha(chunk)))
  {
    if |compressed| < |chunk| then Upload(compressed, |chunk|, Some(sha(chunk)))
    else Upload(chunk, 0, None)
  }

  /** Whichever form is sent, the device erases exactly the raw chunk's length. */
  lemma UploadErasesChunk(ctx: nat, offset: int, chunk: Bytes, compressed: Bytes, sha: Bytes -> Bytes,
                          digest: Bytes, counter: int)
    requires ctx < CONTEXTS
    ensures var u := ChooseUpload(chunk, compressed, sha);
            WriteRequest(ctx, offset, u.data, true, u.decompressedSize, u.decompressedHash, digest, counter)[3]
              == P.Write32(SlotAddress(ctx, EraseBytes), |chunk|)
  {
  }

  /** `chunk_bytes(data, 256 KiB)[previous:]`: the chunks still to send, chunk `i` of
      which is chunk `previous + i` of the whole file. */
  function ResumeChunks(data: Bytes, previous: nat): (r: seq<Bytes>)
    ensures var all := Chunks(data, CHUNK_SIZE);
            |r| == (if previous <= |all| then |all| - previous else 0)
            && forall i :: 0 <= i < |r| ==> r[i] == all[previous + i]
  {
    var all := Chunks(data, CHUNK_SIZE);
    Slice(all, previous, |all|)
  }

  /** One step of the loop of `_flash_ext`: set `program_chunk_idx` to the 1-based chunk
      number, write the chunk (compressed when that is shorter) at `addr` without
      blocking, and, when progress is tracked, record the safe count. */
  function UploadOneOf(t: Tool, chunk: Bytes, idx: nat, addr: int, previous: nat, tracking: bool,
                       dataTime: string, polls: nat, sha: Bytes -> Bytes, lzma: Bytes -> Bytes): Step<()>
  {
    var u := ChooseUpload(chunk, lzma(chunk), sha);
    var marked := t.(link := P.WriteWord(t.link, CommAddress(ProgramChunkIdx), idx));
    var w := NonBlockingWriteOf(marked, addr, u.data, u.decompressedSize, u.decompressedHash, polls, sha);
    if w.result.Err? || !tracking then w
    else w.(tool := w.tool.(progress := Some(ProgressRecord(dataTime, SafeCount(previous, idx)))))
  }

  /** What one loop step does to the counter and the progress record: a step that
      fails changes neither; one that succeeds hands one request to the device and,
      when progress is tracked, records the safe count for chunk number `idx`. */
  predicate Counted(t: Tool, w: Step<()>, idx: nat, previous: nat, tracking: bool, dataTime: string)
  {
    (w.result.Err? ==> w.tool.counter == t.counter && w.tool.progress == t.progress)
    && (w.result.Ok? ==> w.tool.counter == t.counter + 1
                         && w.tool.progress == if tracking then Some(ProgressRecord(dataTime, SafeCount(previous, idx)))
                                               else t.progress)
  }

  /** Every upload step of a nonempty chunk whose compressed form is nonempty is `Counted`. */
  lemma UploadOneCounts(t: Tool, chunk: Bytes, idx: nat, addr: int, previous: nat, tracking: bool,
                        dataTime: string, polls: nat, sha: Bytes -> Bytes, lzma: Bytes -> Bytes)
    requires 0 < |chunk| <= CHUNK_SIZE && lzma(chunk) != []
    ensures Counted(t, UploadOneOf(t, chunk, idx, addr, previous, tracking, dataTime, polls, sha, lzma),
                    idx, previous, tracking, dataTime)
  {
    var u := ChooseUpload(chunk, lzma(chunk), sha);
    var marked := t.(link := P.WriteWord(t.link, CommAddress(ProgramChunkIdx), idx));
    ExtflashWriteChecks(marked, addr, u.data, true, false, u.decompressedSize, u.decompressedHash, polls, sha);
  }

  /** The body of the loop of `_flash_ext` as a function of the tool and the step number
      `k`: chunk `k` of `todo` goes to `base + k * 256 KiB` as chunk number `previous + k + 1`. */
  function UploadStep(todo: seq<Bytes>, previous: nat, base: int, tracking: bool, dataTime: string, polls: nat,
                      sha: Bytes -> Bytes, lzma: Bytes -> Bytes): (Tool, nat) -> Step<()>
  {
    (t: Tool, k: nat) =>
      if k < |todo| then
        UploadOneOf(t, todo[k], previous + k + 1, base + k * CHUNK_SIZE, previous, tracking, dataTime, polls, sha, lzma)
      else Step(Ok(()), t)
  }

  /** Every step of the upload of nonempty chunks of at most 256 KiB is `Counted`. */
  lemma UploadStepCounted(todo: seq<Bytes>, previous: nat, base: int, tracking: bool, dataTime: string, polls: nat,
                          sha: Bytes -> Bytes, lzma: Bytes -> Bytes)
    requires forall k :: 0 <= k < |todo| ==> 0 < |todo[k]| <= CHUNK_SIZE && lzma(todo[k]) != []
    ensures var step := UploadStep(todo, previous, base, tracking, dataTime, polls, sha, lzma);
            forall t': Tool, k: nat :: k < |todo| ==> Counted(t', step(t', k), previous + k + 1, previous, tracking, dataTime)
  {
    var step := UploadStep(todo, previous, base, tracking, dataTime, polls, sha, lzma);
    forall t': Tool, k: nat | k < |todo|
      ensures Counted(t', step(t', k), previous + k + 1, previous, tracking, dataTime)
    {
      UploadOneCounts(t', todo[k], previous + k + 1, base + k * CHUNK_SIZE, previous, tracking, dataTime,
                      polls, sha, lzma);
    }
  }

  /** The loop of `_flash_ext` from step `i` to step `n`, stopping at the first failure. */
  function UploadChunks(t: Tool, n: nat, i: nat, step: (Tool, nat) -> Step<()>): Step<()>
    requires i <= n
    decreases n - i
  {
    if i == n then Step(Ok(()), t)
    else
      var w := step(t, i);
      if w.result.Err? then w else UploadChunks(w.tool, n, i + 1, step)
  }

  /** When every step is `Counted`, each step the loop gets through is one request handed
      to the device. After `h` of them the progress record holds
      `SafeCount(previous, previous + i + h)`: never less than the resume point, never more
      than the chunks handed over, and at most three short of them. A loop that hands
      nothing over leaves the record alone. */
  lemma {:induction false} UploadChunksRecords(t: Tool, n: nat, i: nat, step: (Tool, nat) -> Step<()>,
                                               previous: nat, tracking: bool, dataTime: string)
    requires i <= n
    requires forall t': Tool, k: nat :: i <= k < n ==> Counted(t', step(t', k), previous + k + 1, previous, tracking, dataTime)
    ensures var r := UploadChunks(t, n, i, step);
            var h := r.tool.counter - t.counter;
            0 <= h <= n - i
            && (r.result.Ok? ==> h == n - i)
            && (!tracking || h == 0 ==> r.tool.progress == t.progress)
            && (tracking && h > 0 ==> r.tool.progress == Some(ProgressRecord(dataTime, SafeCount(previous, previous + i + h))))
    decreases n - i
  {
    if i < n {
      var w := step(t, i);
      assert Counted(t, w, previous + i + 1, previous, tracking, dataTime);
      if w.result.Ok? {
        UploadChunksRecords(w.tool, n, i + 1, step, previous, tracking, dataTime);
      }
    }
  }

  /** The resumable part of `_flash_ext`: resume after the recorded count when the
      progress file matches, announce the total chunk count, and upload the rest. */
  function ResumeUploadOf(t: Tool, offset: int, data: Bytes, tracking: bool, dataTime: string, polls: nat,
                          sha: Bytes -> Bytes, lzma: Bytes -> Bytes): Step<()>
  {
    var previous := ResumePoint(t.progress, tracking, dataTime);
    var counted := t.(link := P.WriteWord(t.link, CommAddress(ProgramChunkCount), |Chunks(data, CHUNK_SIZE)|));
    var todo := ResumeChunks(data, previous);
    UploadChunks(counted, |todo|, 0,
                 UploadStep(todo, previous, offset + previous * CHUNK_SIZE, tracking, dataTime, polls, sha, lzma))
  }

  /** An interrupted upload leaves a progress record a later run can trust: if the run
      changed the record, it carries this file's time stamp and a count between the
      resume point and the chunks the run handed to the device, at most three short of
      the latter. */
  lemma ResumeUploadRecords(t: Tool, offset: int, data: Bytes, tracking: bool, dataTime: string, polls: nat,
                            sha: Bytes -> Bytes, lzma: Bytes -> Bytes)
    requires forall c :: lzma(c) != []
    ensures var r := ResumeUploadOf(t, offset, data, tracking, dataTime, polls, sha, lzma);
            var previous := ResumePoint(t.progress, tracking, dataTime);
            var n := r.tool.counter - t.counter;
            n >= 0
            && (r.tool.progress != t.progress ==>
                  tracking && r.tool.progress.Some? && r.tool.progress.value.time == dataTime
                  && previous <= r.tool.progress.value.count <= previous + n
                  && previous + n <= r.tool.progress.value.count + 3)
  {
    var previous := ResumePoint(t.progress, tracking, dataTime);
    ChunksBounded(data, CHUNK_SIZE);
    var counted := t.(link := P.WriteWord(t.link, CommAddress(ProgramChunkCount), |Chunks(data, CHUNK_SIZE)|));
    var todo := ResumeChunks(data, previous);
    var step := UploadStep(todo, previous, offset + previous * CHUNK_SIZE, tracking, dataTime, polls, sha, lzma);
    UploadStepCounted(todo, previous, offset + previous * CHUNK_SIZE, tracking, dataTime, polls, sha, lzma);
    UploadChunksRecords(counted, |todo|, 0, step, previous, tracking, dataTime);
  }

  /** `_flash_ext(offset, data)`: validate the offset, upload the chunks still to send,
      wait for the device, and delete the progress file once done. */
  function FlashExtOf(t: Tool, offset: int, data: Bytes, tracking: bool, dataTime: string, polls: nat,
                      sha: Bytes -> Bytes, lzma: Bytes -> Bytes): Step<()>
  {
    if ValidateExtflashOffset(offset).Fail? then Step(Err(ValueError), t)
    else
      var u := ResumeUploadOf(t, offset, data, tracking, dataTime, polls, sha, lzma);
      if u.result.Err? then u
      else FinishOf(u.tool, tracking, polls)
  }

  /** The end of `_flash_ext`: wait for both contexts and IDLE, then for IDLE again, and
      remove a tracked progress file. */
  function FinishOf(t: Tool, tracking: bool, polls: nat): (r: Step<()>)
    ensures r.tool.counter == t.counter
    ensures r.tool.progress == if tracking && r.result.Ok? then None else t.progress
  {
    var c := WaitForAllContextsCompleteOf(t.link, polls);
    if c.result.Err? then Step(c.result, t.(link := c.link))
    else
      var i := WaitForOf(c.link, "IDLE", polls);
      Step(i.result, t.(link := i.link, progress := if tracking && i.result.Ok? then None else t.progress))
  }

  /** A finished tracked upload removes the progress record; a failed one leaves a record
      a later run can trust, as `ResumeUploadRecords` states. */
  lemma FlashExtResumeSafe(t: Tool, offset: int, data: Bytes, tracking: bool, dataTime: string, polls: nat,
                           sha: Bytes -> Bytes, lzma: Bytes -> Bytes)
    requires forall c :: lzma(c) != []
    ensures var r := FlashExtOf(t, offset, data, tracking, dataTime, polls, sha, lzma);
            var previous := ResumePoint(t.progress, tracking, dataTime);
            var n := r.tool.counter - t.counter;
            n >= 0
            && (r.result.Ok? && tracking ==> r.tool.progress == None)
            && (r.result.Err? && r.tool.progress != t.progress ==>
                  tracking && r.tool.progress.Some? && r.tool.progress.value.time == dataTime
                  && previous <= r.tool.progress.value.count <= previous + n
                  && previous + n <= r.tool.progress.value.count + 3)
  {
    ResumeUploadRecords(t, offset, data, tracking, dataTime, polls, sha, lzma);
  }

  // ---- The tool ----

  /** `get_context`. */
  method GetContext(backend: H.Backend, polls: nat) returns (r: Result<nat>)
    modifies backend
    ensures P.Run(r, backend.Link()) == GetContextOf(old(backend.Link()), polls, 0)
  {
    var left: nat := polls;
    var ctx: nat := 0;
    while true
      invariant left <= polls && ctx < CONTEXTS
      invariant GetContextOf(backend.Link(), left, ctx) == GetContextOf(old(backend.Link()), polls, 0)
      decreases left
    {
      var ready := backend.ReadUint32(SlotAddress(ctx, Ready));
      if ready.Err? {
        return Err(ready.error);
      }
      if ready.value == 0 {
        return Ok(ctx);
      }
      if left == 0 {
        return Err(TimeoutError);
      }
      left := left - 1;
      ctx := if ctx + 1 == CONTEXTS then 0 else ctx + 1;
    }
  }

  /** `wait_for(status)`. */
  method WaitFor(backend: H.Backend, status: string, polls: nat) returns (r: Result<()>)
    modifies backend
    ensures P.Run(r, backend.Link()) == WaitForOf(old(backend.Link()), status, polls)
  {
    var left: nat := polls;
    while true
      invariant left <= polls
      invariant WaitForOf(backend.Link(), status, left) == WaitForOf(old(backend.Link()), status, polls)
      decreases left
    {
      var word := backend.ReadUint32(CommAddress(ProgramStatus));
      if word.Err? {
        return Err(word.error);
      }
      var name := P.StatusName(word.value);
      if name == status {
        return Ok(());
      }
      if P.IsErrorStatus(word.value) {
        return Err(DataError(name));
      }
      if left == 0 {
        return Err(TimeoutError);
      }
      left := left - 1;
    }
  }

  /** `wait_for_all_contexts_complete`. */
  method WaitForAllContextsComplete(backend: H.Backend, polls: nat) returns (r: Result<()>)
    modifies backend
    ensures P.Run(r, backend.Link()) == WaitForAllContextsCompleteOf(old(backend.Link()), polls)
  {
    var a := H.WaitCleared(backend, SlotAddress(0, Ready), polls);
    if a.Err? {
      return Err(a.error);
    }
    var b := H.WaitCleared(backend, SlotAddress(1, Ready), a.value);
    if b.Err? {
      return Err(b.error);
    }
    r := WaitFor(backend, "IDLE", b.value);
  }

  /** The module-level state of gnwmanager.py: the debug link, the global counter, and
      the progress file on disk. */
  class LegacyTool {
    const backend: H.Backend
    var counter: int
    var progress: Option<ProgressRecord>

    /** The counter starts at 1. */
    constructor(backend: H.Backend, progress: Option<ProgressRecord>)
      ensures this.backend == backend && counter == 1 && this.progress == progress
    {
      this.backend := backend;
      this.counter := 1;
      this.progress := progress;
    }

    function State(): Tool
      reads this, backend
    {
      Tool(backend.Link(), counter, progress)
    }

    method ExtflashWrite(offset: int, data: Bytes, erase: bool, blocking: bool, decompressedSize: int,
                         decompressedHash: Option<Bytes>, polls: nat, sha: Bytes -> Bytes) returns (r: Result<()>)
      modifies this, backend
      ensures Step(r, State()) == ExtflashWriteOf(old(State()), offset, data, erase, blocking, decompressedSize,
                                                  decompressedHash, polls, sha)
    {
      if ValidateExtflashOffset(offset).Fail? {
        return Err(ValueError);
      }
      if data == [] {
        return Ok(());
      }
      if |data| > CHUNK_SIZE {
        return Err(ValueError);
      }
      if blocking {
        r := BlockingWrite(offset, data, erase, decompressedSize, decompressedHash, polls, sha);
      } else {
        r := SubmitWrite(offset, data, erase, decompressedSize, decompressedHash, polls, sha);
      }
    }

    method SubmitWrite(offset: int, data: Bytes, erase: bool, decompressedSize: int,
                       decompressedHash: Option<Bytes>, polls: nat, sha: Bytes -> Bytes) returns (r: Result<()>)
      modifies this, backend
      ensures Step(r, State()) == SubmitWriteOf(old(State()), offset, data, erase, decompressedSize,
                                                decompressedHash, polls, sha)
    {
      var got := GetContext(backend, polls);
      if got.Err? {
        return Err(got.error);
      }
      H.Submit(backend, WriteRequest(got.value, offset, data, erase, decompressedSize, decompressedHash, sha(data), counter));
      counter := counter + 1;
      r := Ok(());
    }

    method BlockingWrite(offset: int, data: Bytes, erase: bool, decompressedSize: int,
                         decompressedHash: Option<Bytes>, polls: nat, sha: Bytes -> Bytes) returns (r: Result<()>)
      modifies this, backend
      ensures Step(r, State()) == BlockingWriteOf(old(State()), offset, data, erase, decompressedSize,
                                                  decompressedHash, polls, sha)
    {
      var got := GetContext(backend, polls);
      if got.Err? {
        return Err(got.error);
      }
      var idle := WaitFor(backend, "IDLE", polls);
      if idle.Err? {
        return Err(idle.error);
      }
      H.Submit(backend, WriteRequest(got.value, offset, data, erase, decompressedSize, decompressedHash, sha(data), counter));
      counter := counter + 1;
      r := WaitForAllContextsComplete(backend, polls);
    }

    method ExtflashErase(offset: int, size: int, wholeChip: bool, polls: nat, sha: Bytes -> Bytes)
      returns (r: Result<()>)
      modifies this, backend
      ensures Step(r, State()) == ExtflashEraseOf(old(State()), offset, size, wholeChip, polls, sha)
    {
      if ValidateExtflashOffset(offset).Fail? || (size <= 0 && !wholeChip) {
        return Err(ValueError);
      }
      var got := GetContext(backend, polls);
      if got.Err? {
        return Err(got.error);
      }
      H.Submit(backend, EraseRequest(got.value, offset, size, wholeChip, sha([]), counter));
      counter := counter + 1;
      r := WaitForAllContextsComplete(backend, polls);
    }

    method FlashExt(offset: int, data: Bytes, tracking: bool, dataTime: string, polls: nat,
                    sha: Bytes -> Bytes, lzma: Bytes -> Bytes) returns (r: Result<()>)
      modifies this, backend
      ensures Step(r, State()) == FlashExtOf(old(State()), offset, data, tracking, dataTime, polls, sha, lzma)
    {
      if ValidateExtflashOffset(offset).Fail? {
        return Err(ValueError);
      }
      r := ResumeUpload(offset, data, tracking, dataTime, polls, sha, lzma);
      if r.Err? {
        return;
      }
      r := Finish(tracking, polls);
    }

    method ResumeUpload(offset: int, data: Bytes, tracking: bool, dataTime: string, polls: nat,
                        sha: Bytes -> Bytes, lzma: Bytes -> Bytes) returns (r: Result<()>)
      modifies this, backend
      ensures Step(r, State()) == ResumeUploadOf(old(State()), offset, data, tracking, dataTime, polls, sha, lzma)
    {
      var previous := ResumePoint(progress, tracking, dataTime);
      var todo := ResumeChunks(data, previous);
      backend.WriteUint32(CommAddress(ProgramChunkCount), |Chunks(data, CHUNK_SIZE)|);
      assert State() == old(State()).(link := P.WriteWord(old(State()).link, CommAddress(ProgramChunkCount), |Chunks(data, CHUNK_SIZE)|));
      r := UploadLoop(todo, previous, offset + previous * CHUNK_SIZE, tracking, dataTime, polls, sha, lzma);
    }

    /** The loop of `_flash_ext`: one `UploadOne` per chunk still to send, stopping at
        the first failure. */
    method UploadLoop(todo: seq<Bytes>, previous: nat, base: int, tracking: bool, dataTime: string, polls: nat,
                      sha: Bytes -> Bytes, lzma: Bytes -> Bytes) returns (r: Result<()>)
      modifies this, backend
      ensures Step(r, State()) == UploadChunks(old(State()), |todo|, 0,
                                               UploadStep(todo, previous, base, tracking, dataTime, polls, sha, lzma))
    {
      ghost var step := UploadStep(todo, previous, base, tracking, dataTime, polls, sha, lzma);
      var i := 0;
      while i < |todo|
        invariant i <= |todo|
        invariant UploadChunks(State(), |todo|, i, step) == UploadChunks(old(State()), |todo|, 0, step)
      {
        var w := UploadOne(todo, i, previous, base, tracking, dataTime, polls, sha, lzma);
        if w.Err? {
          return w;
        }
        i := i + 1;
      }
      r := Ok(());
    }

    /** Step `k` of the upload loop, as `UploadStep` describes it. */
    method UploadOne(todo: seq<Bytes>, k: nat, previous: nat, base: int, tracking: bool, dataTime: string,
                     polls: nat, sha: Bytes -> Bytes, lzma: Bytes -> Bytes) returns (r: Result<()>)
      requires k < |todo|
      modifies this, backend
      ensures Step(r, State()) == UploadStep(todo, previous, base, tracking, dataTime, polls, sha, lzma)(old(State()), k)
    {
      var chunk, idx := todo[k], previous + k + 1;
      var u := ChooseUpload(chunk, lzma(chunk), sha);
      backend.WriteUint32(CommAddress(ProgramChunkIdx), idx);
      r := ExtflashWrite(base + k * CHUNK_SIZE, u.data, true, false, u.decompressedSize, u.decompressedHash, polls, sha);
      if r.Ok? && tracking {
        progress := Some(ProgressRecord(dataTime, SafeCount(previous, idx)));
      }
    }

    method Finish(tracking: bool, polls: nat) returns (r: Result<()>)
      modifies this, backend
      ensures Step(r, State()) == FinishOf(old(State()), tracking, polls)
    {
      r := WaitForAllContextsComplete(backend, polls);
      if r.Err? {
        return;
      }
      r := WaitFor(backend, "IDLE", polls);
      if r.Ok? && tracking {
        progress := None;
      }
    }
  }
}
