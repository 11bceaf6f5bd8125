/** The host side of the flashing protocol (gnwmanager/gnw.py), as functions of the state
    of the debug link. The link is a log of every transport call together with the
    target's replies still to come: a read takes the next reply, and a read with no reply
    left is a transport failure. A polling loop's deadline is the number of further polls
    that fit before it passes. SHA-256 and LZMA compression are parameters. */
module HostProtocol {
  import opened Common
  import opened MemoryMap
  import opened Validation
  import opened CliFlash

  /** The status word of an idle device, and the actions a context can carry. */
  const IDLE: u32 := 0xCAFE_0000
  const ACTION_ERASE_AND_FLASH: int := 0
  const ACTION_HASH: int := 1
  const DIGEST_SIZE: nat := 32
  /** The progress bar runs from 0 to 26. */
  const PROGRESS_MAX: nat := 26

  /** `flashapp_status_enum_to_str.get(status, "UNKNOWN")`. */
  function StatusName(status: u32): string
  {
    if status == 0 then "BOOTING"
    else if status == 0xBAD0_0001 then "BAD_HASH_RAM"
    else if status == 0xBAD0_0002 then "BAD_HAS_FLASH"
    else if status == 0xBAD0_0003 then "NOT_ALIGNED"
    else if status == 0xCAFE_0000 then "IDLE"
    else if status == 0xCAFE_0001 then "DONE"
    else if status == 0xCAFE_0002 then "BUSY"
    else "UNKNOWN"
  }

  /** `(status & 0xFFFF_0000) == 0xBAD0_0000`: the upper half-word marks an error. */
  predicate IsErrorStatus(status: u32)
  {
    status / 0x1_0000 == 0xBAD0
  }

  function Comm(f: CommField): int { CommVar(f).address }

  function Field(ctx: nat, f: ContextField): int
    requires ctx < CONTEXT_COUNT
  {
    ContextVar(ctx, f).address
  }

  // ---- The debug link ----

  /** One transport call, with what a read returned. */
  datatype Op =
    | Read32(addr: int, word: u32)
    | Write32(addr: int, value: int)
    | ReadMem(addr: int, size: int, bytes: Bytes)
    | WriteMem(addr: int, data: Bytes)

  /** Calls made so far, and the word and block replies the target will give. */
  datatype Link = Link(log: seq<Op>, words: seq<u32>, blocks: seq<Bytes>)

  datatype Run<T> = Run(result: Result<T>, link: Link)

  function ReadWord(l: Link, addr: int): Run<u32>
  {
    if l.words == [] then Run(Err(TransportError), l)
    else Run(Ok(l.words[0]), l.(log := l.log + [Read32(addr, l.words[0])], words := l.words[1..]))
  }

  function WriteWord(l: Link, addr: int, v: int): Link
  {
    l.(log := l.log + [Write32(addr, v)])
  }

  /** A run of writes. */
  function Send(l: Link, ops: seq<Op>): Link
  {
    l.(log := l.log + ops)
  }

  function ReadBlock(l: Link, addr: int, size: int): Run<Bytes>
  {
    if l.blocks == [] then Run(Err(TransportError), l)
    else Run(Ok(l.blocks[0]), l.(log := l.log + [ReadMem(addr, size, l.blocks[0])], blocks := l.blocks[1..]))
  }

  /** `read_memory`: a block read bracketed by `download_in_progress` set and cleared. */
  function ReadMemory(l: Link, addr: int, size: int): Run<Bytes>
  {
    var b := ReadBlock(WriteWord(l, Comm(DownloadInProgress), 1), addr, size);
    if b.result.Err? then b else Run(b.result, WriteWord(b.link, Comm(DownloadInProgress), 0))
  }

  /** The reads a poll of one address leaves in the log. */
  function ReadsOf(addr: int, replies: seq<u32>): (r: seq<Op>)
    ensures |r| == |replies| && forall k :: 0 <= k < |r| ==> r[k] == Read32(addr, replies[k])
  {
    seq(|replies|, k requires 0 <= k < |replies| => Read32(addr, replies[k]))
  }

  // ---- Polling ----

  /** `wait_for_idle`: read the status until it is IDLE, raising `DataError` on an error
      status and `TimeoutError` once the deadline has passed. */
  function WaitForIdle(l: Link, polls: nat): Run<()>
    decreases polls
  {
    var r := ReadWord(l, Comm(Status));
    if r.result.Err? then Run(Err(r.result.error), r.link)
    else
      var status := r.result.value;
      if status == IDLE then Run(Ok(()), r.link)
      else if IsErrorStatus(status) then Run(Err(DataError(StatusName(status))), r.link)
      else if polls == 0 then Run(Err(TimeoutError), r.link)
      else WaitForIdle(r.link, polls - 1)
  }

  /** Polling consumes one status reply per read and logs exactly those reads. */
  lemma {:induction false} WaitForIdleReads(l: Link, polls: nat)
    ensures var r := WaitForIdle(l, polls);
            var n := |l.words| - |r.link.words|;
            0 <= n <= |l.words| && r.link.words == l.words[n..] && r.link.blocks == l.blocks
            && r.link.log == l.log + ReadsOf(Comm(Status), l.words[..n])
            && (r.result != Err(TransportError) ==> n > 0)
    decreases polls
  {
    var r := ReadWord(l, Comm(Status));
    if r.result.Ok? {
      var status := r.result.value;
      if status != IDLE && !IsErrorStatus(status) && polls > 0 {
        WaitForIdleReads(r.link, polls - 1);
        var m := |r.link.words| - |WaitForIdle(r.link, polls - 1).link.words|;
        assert l.words[..m + 1] == [status] + l.words[1..][..m];
        assert ReadsOf(Comm(Status), l.words[..m + 1])
            == [Read32(Comm(Status), status)] + ReadsOf(Comm(Status), l.words[1..][..m]);
        assert l.words[1..][m..] == l.words[m + 1..];
      } else {
        assert l.words[..1] == [status];
      }
    } else {
      assert l.words[..0] == [];
    }
  }

  /** The status is polled until the first IDLE or error word: the call returns exactly
      when the last word read is IDLE, raises `DataError` with that word's name exactly when
      it is an error word, and times out only after `polls + 1` reads of neither kind. */
  lemma {:induction false} WaitForIdleOutcome(l: Link, polls: nat)
    ensures var r := WaitForIdle(l, polls);
            var n := |l.words| - |r.link.words|;
            0 <= n <= |l.words|
            && (forall k :: 0 <= k < n - 1 ==> l.words[k] != IDLE && !IsErrorStatus(l.words[k]))
            && (r.result.Ok? <==> n > 0 && l.words[n - 1] == IDLE)
            && (r.result.Err? && r.result.error.DataError? <==> n > 0 && IsErrorStatus(l.words[n - 1]))
            && (r.result.Err? && r.result.error.DataError? ==> r.result.error == DataError(StatusName(l.words[n - 1])))
            && (r.result == Err(TimeoutError) ==> n == polls + 1)
    decreases polls
  {
    WaitForIdleReads(l, polls);
    var r := ReadWord(l, Comm(Status));
    if r.result.Ok? {
      var status := r.result.value;
      if status != IDLE && !IsErrorStatus(status) && polls > 0 {
        WaitForIdleOutcome(r.link, polls - 1);
        assert r.link.words == l.words[1..];
      }
    }
  }

  /** `get_context`: poll the `ready` word of each context in turn and take the first one
      that reads 0. */
  function GetContext(l: Link, polls: nat, ctx: nat): (r: Run<nat>)
    requires ctx < CONTEXT_COUNT
    ensures r.result.Ok? ==> r.result.value < CONTEXT_COUNT
    decreases polls
  {
    var r := ReadWord(l, Field(ctx, Ready));
    if r.result.Err? then Run(Err(r.result.error), r.link)
    else if r.result.value == 0 then Run(Ok(ctx), r.link)
    else if polls == 0 then Run(Err(TimeoutError), r.link)
    else GetContext(r.link, polls - 1, (ctx + 1) % CONTEXT_COUNT)
  }

  /** A context is handed out only when its `ready` word was just read as 0, and every
      earlier poll found a busy context. */
  lemma {:induction false} GetContextFree(l: Link, polls: nat, ctx: nat)
    requires ctx < CONTEXT_COUNT
    ensures var r := GetContext(l, polls, ctx);
            |r.link.log| >= |l.log| && r.link.log[..|l.log|] == l.log
    ensures var r := GetContext(l, polls, ctx);
            r.result.Ok? ==> |r.link.log| > |l.log|
                             && r.link.log[|r.link.log| - 1] == Read32(Field(r.result.value, Ready), 0)
                             && forall k :: |l.log| <= k < |r.link.log| - 1 ==> r.link.log[k].Read32? && r.link.log[k].word != 0
    ensures var r := GetContext(l, polls, ctx);
            r.link.blocks == l.blocks && (r.result.Err? ==> r.result.error in {TimeoutError, TransportError})
    decreases polls
  {
    var r := ReadWord(l, Field(ctx, Ready));
    if r.result.Ok? && r.result.value != 0 && polls > 0 {
      GetContextFree(r.link, polls - 1, (ctx + 1) % CONTEXT_COUNT);
      var g := GetContext(r.link, polls - 1, (ctx + 1) % CONTEXT_COUNT);
      assert r.link.log[..|l.log|] == l.log;
      assert g.link.log[..|l.log|] == g.link.log[..|r.link.log|][..|l.log|];
    }
  }

  /** `while read(addr): ...`: poll until the word reads 0; the polls left are returned. */
  function WaitCleared(l: Link, addr: int, polls: nat): (r: Run<nat>)
    ensures r.result.Ok? ==> r.result.value <= polls
    decreases polls
  {
    var r := ReadWord(l, addr);
    if r.result.Err? then Run(Err(r.result.error), r.link)
    else if r.result.value == 0 then Run(Ok(polls), r.link)
    else if polls == 0 then Run(Err(TimeoutError), r.link)
    else WaitCleared(r.link, addr, polls - 1)
  }

  /** `wait_for_all_contexts_complete`: both contexts free, then idle, within one deadline. */
  function WaitForAllContextsComplete(l: Link, polls: nat): Run<()>
  {
    var a := WaitCleared(l, Field(0, Ready), polls);
    if a.result.Err? then Run(Err(a.result.error), a.link)
    else
      var b := WaitCleared(a.link, Field(1, Ready), a.result.value);
      if b.result.Err? then Run(Err(b.result.error), b.link)
      else WaitForIdle(b.link, b.result.value)
  }

  /** `wait_for_context_response`: poll `response_ready` until it is set. */
  function WaitForResponse(l: Link, ctx: nat, polls: nat): Run<()>
    requires ctx < CONTEXT_COUNT
    decreases polls
  {
    var r := ReadWord(l, Field(ctx, ResponseReady));
    if r.result.Err? then Run(Err(r.result.error), r.link)
    else if r.result.value != 0 then Run(Ok(()), r.link)
    else if polls == 0 then Run(Err(TimeoutError), r.link)
    else WaitForResponse(r.link, ctx, polls - 1)
  }

  // ---- What the device sees ----

  /** Context `i` and its transfer buffer as the device finds them. */
  datatype View = View(ctx: WorkContext, buffer: Bytes)

  /** One transport call as context `i` sees it: a word write sets the field at its
      address, a block write at the buffer overwrites the buffer's start, a block write at
      `expected_sha256` sets the digest. */
  function See(v: View, i: nat, op: Op): View
    requires i < CONTEXT_COUNT
  {
    match op
    case Write32(addr, x) => View(Poke(v.ctx, i, addr, x), v.buffer)
    case WriteMem(addr, data) =>
      if addr == Field(i, Buffer) then
        View(v.ctx, if |data| >= |v.buffer| then data else data + v.buffer[|data|..])
      else if addr == Field(i, ExpectedSha256) then View(v.ctx.(expectedSha256 := data), v.buffer)
      else v
    case _ => v
  }

  function SeeAll(v: View, i: nat, ops: seq<Op>): View
    requires i < CONTEXT_COUNT
    decreases |ops|
  {
    if ops == [] then v else SeeAll(See(v, i, ops[0]), i, ops[1..])
  }

  /** The call writes the `ready` word of context `i`. */
  predicate WritesReady(op: Op, i: nat)
    requires i < CONTEXT_COUNT
  {
    op.Write32? && op.addr == Field(i, Ready)
  }

  lemma {:induction false} SeeAllConcat(v: View, i: nat, a: seq<Op>, b: seq<Op>)
    requires i < CONTEXT_COUNT
    ensures SeeAll(v, i, a + b) == SeeAll(SeeAll(v, i, a), i, b)
    decreases |a|
  {
    if a != [] {
      assert (a + b)[1..] == a[1..] + b;
      SeeAllConcat(See(v, i, a[0]), i, a[1..], b);
    } else {
      assert a + b == b;
    }
  }

  lemma SeeAllStep(v: View, i: nat, ops: seq<Op>)
    requires i < CONTEXT_COUNT && ops != []
    ensures SeeAll(v, i, ops) == SeeAll(See(v, i, ops[0]), i, ops[1..])
  {
  }

  lemma SeeOne(v: View, i: nat, op: Op)
    requires i < CONTEXT_COUNT
    ensures SeeAll(v, i, [op]) == See(v, i, op)
  {
    assert [op][1..] == [];
  }

  /** A word write to one of the context's own fields sets that field. */
  lemma SeeWord(v: View, i: nat, f: ContextField, x: int)
    requires i < CONTEXT_COUNT && IsWord(f)
    ensures See(v, i, Write32(Field(i, f), x)) == View(SetField(v.ctx, f, x), v.buffer)
  {
    PokeField(v.ctx, i, f, x);
  }

  /** A write to a status word is no business of the contexts. */
  lemma SeeStatus(v: View, i: nat, s: CommField, x: int)
    requires i < CONTEXT_COUNT && s !in {Framebuffer, FlashappComm, ActiveContext}
    ensures See(v, i, Write32(Comm(s), x)) == v
  {
    PokeOutside(v.ctx, i, Comm(s), x);
  }

  /** Calls that write no `ready` word of context `i` leave its `ready` as it was: the
      device cannot pick the context up in the middle of them. */
  lemma {:induction false} SeeAllKeepsReady(v: View, i: nat, ops: seq<Op>)
    requires i < CONTEXT_COUNT
    requires forall k :: 0 <= k < |ops| ==> !WritesReady(ops[k], i)
    ensures SeeAll(v, i, ops).ctx.ready == v.ctx.ready
    decreases |ops|
  {
    if ops != [] {
      var op := ops[0];
      assert !WritesReady(op, i);
      SeeAllKeepsReady(See(v, i, op), i, ops[1..]);
    }
  }

  // ---- Requests ----

  /** The host's state: the link, the submission counter and the cached flash geometry. */
  datatype Host = Host(link: Link, counter: int, flashSize: int, blockSize: int)

  datatype Call<T> = Call(result: Result<T>, host: Host)

  /** The writes of `read_hashes` once it holds context `ctx`; `ready` goes last. */
  function HashRequest(ctx: nat, offset: int, size: int, counter: int): seq<Op>
    requires ctx < CONTEXT_COUNT
  {
    [Write32(Field(ctx, ResponseReady), 0), Write32(Field(ctx, Action), ACTION_HASH),
     Write32(Field(ctx, Offset), offset), Write32(Field(ctx, Size), size),
     Write32(Field(ctx, Ready), counter)]
  }

  /** Python's `int(ceil(a / n))`: rounds up for positive `a`, toward zero for negative. */
  function CeilDivInt(a: int, n: nat): (r: int)
    requires n > 0
    ensures a >= 0 ==> r >= 0 && (r - 1) * n < a <= r * n
  {
    if a >= 0 then
      DivUnique(a + n - 1, n, (a + n - 1) / n, (a + n - 1) % n);
      (a + n - 1) / n
    else -((-a) / n)
  }

  /** `read_hashes(offset, size)`: one 32-byte SHA-256 digest per 256 KiB chunk of external
      flash. The context is claimed, the request written with the counter in `ready`, the
      response awaited, the digests read back, and the context freed with `ready = 0`. */
  function ReadHashes(h: Host, offset: int, size: int, polls: nat): Call<seq<Bytes>>
  {
    if ValidateExtflashOffset(offset).Fail? then Call(Err(ValueError), h)
    else
      var n := CeilDivInt(size, BUFFER_SIZE);
      var g := GetContext(h.link, polls, 0);
      if g.result.Err? then Call(Err(g.result.error), h.(link := g.link))
      else
        var ctx := g.result.value;
        var sent := Send(g.link, HashRequest(ctx, offset, size, h.counter));
        var after := h.(counter := h.counter + 1);
        var w := WaitForResponse(sent, ctx, polls);
        if w.result.Err? then Call(Err(w.result.error), after.(link := w.link))
        else
          var m := ReadMemory(w.link, Field(ctx, Buffer), n * DIGEST_SIZE);
          if m.result.Err? then Call(Err(m.result.error), after.(link := m.link))
          else Call(Ok(Chunks(m.result.value, DIGEST_SIZE)),
                    after.(link := WriteWord(m.link, Field(ctx, Ready), 0)))
  }

  /** The device sees a hash request for `offset` and `size` whose `ready` holds the
      counter, and `ready` is written only after every other field of the request. */
  lemma HashRequestSeen(v: View, ctx: nat, offset: int, size: int, counter: int)
    requires ctx < CONTEXT_COUNT
    ensures var w := HashRequest(ctx, offset, size, counter);
            var fields := v.ctx.(responseReady := 0, action := ACTION_HASH, offset := offset, size := size);
            SeeAll(v, ctx, w[..4]) == View(fields, v.buffer)
            && SeeAll(v, ctx, w) == View(fields.(ready := counter), v.buffer)
  {
    var w := HashRequest(ctx, offset, size, counter);
    var v1 := View(v.ctx.(responseReady := 0), v.buffer);
    var v2 := View(v1.ctx.(action := ACTION_HASH), v.buffer);
    var v3 := View(v2.ctx.(offset := offset), v.buffer);
    var v4 := View(v3.ctx.(size := size), v.buffer);
    SeeWord(v, ctx, ResponseReady, 0);
    SeeWord(v1, ctx, Action, ACTION_HASH);
    SeeWord(v2, ctx, Offset, offset);
    SeeWord(v3, ctx, Size, size);
    SeeWord(v4, ctx, Ready, counter);
    SeeAllStep(v, ctx, w[..4]);
    SeeAllStep(v1, ctx, w[1..4]);
    SeeAllStep(v2, ctx, w[2..4]);
    SeeAllStep(v3, ctx, w[3..4]);
    assert w[..4][1..] == w[1..4] && w[1..4][1..] == w[2..4] && w[2..4][1..] == w[3..4] && w[3..4][1..] == [];
    assert w == w[..4] + [w[4]];
    SeeAllConcat(v, ctx, w[..4], [w[4]]);
    SeeOne(v4, ctx, w[4]);
  }

  /** A successful `read_hashes` took a free context, wrote the hash request with the
      counter in `ready`, read back `ceil(size / 256 KiB)` digests' worth of the buffer,
      returned them cut into 32-byte digests, freed the context last, and advanced the
      counter by one. */
  lemma ReadHashesFrees(h: Host, offset: int, size: int, polls: nat)
    requires ReadHashes(h, offset, size, polls).result.Ok?
    ensures var r := ReadHashes(h, offset, size, polls);
            var g := GetContext(h.link, polls, 0);
            var log := r.host.link.log;
            var n := CeilDivInt(size, BUFFER_SIZE);
            g.result.Ok? && r.host.counter == h.counter + 1
            && ValidateExtflashOffset(offset).Pass?
            && |log| >= |g.link.log| + 5 + 4
            && log[..|g.link.log| + 5] == g.link.log + HashRequest(g.result.value, offset, size, h.counter)
            && log[|log| - 1] == Write32(Field(g.result.value, Ready), 0)
            && log[|log| - 3].ReadMem? && log[|log| - 3].size == n * DIGEST_SIZE
            && r.result.value == Chunks(log[|log| - 3].bytes, DIGEST_SIZE)
            && (|log[|log| - 3].bytes| == n * DIGEST_SIZE ==>
                  |r.result.value| == n && forall k :: 0 <= k < n ==> |r.result.value[k]| == DIGEST_SIZE)
  {
    var r := ReadHashes(h, offset, size, polls);
    var g := GetContext(h.link, polls, 0);
    var ctx := g.result.value;
    var sent := Send(g.link, HashRequest(ctx, offset, size, h.counter));
    var w := WaitForResponse(sent, ctx, polls);
    WaitForResponseExtends(sent, ctx, polls);
    var n := CeilDivInt(size, BUFFER_SIZE);
    var m := ReadMemory(w.link, Field(ctx, Buffer), n * DIGEST_SIZE);
    var log := r.host.link.log;
    assert log == w.link.log + [Write32(Comm(DownloadInProgress), 1),
                                ReadMem(Field(ctx, Buffer), n * DIGEST_SIZE, m.result.value),
                                Write32(Comm(DownloadInProgress), 0), Write32(Field(ctx, Ready), 0)];
    assert log[..|g.link.log| + 5] == w.link.log[..|g.link.log| + 5];
    var bytes := m.result.value;
    if |bytes| == n * DIGEST_SIZE {
      DigestsOf(bytes, n);
    }
  }

  /** `n` digests' worth of bytes cut into 32-byte pieces gives `n` digests. */
  lemma DigestsOf(bytes: Bytes, n: int)
    requires n >= 0 && |bytes| == n * DIGEST_SIZE
    ensures |Chunks(bytes, DIGEST_SIZE)| == n
    ensures forall k :: 0 <= k < n ==> |Chunks(bytes, DIGEST_SIZE)[k]| == DIGEST_SIZE
  {
    ChunksBounded(bytes, DIGEST_SIZE);
    DivUnique(|bytes| + DIGEST_SIZE - 1, DIGEST_SIZE, n, DIGEST_SIZE - 1);
    forall k | 0 <= k < n ensures |Chunks(bytes, DIGEST_SIZE)[k]| == DIGEST_SIZE {
      ChunkAt(bytes, DIGEST_SIZE, k);
      assert (k + 1) * DIGEST_SIZE <= n * DIGEST_SIZE;
    }
  }

  /** Polling only appends reads to the log. */
  lemma {:induction false} WaitForResponseExtends(l: Link, ctx: nat, polls: nat)
    requires ctx < CONTEXT_COUNT
    ensures var r := WaitForResponse(l, ctx, polls);
            |r.link.log| >= |l.log| && r.link.log[..|l.log|] == l.log && r.link.blocks == l.blocks
    decreases polls
  {
    var r := ReadWord(l, Field(ctx, ResponseReady));
    if r.result.Ok? && r.result.value == 0 && polls > 0 {
      WaitForResponseExtends(r.link, ctx, polls - 1);
    }
  }

  // ---- Program ----

  /** What goes into the buffer and `compressed_size`: the compressed data when asked for
      and it is at most 90% of the raw size, else the raw data with size 0. */
  function Payload(data: Bytes, compress: bool, lzma: Bytes -> Bytes): (Bytes, int)
  {
    var packed := if compress then lzma(data) else [];
    if compress && !(10 * |packed| > 9 * |data|) then (packed, |packed|) else (data, 0)
  }

  /** Compression is used exactly when requested and it saves at least a tenth; otherwise
      the raw data goes out with `compressed_size` 0. The buffer never gets more than the
      raw data's size. */
  lemma PayloadChoice(data: Bytes, compress: bool, lzma: Bytes -> Bytes)
    ensures var (payload, compressedSize) := Payload(data, compress, lzma);
            (compressedSize == |payload| || (compressedSize == 0 && payload == data))
            && (compress && 10 * |lzma(data)| <= 9 * |data| <==> payload == lzma(data) && compressedSize == |lzma(data)| && compress)
            && (!compress || 10 * |lzma(data)| > 9 * |data| ==> payload == data && compressedSize == 0)
            && |payload| <= |data|
  {
  }

  /** The writes of `program` once it holds context `ctx`, from raising
      `upload_in_progress` to lowering it; `ready` gets the counter after every other
      field. */
  function ProgramWrites(ctx: nat, bank: int, offset: int, size: int, erase: bool, digest: Bytes,
                         payload: Bytes, compressedSize: int, counter: int): seq<Op>
    requires ctx < CONTEXT_COUNT
  {
    [Write32(Comm(UploadInProgress), 1),
     Write32(Field(ctx, Action), ACTION_ERASE_AND_FLASH),
     Write32(Field(ctx, Offset), offset),
     Write32(Field(ctx, Size), size),
     Write32(Field(ctx, Bank), bank)]
    + (if erase then [Write32(Field(ctx, Erase), 1), Write32(Field(ctx, EraseBytes), size)]
       else [Write32(Field(ctx, Erase), 0)])
    + [WriteMem(Field(ctx, ExpectedSha256), digest),
       Write32(Field(ctx, CompressedSize), compressedSize),
       WriteMem(Field(ctx, Buffer), payload)]
    + [Write32(Field(ctx, Ready), counter),
       Write32(Comm(UploadInProgress), 0)]
  }

  /** `program(bank, offset, data, erase, blocking, compress)`. */
  function Program(h: Host, bank: int, offset: int, data: Bytes, erase: bool, blocking: bool,
                   compress: bool, polls: nat, sha: Bytes -> Bytes, lzma: Bytes -> Bytes): Call<()>
  {
    if bank !in {0, 1, 2} then Call(Err(ValueError), h)
    else if (if bank == 0 then ValidateExtflashOffset(offset) else ValidateIntflashOffset(offset)).Fail? then
      Call(Err(ValueError), h)
    else if data == [] then Call(Ok(()), h)
    else if |data| > BUFFER_SIZE then Call(Err(ValueError), h)
    else SubmitProgram(h, bank, offset, data, erase, blocking, Payload(data, compress, lzma), sha(data), polls)
  }

  /** The part of `program` after its checks: claim a context, write the request, and
      wait for the device when blocking. */
  function SubmitProgram(h: Host, bank: int, offset: int, data: Bytes, erase: bool, blocking: bool,
                         payload: (Bytes, int), digest: Bytes, polls: nat): Call<()>
  {
    var g := GetContext(h.link, polls, 0);
    if g.result.Err? then Call(Err(g.result.error), h.(link := g.link))
    else
      var sent := Send(g.link, ProgramWrites(g.result.value, bank, offset, |data|, erase, digest,
                                             payload.0, payload.1, h.counter));
      var after := h.(link := sent, counter := h.counter + 1);
      if blocking then
        var w := WaitForAllContextsComplete(sent, polls);
        Call(w.result, after.(link := w.link))
      else Call(Ok(()), after)
  }

  /** `program` refuses a bank other than 0, 1, 2, a bad offset and more than 256 KiB
      without touching the link, and submits nothing for empty data; a submitted request
      advances the counter by exactly one. */
  lemma ProgramChecks(h: Host, bank: int, offset: int, data: Bytes, erase: bool, blocking: bool,
                      compress: bool, polls: nat, sha: Bytes -> Bytes, lzma: Bytes -> Bytes)
    ensures var r := Program(h, bank, offset, data, erase, blocking, compress, polls, sha, lzma);
            var valid := bank in {0, 1, 2}
              && (if bank == 0 then ValidateExtflashOffset(offset) else ValidateIntflashOffset(offset)).Pass?;
            (!valid ==> r == Call(Err(ValueError), h))
            && (valid && data == [] ==> r == Call(Ok(()), h))
            && (valid && |data| > BUFFER_SIZE ==> r == Call(Err(ValueError), h))
            && (r.host.counter == h.counter || r.host.counter == h.counter + 1)
            && (r.result.Ok? && data != [] ==> r.host.counter == h.counter + 1)
            && (r.host.counter == h.counter + 1 ==> valid && 0 < |data| <= BUFFER_SIZE
                                                      && GetContext(h.link, polls, 0).result.Ok?)
  {
  }

  /** The device sees the whole program request: action 0, offset, size, bank, the erase
      flag (and the size as erase length when erasing), the digest of the raw data, the
      compressed size and the payload at the start of the buffer, with the counter in
      `ready`; until `ready` is written it keeps its old value. */
  lemma ProgramSeen(v: View, ctx: nat, bank: int, offset: int, size: int, erase: bool, digest: Bytes,
                    payload: Bytes, compressedSize: int, counter: int)
    requires ctx < CONTEXT_COUNT
    ensures var w := ProgramWrites(ctx, bank, offset, size, erase, digest, payload, compressedSize, counter);
            var r := SeeAll(v, ctx, w);
            r.ctx == v.ctx.(action := ACTION_ERASE_AND_FLASH, offset := offset, size := size, bank := bank,
                            erase := if erase then 1 else 0,
                            eraseBytes := if erase then size else v.ctx.eraseBytes,
                            expectedSha256 := digest, compressedSize := compressedSize, ready := counter)
            && |r.buffer| >= |payload| && r.buffer[..|payload|] == payload
  {
    var w := ProgramWrites(ctx, bank, offset, size, erase, digest, payload, compressedSize, counter);
    var head := [Write32(Comm(UploadInProgress), 1), Write32(Field(ctx, Action), ACTION_ERASE_AND_FLASH),
                 Write32(Field(ctx, Offset), offset), Write32(Field(ctx, Size), size), Write32(Field(ctx, Bank), bank)];
    var mid := if erase then [Write32(Field(ctx, Erase), 1), Write32(Field(ctx, EraseBytes), size)]
               else [Write32(Field(ctx, Erase), 0)];
    var body := [WriteMem(Field(ctx, ExpectedSha256), digest), Write32(Field(ctx, CompressedSize), compressedSize),
                 WriteMem(Field(ctx, Buffer), payload)];
    var tail := [Write32(Field(ctx, Ready), counter), Write32(Comm(UploadInProgress), 0)];
    assert w == head + mid + body + tail;
    var v1 := SeeHead(v, ctx, bank, offset, size);
    var v2 := SeeErase(v1, ctx, erase, size);
    var v3 := SeeBody(v2, ctx, digest, compressedSize, payload);
    SeeTail(v3, ctx, counter);
    SeeAllConcat(v, ctx, head, mid);
    SeeAllConcat(v, ctx, head + mid, body);
    SeeAllConcat(v, ctx, head + mid + body, tail);
  }

  /** Until the second-to-last write of a program request, the device finds `ready` as it
      was: it cannot start on a half-written request. */
  lemma ProgramReadyLast(v: View, ctx: nat, bank: int, offset: int, size: int, erase: bool, digest: Bytes,
                         payload: Bytes, compressedSize: int, counter: int)
    requires ctx < CONTEXT_COUNT
    ensures var w := ProgramWrites(ctx, bank, offset, size, erase, digest, payload, compressedSize, counter);
            WritesReady(w[|w| - 2], ctx)
            && forall k :: 0 <= k < |w| - 1 ==> SeeAll(v, ctx, w[..k]).ctx.ready == v.ctx.ready
  {
    var w := ProgramWrites(ctx, bank, offset, size, erase, digest, payload, compressedSize, counter);
    assert forall j :: 0 <= j < |w| - 2 ==> !WritesReady(w[j], ctx);
    forall k | 0 <= k < |w| - 1 ensures SeeAll(v, ctx, w[..k]).ctx.ready == v.ctx.ready {
      NoReadyBefore(ctx, w, k, counter);
      SeeAllKeepsReady(v, ctx, w[..k]);
    }
  }

  /** In the program writes, only the second-to-last touches `ready`. */
  lemma NoReadyBefore(ctx: nat, w: seq<Op>, k: nat, counter: int)
    requires ctx < CONTEXT_COUNT && 2 <= |w| && k <= |w| - 2
    requires forall j :: 0 <= j < |w| - 2 ==> !WritesReady(w[j], ctx)
    ensures forall j :: 0 <= j < k ==> !WritesReady(w[..k][j], ctx)
  {
  }

  lemma SeeHead(v: View, ctx: nat, bank: int, offset: int, size: int) returns (r: View)
    requires ctx < CONTEXT_COUNT
    ensures r == SeeAll(v, ctx, [Write32(Comm(UploadInProgress), 1), Write32(Field(ctx, Action), ACTION_ERASE_AND_FLASH),
                                 Write32(Field(ctx, Offset), offset), Write32(Field(ctx, Size), size),
                                 Write32(Field(ctx, Bank), bank)])
    ensures r == View(v.ctx.(action := ACTION_ERASE_AND_FLASH, offset := offset, size := size, bank := bank), v.buffer)
  {
    var ops := [Write32(Comm(UploadInProgress), 1), Write32(Field(ctx, Action), ACTION_ERASE_AND_FLASH),
                Write32(Field(ctx, Offset), offset), Write32(Field(ctx, Size), size), Write32(Field(ctx, Bank), bank)];
    var v2 := View(v.ctx.(action := ACTION_ERASE_AND_FLASH), v.buffer);
    var v3 := View(v2.ctx.(offset := offset), v.buffer);
    var v4 := View(v3.ctx.(size := size), v.buffer);
    r := View(v4.ctx.(bank := bank), v.buffer);
    SeeStatus(v, ctx, UploadInProgress, 1);
    SeeWord(v, ctx, Action, ACTION_ERASE_AND_FLASH);
    SeeWord(v2, ctx, Offset, offset);
    SeeWord(v3, ctx, Size, size);
    SeeWord(v4, ctx, Bank, bank);
    SeeAllStep(v, ctx, ops);
    SeeAllStep(v, ctx, ops[1..]);
    SeeAllStep(v2, ctx, ops[2..]);
    SeeAllStep(v3, ctx, ops[3..]);
    SeeAllStep(v4, ctx, ops[4..]);
    assert ops[1..][1..] == ops[2..] && ops[2..][1..] == ops[3..] && ops[3..][1..] == ops[4..] && ops[4..][1..] == [];
  }

  lemma SeeErase(v: View, ctx: nat, erase: bool, size: int) returns (r: View)
    requires ctx < CONTEXT_COUNT
    ensures r == SeeAll(v, ctx, if erase then [Write32(Field(ctx, Erase), 1), Write32(Field(ctx, EraseBytes), size)]
                                else [Write32(Field(ctx, Erase), 0)])
    ensures r == View(v.ctx.(erase := if erase then 1 else 0, eraseBytes := if erase then size else v.ctx.eraseBytes), v.buffer)
  {
    r := View(v.ctx.(erase := if erase then 1 else 0, eraseBytes := if erase then size else v.ctx.eraseBytes), v.buffer);
    if erase {
      var ops := [Write32(Field(ctx, Erase), 1), Write32(Field(ctx, EraseBytes), size)];
      var v1 := View(v.ctx.(erase := 1), v.buffer);
      SeeWord(v, ctx, Erase, 1);
      SeeWord(v1, ctx, EraseBytes, size);
      SeeAllStep(v, ctx, ops);
      SeeOne(v1, ctx, ops[1]);
      assert ops[1..] == [ops[1]];
    } else {
      SeeWord(v, ctx, Erase, 0);
      SeeOne(v, ctx, Write32(Field(ctx, Erase), 0));
    }
  }

  lemma SeeBody(v: View, ctx: nat, digest: Bytes, compressedSize: int, payload: Bytes) returns (r: View)
    requires ctx < CONTEXT_COUNT
    ensures r == SeeAll(v, ctx, [WriteMem(Field(ctx, ExpectedSha256), digest),
                                 Write32(Field(ctx, CompressedSize), compressedSize),
                                 WriteMem(Field(ctx, Buffer), payload)])
    ensures r.ctx == v.ctx.(expectedSha256 := digest, compressedSize := compressedSize)
    ensures |r.buffer| >= |payload| && r.buffer[..|payload|] == payload
  {
    var ops := [WriteMem(Field(ctx, ExpectedSha256), digest), Write32(Field(ctx, CompressedSize), compressedSize),
                WriteMem(Field(ctx, Buffer), payload)];
    var v1 := View(v.ctx.(expectedSha256 := digest), v.buffer);
    var v2 := View(v1.ctx.(compressedSize := compressedSize), v.buffer);
    assert Field(ctx, Buffer) != Field(ctx, ExpectedSha256);
    SeeWord(v1, ctx, CompressedSize, compressedSize);
    r := See(v2, ctx, ops[2]);
    SeeAllStep(v, ctx, ops);
    SeeAllStep(v1, ctx, ops[1..]);
    SeeOne(v2, ctx, ops[2]);
    assert ops[1..][1..] == [ops[2]];
  }

  lemma SeeTail(v: View, ctx: nat, counter: int)
    requires ctx < CONTEXT_COUNT
    ensures SeeAll(v, ctx, [Write32(Field(ctx, Ready), counter), Write32(Comm(UploadInProgress), 0)])
            == View(v.ctx.(ready := counter), v.buffer)
  {
    var ops := [Write32(Field(ctx, Ready), counter), Write32(Comm(UploadInProgress), 0)];
    var v1 := View(v.ctx.(ready := counter), v.buffer);
    SeeWord(v, ctx, Ready, counter);
    SeeStatus(v1, ctx, UploadInProgress, 0);
    SeeAllStep(v, ctx, ops);
    SeeOne(v1, ctx, ops[1]);
    assert ops[1..] == [ops[1]];
  }

  // ---- Erase ----

  /** The writes of `erase` once it holds context `ctx`: no bytes to program, erase set,
      the erase length (0 for the whole chip), the empty-data digest, and `ready` last. */
  function EraseWrites(ctx: nat, bank: int, offset: int, size: int, emptyDigest: Bytes, counter: int): seq<Op>
    requires ctx < CONTEXT_COUNT
  {
    [Write32(Field(ctx, Action), ACTION_ERASE_AND_FLASH), Write32(Field(ctx, Offset), offset),
     Write32(Field(ctx, Size), 0), Write32(Field(ctx, Erase), 1), Write32(Field(ctx, EraseBytes), size),
     Write32(Field(ctx, Bank), bank), WriteMem(Field(ctx, ExpectedSha256), emptyDigest),
     Write32(Field(ctx, Ready), counter)]
  }

  /** `erase(bank, offset, size, blocking, whole_chip)`. */
  function EraseFlash(h: Host, bank: int, offset: int, size: int, blocking: bool, wholeChip: bool,
                 polls: nat, sha: Bytes -> Bytes): Call<()>
  {
    if size < 0 then Call(Err(ValueError), h)
    else if wholeChip && (offset != 0 || size != 0) then Call(Err(ValueError), h)
    else if !wholeChip && size == 0 then Call(Err(ValueError), h)
    else if bank !in {0, 1, 2} then Call(Err(ValueError), h)
    else if (if bank == 0 then ValidateExtflashOffset(offset) else ValidateIntflashOffset(offset)).Fail? then
      Call(Err(ValueError), h)
    else
      var g := GetContext(h.link, polls, 0);
      if g.result.Err? then Call(Err(g.result.error), h.(link := g.link))
      else
        var sent := Send(g.link, EraseWrites(g.result.value, bank, offset, size, sha([]), h.counter));
        var after := h.(link := sent, counter := h.counter + 1);
        if blocking then
          var w := WaitForAllContextsComplete(sent, polls);
          Call(w.result, after.(link := w.link))
        else Call(Ok(()), after)
  }

  /** `erase` accepts exactly a whole-chip erase at offset 0 with size 0, or a positive
      size, on a valid bank and offset; anything else is a `ValueError` with nothing sent. */
  lemma EraseChecks(h: Host, bank: int, offset: int, size: int, blocking: bool, wholeChip: bool,
                    polls: nat, sha: Bytes -> Bytes)
    ensures var r := EraseFlash(h, bank, offset, size, blocking, wholeChip, polls, sha);
            var accepted := (if wholeChip then offset == 0 && size == 0 else size > 0)
              && bank in {0, 1, 2}
              && (if bank == 0 then ValidateExtflashOffset(offset) else ValidateIntflashOffset(offset)).Pass?;
            (!accepted ==> r == Call(Err(ValueError), h))
            && (r.host.counter != h.counter ==> accepted && r.host.counter == h.counter + 1)
  {
  }

  /** An accepted erase tells the device: program nothing, erase `size` bytes at `offset`
      (0 meaning the whole chip), expect the digest of no data; `ready` is written last. */
  lemma EraseSeen(v: View, ctx: nat, bank: int, offset: int, size: int, digest: Bytes, counter: int)
    requires ctx < CONTEXT_COUNT
    ensures var w := EraseWrites(ctx, bank, offset, size, digest, counter);
            var fields := v.ctx.(action := ACTION_ERASE_AND_FLASH, offset := offset, size := 0, erase := 1,
                                 eraseBytes := size, bank := bank, expectedSha256 := digest);
            SeeAll(v, ctx, w[..7]) == View(fields, v.buffer)
            && SeeAll(v, ctx, w) == View(fields.(ready := counter), v.buffer)
  {
    var w := EraseWrites(ctx, bank, offset, size, digest, counter);
    var front := w[..4];
    var back := w[4..7];
    assert w[..7] == front + back && w == w[..7] + [w[7]];
    var v4 := SeeEraseFront(v, ctx, offset);
    assert front == [Write32(Field(ctx, Action), ACTION_ERASE_AND_FLASH), Write32(Field(ctx, Offset), offset),
                     Write32(Field(ctx, Size), 0), Write32(Field(ctx, Erase), 1)];
    var v7 := SeeEraseBack(v4, ctx, bank, size, digest);
    assert back == [Write32(Field(ctx, EraseBytes), size), Write32(Field(ctx, Bank), bank),
                    WriteMem(Field(ctx, ExpectedSha256), digest)];
    SeeAllConcat(v, ctx, front, back);
    SeeAllConcat(v, ctx, w[..7], [w[7]]);
    SeeWord(v7, ctx, Ready, counter);
    SeeOne(v7, ctx, w[7]);
  }

  lemma SeeEraseFront(v: View, ctx: nat, offset: int) returns (r: View)
    requires ctx < CONTEXT_COUNT
    ensures r == SeeAll(v, ctx, [Write32(Field(ctx, Action), ACTION_ERASE_AND_FLASH), Write32(Field(ctx, Offset), offset),
                                 Write32(Field(ctx, Size), 0), Write32(Field(ctx, Erase), 1)])
    ensures r == View(v.ctx.(action := ACTION_ERASE_AND_FLASH, offset := offset, size := 0, erase := 1), v.buffer)
  {
    var ops := [Write32(Field(ctx, Action), ACTION_ERASE_AND_FLASH), Write32(Field(ctx, Offset), offset),
                Write32(Field(ctx, Size), 0), Write32(Field(ctx, Erase), 1)];
    var v1 := View(v.ctx.(action := ACTION_ERASE_AND_FLASH), v.buffer);
    var v2 := View(v1.ctx.(offset := offset), v.buffer);
    var v3 := View(v2.ctx.(size := 0), v.buffer);
    r := View(v3.ctx.(erase := 1), v.buffer);
    SeeWord(v, ctx, Action, ACTION_ERASE_AND_FLASH);
    SeeWord(v1, ctx, Offset, offset);
    SeeWord(v2, ctx, Size, 0);
    SeeWord(v3, ctx, Erase, 1);
    SeeAllStep(v, ctx, ops);
    SeeAllStep(v1, ctx, ops[1..]);
    SeeAllStep(v2, ctx, ops[2..]);
    SeeOne(v3, ctx, ops[3]);
    assert ops[1..][1..] == ops[2..] && ops[2..][1..] == [ops[3]];
  }

  lemma SeeEraseBack(v: View, ctx: nat, bank: int, size: int, digest: Bytes) returns (r: View)
    requires ctx < CONTEXT_COUNT
    ensures r == SeeAll(v, ctx, [Write32(Field(ctx, EraseBytes), size), Write32(Field(ctx, Bank), bank),
                                 WriteMem(Field(ctx, ExpectedSha256), digest)])
    ensures r == View(v.ctx.(eraseBytes := size, bank := bank, expectedSha256 := digest), v.buffer)
  {
    var ops := [Write32(Field(ctx, EraseBytes), size), Write32(Field(ctx, Bank), bank),
                WriteMem(Field(ctx, ExpectedSha256), digest)];
    var v1 := View(v.ctx.(eraseBytes := size), v.buffer);
    var v2 := View(v1.ctx.(bank := bank), v.buffer);
    r := View(v2.ctx.(expectedSha256 := digest), v.buffer);
    SeeWord(v, ctx, EraseBytes, size);
    SeeWord(v1, ctx, Bank, bank);
    assert Field(ctx, ExpectedSha256) != Field(ctx, Buffer);
    SeeAllStep(v, ctx, ops);
    SeeAllStep(v1, ctx, ops[1..]);
    SeeOne(v2, ctx, ops[2]);
    assert ops[1..][1..] == [ops[2]];
  }

  // ---- Flash ----

  /** The cached `external_flash_block_size` property: read once from `min_erase_size`
      while the cache holds 0. */
  function ExternalFlashBlockSize(h: Host): Call<int>
  {
    if h.blockSize != 0 then Call(Ok(h.blockSize), h)
    else
      var r := ReadWord(h.link, Comm(MinEraseSize));
      if r.result.Err? then Call(Err(r.result.error), h.(link := r.link))
      else Call(Ok(r.result.value), h.(link := r.link, blockSize := r.result.value))
  }

  /** The cached `external_flash_size` property, read from `flash_size`. */
  function ExternalFlashSize(h: Host): Call<int>
  {
    if h.flashSize != 0 then Call(Ok(h.flashSize), h)
    else
      var r := ReadWord(h.link, Comm(FlashSize));
      if r.result.Err? then Call(Err(r.result.error), h.(link := r.link))
      else Call(Ok(r.result.value), h.(link := r.link, flashSize := r.result.value))
  }

  /** `int(26 * (i + 1) / n)`. */
  function ProgressAt(i: nat, n: nat): (r: nat)
    requires i < n
  {
    (PROGRESS_MAX * (i + 1)) / n
  }

  /** The progress bar never goes backwards, stays within 0..26, and reaches 26 with the
      last packet. */
  lemma ProgressBounded(i: nat, j: nat, n: nat)
    requires i <= j < n
    ensures ProgressAt(i, n) <= ProgressAt(j, n) <= PROGRESS_MAX
    ensures ProgressAt(n - 1, n) == PROGRESS_MAX
  {
    DivUnique(PROGRESS_MAX * n, n, PROGRESS_MAX, 0);
    DivMonotone(PROGRESS_MAX * (i + 1), PROGRESS_MAX * (j + 1), n);
    DivMonotone(PROGRESS_MAX * (j + 1), PROGRESS_MAX * n, n);
  }

  lemma DivMonotone(a: nat, b: nat, n: nat)
    requires a <= b && n > 0
    ensures a / n <= b / n
  {
    DivUnique(a, n, a / n, a % n);
    DivUnique(b, n, b / n, b % n);
    assert (a / n) * n <= a <= b < (b / n + 1) * n;
  }

  /** The loop of `_flash_ext`: program each packet without blocking and report progress
      after it. */
  function ProgramPackets(h: Host, todo: seq<Packet>, i: nat, polls: nat, sha: Bytes -> Bytes,
                          lzma: Bytes -> Bytes): (c: Call<()>)
    requires i <= |todo|
    ensures c.result.Ok? && (forall k :: i <= k < |todo| ==> todo[k].data != []) ==>
              c.host.counter == h.counter + (|todo| - i)
    decreases |todo| - i
  {
    if i == |todo| then Call(Ok(()), h)
    else
      var r := Program(h, 0, todo[i].addr, todo[i].data, true, false, true, polls, sha, lzma);
      ProgramChecks(h, 0, todo[i].addr, todo[i].data, true, false, true, polls, sha, lzma);
      if r.result.Err? then r
      else ProgramPackets(r.host.(link := WriteWord(r.host.link, Comm(Progress), ProgressAt(i, |todo|))),
                          todo, i + 1, polls, sha, lzma)
  }

  /** `_flash_ext(offset, data)`: read the device's digests of the region, then program
      the 256 KiB chunks whose SHA-256 differs, each at `offset + i * 256 KiB`. */
  function FlashExt(h: Host, offset: int, data: Bytes, polls: nat, sha: Bytes -> Bytes,
                    lzma: Bytes -> Bytes): Call<()>
  {
    if ValidateExtflashOffset(offset).Fail? then Call(Err(ValueError), h)
    else
      var rh := ReadHashes(h, offset, |data|, polls);
      if rh.result.Err? then Call(Err(rh.result.error), rh.host)
      else
        var todo := ChangedPackets(offset, data, rh.result.value, sha);
        var p := ProgramPackets(rh.host, todo, 0, polls, sha, lzma);
        if p.result.Err? then p
        else
          var w := WaitForAllContextsComplete(p.host.link, polls);
          Call(w.result, p.host.(link := w.link))
  }

  /** The packets `_flash_ext` programs: the chunks paired with differing device digests. */
  function ChangedPackets(offset: int, data: Bytes, deviceHashes: seq<Bytes>, sha: Bytes -> Bytes): seq<Packet>
  {
    FilterChanged(MakePackets(offset, Chunks(data, BUFFER_SIZE), BUFFER_SIZE), deviceHashes, sha)
  }

  /** Every programmed packet is a non-empty chunk `i` of the data, at `offset + i * 256
      KiB`, whose digest differs from the device's digest `i`. */
  lemma ChangedPacketsAre(offset: int, data: Bytes, deviceHashes: seq<Bytes>, sha: Bytes -> Bytes, p: Packet)
    requires p in ChangedPackets(offset, data, deviceHashes, sha)
    ensures exists i :: 0 <= i < |Chunks(data, BUFFER_SIZE)| && i < |deviceHashes|
                        && p == Packet(offset + i * BUFFER_SIZE, Chunks(data, BUFFER_SIZE)[i])
                        && sha(p.data) != deviceHashes[i] && p.data != []
  {
    var packets := MakePackets(offset, Chunks(data, BUFFER_SIZE), BUFFER_SIZE);
    FilterChangedMember(packets, deviceHashes, sha, p);
    ChunksBounded(data, BUFFER_SIZE);
  }

  /** A successful `_flash_ext` submitted the hash request and one program request per
      changed chunk, and nothing else. */
  lemma FlashExtCount(h: Host, offset: int, data: Bytes, polls: nat, sha: Bytes -> Bytes, lzma: Bytes -> Bytes)
    requires FlashExt(h, offset, data, polls, sha, lzma).result.Ok?
    ensures var rh := ReadHashes(h, offset, |data|, polls);
            rh.result.Ok?
            && FlashExt(h, offset, data, polls, sha, lzma).host.counter
               == h.counter + 1 + |ChangedPackets(offset, data, rh.result.value, sha)|
  {
    var rh := ReadHashes(h, offset, |data|, polls);
    ReadHashesFrees(h, offset, |data|, polls);
    var todo := ChangedPackets(offset, data, rh.result.value, sha);
    forall k | 0 <= k < |todo| ensures todo[k].data != [] {
      ChangedPacketsAre(offset, data, rh.result.value, sha, todo[k]);
    }
  }

  /** `flash(bank, offset, data)`: external data is padded to the erase size and must fit
      the chip; internal data is padded to 8 KiB and must fit 256 KiB; any other bank is a
      `ValueError`. A zero erase size from the device is refused. */
  function Flash(h: Host, bank: int, offset: int, data: Bytes, polls: nat, sha: Bytes -> Bytes,
                 lzma: Bytes -> Bytes): Call<()>
  {
    if bank == 0 then
      var b := ExternalFlashBlockSize(h);
      if b.result.Err? then Call(Err(b.result.error), b.host)
      else if b.result.value <= 0 then Call(Err(ValueError), b.host)
      else
        var padded := PadTo(data, b.result.value);
        var s := ExternalFlashSize(b.host);
        if s.result.Err? then Call(Err(s.result.error), s.host)
        else if |padded| > s.result.value then Call(Err(ValueError), s.host)
        else FlashExt(s.host, offset, padded, polls, sha, lzma)
    else if bank == 1 || bank == 2 then
      var padded := PadTo(data, PAD_UNIT);
      if |padded| > BUFFER_SIZE then Call(Err(ValueError), h)
      else Program(h, bank, offset, padded, true, true, true, polls, sha, lzma)
    else Call(Err(ValueError), h)
  }

  /** Data that does not fit its destination once padded is refused before any request is
      submitted: the counter is unchanged and at most the geometry reads were made. */
  lemma FlashRefusesOversize(h: Host, bank: int, offset: int, data: Bytes, polls: nat,
                             sha: Bytes -> Bytes, lzma: Bytes -> Bytes)
    ensures var r := Flash(h, bank, offset, data, polls, sha, lzma);
            ((bank == 1 || bank == 2) && |PadTo(data, PAD_UNIT)| > BUFFER_SIZE ==> r == Call(Err(ValueError), h))
            && (bank !in {0, 1, 2} ==> r == Call(Err(ValueError), h))
            && ((bank == 0 && h.blockSize > 0 && h.flashSize > 0 && |PadTo(data, h.blockSize)| > h.flashSize)
                  ==> r == Call(Err(ValueError), h))
            && (bank == 0 && r.host.counter != h.counter ==>
                  var b := ExternalFlashBlockSize(h).result;
                  var s := ExternalFlashSize(ExternalFlashBlockSize(h).host).result;
                  b.Ok? && b.value > 0 && s.Ok? && |PadTo(data, b.value)| <= s.value)
  {
  }
}
