/** The host-side driver object of gnwmanager/gnw.py: a debug-probe backend whose reads
    answer from the target's pending replies, and the `GnW` object that keeps the
    submission counter and the cached flash geometry. Every method is proved to do what
    the matching function of `HostProtocol` describes. */
module Host {
  import opened Common
  import opened MemoryMap
  import opened Validation
  import opened CliFlash
  import P = HostProtocol

  /** The debug probe: every call goes into `log`; 32-bit reads and block reads take the
      target's next reply. */
  class Backend {
    var log: seq<P.Op>
    var words: seq<u32>
    var blocks: seq<Bytes>

    constructor(words: seq<u32>, blocks: seq<Bytes>)
      ensures Link() == P.Link([], words, blocks)
    {
      this.log := [];
      this.words := words;
      this.blocks := blocks;
    }

    function Link(): P.Link
      reads this
    {
      P.Link(log, words, blocks)
    }

    method ReadUint32(addr: int) returns (r: Result<u32>)
      modifies this
      ensures P.Run(r, Link()) == P.ReadWord(old(Link()), addr)
    {
      if words == [] {
        return Err(TransportError);
      }
      r := Ok(words[0]);
      log := log + [P.Read32(addr, words[0])];
      words := words[1..];
    }

    method WriteUint32(addr: int, v: int)
      modifies this
      ensures Link() == P.WriteWord(old(Link()), addr, v)
    {
      log := log + [P.Write32(addr, v)];
    }

    method WriteMemory(addr: int, data: Bytes)
      modifies this
      ensures Link() == P.Send(old(Link()), [P.WriteMem(addr, data)])
    {
      log := log + [P.WriteMem(addr, data)];
    }

    method ReadMemory(addr: int, size: int) returns (r: Result<Bytes>)
      modifies this
      ensures P.Run(r, Link()) == P.ReadBlock(old(Link()), addr, size)
    {
      if blocks == [] {
        return Err(TransportError);
      }
      r := Ok(blocks[0]);
      log := log + [P.ReadMem(addr, size, blocks[0])];
      blocks := blocks[1..];
    }
  }

  // ---- Calls shared by gnw.py and target.py, whose loops are the same ----

  /** Send a run of writes in order: each request is the list of its writes. */
  method Submit(backend: Backend, ops: seq<P.Op>)
    requires forall k :: 0 <= k < |ops| ==> ops[k].Write32? || ops[k].WriteMem?
    modifies backend
    ensures backend.Link() == P.Send(old(backend.Link()), ops)
  {
    for k := 0 to |ops|
      invariant backend.Link() == P.Send(old(backend.Link()), ops[..k])
    {
      assert ops[..k + 1] == ops[..k] + [ops[k]];
      match ops[k]
      case Write32(addr, v) => backend.WriteUint32(addr, v);
      case WriteMem(addr, data) => backend.WriteMemory(addr, data);
    }
    assert ops[..|ops|] == ops;
  }

  /** `read_memory`: the block read is bracketed by raising and lowering
      `download_in_progress`. */
  method ReadMemory(backend: Backend, addr: int, size: int) returns (r: Result<Bytes>)
    modifies backend
    ensures P.Run(r, backend.Link()) == P.ReadMemory(old(backend.Link()), addr, size)
  {
    backend.WriteUint32(P.Comm(DownloadInProgress), 1);
    r := backend.ReadMemory(addr, size);
    if r.Ok? {
      backend.WriteUint32(P.Comm(DownloadInProgress), 0);
    }
  }

  /** `wait_for_idle`. */
  method WaitForIdle(backend: Backend, polls: nat) returns (r: Result<()>)
    modifies backend
    ensures P.Run(r, backend.Link()) == P.WaitForIdle(old(backend.Link()), polls)
  {
    var left: nat := polls;
    while true
      invariant left <= polls
      invariant P.WaitForIdle(backend.Link(), left) == P.WaitForIdle(old(backend.Link()), polls)
      decreases left
    {
      var status := backend.ReadUint32(P.Comm(Status));
      if status.Err? {
        return Err(status.error);
      }
      if status.value == P.IDLE {
        return Ok(());
      }
      if P.IsErrorStatus(status.value) {
        return Err(DataError(P.StatusName(status.value)));
      }
      if left == 0 {
        return Err(TimeoutError);
      }
      left := left - 1;
    }
  }

  /** Poll one word until it reads 0; the polls left are returned. */
  method WaitCleared(backend: Backend, addr: int, polls: nat) returns (r: Result<nat>)
    modifies backend
    ensures P.Run(r, backend.Link()) == P.WaitCleared(old(backend.Link()), addr, polls)
  {
    var left: nat := polls;
    while true
      invariant left <= polls
      invariant P.WaitCleared(backend.Link(), addr, left) == P.WaitCleared(old(backend.Link()), addr, polls)
      decreases left
    {
      var word := backend.ReadUint32(addr);
      if word.Err? {
        return Err(word.error);
      }
      if word.value == 0 {
        return Ok(left);
      }
      if left == 0 {
        return Err(TimeoutError);
      }
      left := left - 1;
    }
  }

  /** `wait_for_all_contexts_complete`: both `ready` words cleared, then idle, all within
      one deadline. */
  method WaitForAllContextsComplete(backend: Backend, polls: nat) returns (r: Result<()>)
    modifies backend
    ensures P.Run(r, backend.Link()) == P.WaitForAllContextsComplete(old(backend.Link()), polls)
  {
    var a := WaitCleared(backend, P.Field(0, Ready), polls);
    if a.Err? {
      return Err(a.error);
    }
    var b := WaitCleared(backend, P.Field(1, Ready), a.value);
    if b.Err? {
      return Err(b.error);
    }
    r := WaitForIdle(backend, b.value);
  }

  /** `get_context`: the first context whose `ready` reads 0, trying them in turn. */
  method GetContext(backend: Backend, polls: nat) returns (r: Result<nat>)
    modifies backend
    ensures P.Run(r, backend.Link()) == P.GetContext(old(backend.Link()), polls, 0)
  {
    var left: nat := polls;
    var ctx: nat := 0;
    while true
      invariant left <= polls && ctx < CONTEXT_COUNT
      invariant P.GetContext(backend.Link(), left, ctx) == P.GetContext(old(backend.Link()), polls, 0)
      decreases left
    {
      var ready := backend.ReadUint32(P.Field(ctx, Ready));
      if ready.Err? {
        return Err(ready.error);
      }
      if ready.value == 0 {
        return Ok(ctx);
      }
      if left == 0 {
        return Err(TimeoutError);
      }
      left := left - 1;
      ctx := (ctx + 1) % CONTEXT_COUNT;
    }
  }

  /** `wait_for_context_response`. */
  method WaitForContextResponse(backend: Backend, ctx: nat, polls: nat) returns (r: Result<()>)
    requires ctx < CONTEXT_COUNT
    modifies backend
    ensures P.Run(r, backend.Link()) == P.WaitForResponse(old(backend.Link()), ctx, polls)
  {
    var left: nat := polls;
    while true
      invariant left <= polls
      invariant P.WaitForResponse(backend.Link(), ctx, left) == P.WaitForResponse(old(backend.Link()), ctx, polls)
      decreases left
    {
      var response := backend.ReadUint32(P.Field(ctx, ResponseReady));
      if response.Err? {
        return Err(response.error);
      }
      if response.value != 0 {
        return Ok(());
      }
      if left == 0 {
        return Err(TimeoutError);
      }
      left := left - 1;
    }
  }

  /** `GnW`: the backend, the context counter and the cached external-flash size and
      erase size (0 until first read). */
  class GnW {
    const backend: Backend
    var counter: int
    var flashSize: int
    var blockSize: int

    /** `GnW(backend)`: the counter starts at 1, nothing is cached. */
    constructor(backend: Backend)
      ensures this.backend == backend && counter == 1 && flashSize == 0 && blockSize == 0
    {
      this.backend := backend;
      this.counter := 1;
      this.flashSize := 0;
      this.blockSize := 0;
    }

    function State(): P.Host
      reads this, backend
    {
      P.Host(backend.Link(), counter, flashSize, blockSize)
    }

    method ReadHashes(offset: int, size: int, polls: nat) returns (r: Result<seq<Bytes>>)
      modifies this, backend
      ensures P.Call(r, State()) == P.ReadHashes(old(State()), offset, size, polls)
    {
      if ValidateExtflashOffset(offset).Fail? {
        return Err(ValueError);
      }
      var n := P.CeilDivInt(size, BUFFER_SIZE);
      var got := GetContext(backend, polls);
      if got.Err? {
        return Err(got.error);
      }
      var ctx := got.value;
      Submit(backend, P.HashRequest(ctx, offset, size, counter));
      counter := counter + 1;
      var response := WaitForContextResponse(backend, ctx, polls);
      if response.Err? {
        return Err(response.error);
      }
      var hashes := ReadMemory(backend, P.Field(ctx, Buffer), n * P.DIGEST_SIZE);
      if hashes.Err? {
        return Err(hashes.error);
      }
      backend.WriteUint32(P.Field(ctx, Ready), 0);
      r := Ok(Chunks(hashes.value, P.DIGEST_SIZE));
    }

    method Program(bank: int, offset: int, data: Bytes, erase: bool, blocking: bool, compress: bool,
                   polls: nat, sha: Bytes -> Bytes, lzma: Bytes -> Bytes) returns (r: Result<()>)
      modifies this, backend
      ensures P.Call(r, State()) == P.Program(old(State()), bank, offset, data, erase, blocking, compress, polls, sha, lzma)
    {
      if bank !in {0, 1, 2} {
        return Err(ValueError);
      }
      var valid := if bank == 0 then ValidateExtflashOffset(offset) else ValidateIntflashOffset(offset);
      if valid.Fail? {
        return Err(ValueError);
      }
      if data == [] {
        return Ok(());
      }
      if |data| > BUFFER_SIZE {
        return Err(ValueError);
      }
      r := SubmitProgram(bank, offset, data, erase, blocking, P.Payload(data, compress, lzma), sha(data), polls);
    }

    method SubmitProgram(bank: int, offset: int, data: Bytes, erase: bool, blocking: bool,
                         payload: (Bytes, int), digest: Bytes, polls: nat) returns (r: Result<()>)
      modifies this, backend
      ensures P.Call(r, State()) == P.SubmitProgram(old(State()), bank, offset, data, erase, blocking, payload, digest, polls)
    {
      var got := GetContext(backend, polls);
      if got.Err? {
        return Err(got.error);
      }
      Submit(backend, P.ProgramWrites(got.value, bank, offset, |data|, erase, digest, payload.0, payload.1, counter));
      counter := counter + 1;
      if blocking {
        r := WaitForAllContextsComplete(backend, polls);
      } else {
        r := Ok(());
      }
    }

    method Erase(bank: int, offset: int, size: int, blocking: bool, wholeChip: bool, polls: nat,
                 sha: Bytes -> Bytes) returns (r: Result<()>)
      modifies this, backend
      ensures P.Call(r, State()) == P.EraseFlash(old(State()), bank, offset, size, blocking, wholeChip, polls, sha)
    {
      if size < 0 || (wholeChip && (offset != 0 || size != 0)) || (!wholeChip && size == 0) || bank !in {0, 1, 2} {
        return Err(ValueError);
      }
      var valid := if bank == 0 then ValidateExtflashOffset(offset) else ValidateIntflashOffset(offset);
      if valid.Fail? {
        return Err(ValueError);
      }
      var got := GetContext(backend, polls);
      if got.Err? {
        return Err(got.error);
      }
      Submit(backend, P.EraseWrites(got.value, bank, offset, size, sha([]), counter));
      counter := counter + 1;
      if blocking {
        r := WaitForAllContextsComplete(backend, polls);
      } else {
        r := Ok(());
      }
    }

    /** The `external_flash_block_size` property. */
    method ExternalFlashBlockSize() returns (r: Result<int>)
      modifies this, backend
      ensures P.Call(r, State()) == P.ExternalFlashBlockSize(old(State()))
    {
      if blockSize != 0 {
        return Ok(blockSize);
      }
      var word := backend.ReadUint32(P.Comm(MinEraseSize));
      if word.Err? {
        return Err(word.error);
      }
      blockSize := word.value;
      r := Ok(blockSize);
    }

    /** The `external_flash_size` property. */
    method ExternalFlashSize() returns (r: Result<int>)
      modifies this, backend
      ensures P.Call(r, State()) == P.ExternalFlashSize(old(State()))
    {
      if flashSize != 0 {
        return Ok(flashSize);
      }
      var word := backend.ReadUint32(P.Comm(FlashSize));
      if word.Err? {
        return Err(word.error);
      }
      flashSize := word.value;
      r := Ok(flashSize);
    }

    method FlashExt(offset: int, data: Bytes, polls: nat, sha: Bytes -> Bytes, lzma: Bytes -> Bytes)
      returns (r: Result<()>)
      modifies this, backend
      ensures P.Call(r, State()) == P.FlashExt(old(State()), offset, data, polls, sha, lzma)
    {
      if ValidateExtflashOffset(offset).Fail? {
        return Err(ValueError);
      }
      var hashes := ReadHashes(offset, |data|, polls);
      if hashes.Err? {
        return Err(hashes.error);
      }
      var todo := P.ChangedPackets(offset, data, hashes.value, sha);
      ghost var start := State();
      for i := 0 to |todo|
        invariant P.ProgramPackets(State(), todo, i, polls, sha, lzma) == P.ProgramPackets(start, todo, 0, polls, sha, lzma)
      {
        var programmed := Program(0, todo[i].addr, todo[i].data, true, false, true, polls, sha, lzma);
        if programmed.Err? {
          return programmed;
        }
        backend.WriteUint32(P.Comm(Progress), P.ProgressAt(i, |todo|));
      }
      r := WaitForAllContextsComplete(backend, polls);
    }

    method Flash(bank: int, offset: int, data: Bytes, polls: nat, sha: Bytes -> Bytes, lzma: Bytes -> Bytes)
      returns (r: Result<()>)
      modifies this, backend
      ensures P.Call(r, State()) == P.Flash(old(State()), bank, offset, data, polls, sha, lzma)
    {
      if bank == 0 {
        var block := ExternalFlashBlockSize();
        if block.Err? {
          return Err(block.error);
        }
        if block.value <= 0 {
          return Err(ValueError);
        }
        var padded := PadTo(data, block.value);
        var size := ExternalFlashSize();
        if size.Err? {
          return Err(size.error);
        }
        if |padded| > size.value {
          return Err(ValueError);
        }
        r := FlashExt(offset, padded, polls, sha, lzma);
      } else if bank == 1 || bank == 2 {
        var padded := PadTo(data, PAD_UNIT);
        if |padded| > BUFFER_SIZE {
          return Err(ValueError);
        }
        r := Program(bank, offset, padded, true, true, true, polls, sha, lzma);
      } else {
        r := Err(ValueError);
      }
    }
  }
}
