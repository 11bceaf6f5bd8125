/** The pyOCD target mixin of gnwmanager/target.py: the same protocol as gnw.py with its
    own variations. The counter is created on first use, a blocking `prog` waits for the
    device to go idle both before and after its request, and external and internal
    erases are separate calls. */
module Target {
  import opened Common
  import opened MemoryMap
  import opened Validation
  import P = HostProtocol
  import H = Host

  /** The mixin's state: the link and `context_counter`, absent until first needed. */
  datatype Mixin = Mixin(link: P.Link, counter: Option<int>)

  datatype Step<T> = Step(result: Result<T>, state: Mixin)

  /** `_round_up(value, mod)`: `int(ceil(value / mod) * mod)`. */
  function RoundUp(value: int, mod: nat): int
    requires mod > 0
  {
    P.CeilDivInt(value, mod) * mod
  }

  /** For a positive value, `_round_up` gives the least multiple of `mod` at or above it. */
  lemma RoundUpLeast(value: int, mod: nat)
    requires mod > 0 && value > 0
    ensures var r := RoundUp(value, mod);
            r % mod == 0 && value <= r < value + mod
  {
    var q := P.CeilDivInt(value, mod);
    DivUnique(q * mod, mod, q, 0);
  }

  /** The counter `get_context` creates when the mixin has none yet. */
  function CounterOf(m: Mixin): int
  {
    if m.counter.None? then 1 else m.counter.value
  }

  /** `get_context`: create the counter at 1 if missing, then poll for a free context. */
  function GetContextOf(m: Mixin, polls: nat): Step<nat>
  {
    var g := P.GetContext(m.link, polls, 0);
    Step(g.result, Mixin(g.link, Some(CounterOf(m))))
  }

  /** The counter is created once, at 1, and an existing counter is kept. */
  lemma GetContextInitialises(m: Mixin, polls: nat)
    ensures GetContextOf(m, polls).state.counter == Some(if m.counter.None? then 1 else m.counter.value)
    ensures GetContextOf(m, polls).state.link.blocks == m.link.blocks
  {
    P.GetContextFree(m.link, polls, 0);
  }

  /** `read_hashes`: gnw.py's request once the counter exists. */
  function ReadHashesOf(m: Mixin, offset: int, size: int, polls: nat): Step<seq<Bytes>>
  {
    if ValidateExtflashOffset(offset).Fail? then Step(Err(ValueError), m)
    else
      var r := P.ReadHashes(P.Host(m.link, CounterOf(m), 0, 0), offset, size, polls);
      Step(r.result, Mixin(r.host.link, Some(r.host.counter)))
  }

  /** A successful `read_hashes` frees its context last and advances the counter by one
      from where `get_context` put it. */
  lemma ReadHashesFrees(m: Mixin, offset: int, size: int, polls: nat)
    requires ReadHashesOf(m, offset, size, polls).result.Ok?
    ensures var r := ReadHashesOf(m, offset, size, polls);
            var log := r.state.link.log;
            var g := P.GetContext(m.link, polls, 0);
            g.result.Ok? && r.state.counter == Some(CounterOf(m) + 1)
            && |log| > 0 && log[|log| - 1] == P.Write32(P.Field(g.result.value, Ready), 0)
  {
    P.ReadHashesFrees(P.Host(m.link, CounterOf(m), 0, 0), offset, size, polls);
  }

  /** `prog(bank, offset, data, erase, blocking, compress)`. */
  function ProgOf(m: Mixin, bank: int, offset: int, data: Bytes, erase: bool, blocking: bool,
                compress: bool, polls: nat, sha: Bytes -> Bytes, lzma: Bytes -> Bytes): Step<()>
  {
    if bank !in {0, 1, 2} then Step(Err(ValueError), m)
    else if (if bank == 0 then ValidateExtflashOffset(offset) else ValidateIntflashOffset(offset)).Fail? then
      Step(Err(ValueError), m)
    else if data == [] then Step(Ok(()), m)
    else if |data| > BUFFER_SIZE then Step(Err(ValueError), m)
    else SubmitProgOf(m, bank, offset, data, erase, blocking, P.Payload(data, compress, lzma), sha(data), polls)
  }

  /** The part of `prog` after its checks. */
  function SubmitProgOf(m: Mixin, bank: int, offset: int, data: Bytes, erase: bool, blocking: bool,
                      payload: (Bytes, int), digest: Bytes, polls: nat): Step<()>
  {
    var g := GetContextOf(m, polls);
    if g.result.Err? then Step(Err(g.result.error), g.state)
    else WriteProgOf(g.state, g.result.value, bank, offset, data, erase, blocking, payload, digest, polls)
  }

  /** `prog` once it holds context `ctx`: when blocking, wait for idle first; write the
      request with the counter; when blocking, settle. */
  function WriteProgOf(m: Mixin, ctx: nat, bank: int, offset: int, data: Bytes, erase: bool, blocking: bool,
                       payload: (Bytes, int), digest: Bytes, polls: nat): Step<()>
    requires ctx < CONTEXT_COUNT
  {
    var idle := if blocking then P.WaitForIdle(m.link, polls) else P.Run(Ok(()), m.link);
    if idle.result.Err? then Step(Err(idle.result.error), m.(link := idle.link))
    else
      var counter := CounterOf(m);
      var sent := P.Send(idle.link, P.ProgramWrites(ctx, bank, offset, |data|, erase, digest,
                                                    payload.0, payload.1, counter));
      if blocking then SettleOf(Mixin(sent, Some(counter + 1)), polls)
      else Step(Ok(()), Mixin(sent, Some(counter + 1)))
  }

  /** After a blocking request: wait for both contexts to be taken, then for idle (the
      early-released context's work may still be running). */
  function SettleOf(m: Mixin, polls: nat): Step<()>
  {
    var w := P.WaitForAllContextsComplete(m.link, polls);
    if w.result.Err? then Step(w.result, m.(link := w.link))
    else
      var i := P.WaitForIdle(w.link, polls);
      Step(i.result, m.(link := i.link))
  }

  /** `prog` refuses a bank outside 0, 1, 2, a bad offset and more than 256 KiB, and does
      nothing for empty data, all before any transport call; when it writes a request the
      counter ends one past where `get_context` put it. */
  lemma ProgChecks(m: Mixin, bank: int, offset: int, data: Bytes, erase: bool, blocking: bool,
                   compress: bool, polls: nat, sha: Bytes -> Bytes, lzma: Bytes -> Bytes)
    ensures var r := ProgOf(m, bank, offset, data, erase, blocking, compress, polls, sha, lzma);
            var valid := bank in {0, 1, 2}
              && (if bank == 0 then ValidateExtflashOffset(offset) else ValidateIntflashOffset(offset)).Pass?;
            (!valid ==> r == Step(Err(ValueError), m))
            && (valid && data == [] ==> r == Step(Ok(()), m))
            && (valid && |data| > BUFFER_SIZE ==> r == Step(Err(ValueError), m))
            && (r.result.Ok? && data != [] ==> r.state.counter == Some(CounterOf(m) + 1))
  {
  }

  /** The writes of `erase_ext` once it holds context `ctx`: bank 0, no bytes to program,
      erase set, an erase length of 0 for the whole chip and `size` otherwise, the
      empty-data digest, and `ready` last. */
  function EraseExtWrites(ctx: nat, offset: int, size: int, wholeChip: bool, emptyDigest: Bytes,
                          counter: int): seq<P.Op>
    requires ctx < CONTEXT_COUNT
  {
    [P.Write32(P.Field(ctx, Action), P.ACTION_ERASE_AND_FLASH), P.Write32(P.Field(ctx, Offset), offset),
     P.Write32(P.Field(ctx, Erase), 1), P.Write32(P.Field(ctx, Size), 0), P.Write32(P.Field(ctx, Bank), 0),
     P.Write32(P.Field(ctx, EraseBytes), if wholeChip then 0 else size),
     P.WriteMem(P.Field(ctx, ExpectedSha256), emptyDigest),
     P.Write32(P.Field(ctx, Ready), counter)]
  }

  /** The shared tail of both erases: claim a context, send the writes `build` makes for
      it and the counter, then wait for both contexts and for idle. */
  function SubmitEraseOf(m: Mixin, polls: nat, build: nat -> seq<P.Op>): Step<()>
  {
    var g := GetContextOf(m, polls);
    if g.result.Err? then Step(Err(g.result.error), g.state)
    else
      var counter := CounterOf(m);
      var sent := P.Send(g.state.link, build(g.result.value));
      SettleOf(Mixin(sent, Some(counter + 1)), polls)
  }

  /** `erase_ext(offset, size, whole_chip)`. */
  function EraseExtOf(m: Mixin, offset: int, size: int, wholeChip: bool, polls: nat, sha: Bytes -> Bytes): Step<()>
  {
    if ValidateExtflashOffset(offset).Fail? then Step(Err(ValueError), m)
    else if size <= 0 && !wholeChip then Step(Err(ValueError), m)
    else
      SubmitEraseOf(m, polls,
                  (ctx: nat) => if ctx < CONTEXT_COUNT then EraseExtWrites(ctx, offset, size, wholeChip, sha([]), CounterOf(m))
                         else [])
  }

  /** `erase_ext` refuses a bad offset, and a non-positive size unless erasing the whole
      chip, before any transport call. */
  lemma EraseExtChecks(m: Mixin, offset: int, size: int, wholeChip: bool, polls: nat, sha: Bytes -> Bytes)
    ensures var r := EraseExtOf(m, offset, size, wholeChip, polls, sha);
            (ValidateExtflashOffset(offset).Fail? || (size <= 0 && !wholeChip)) ==> r == Step(Err(ValueError), m)
  {
  }

  /** What the device finds after `erase_ext`'s writes: bank 0, nothing to program, erase
      set, and an erase length that is 0, meaning the whole chip, exactly when
      `whole_chip` was asked for (a positive `size` otherwise); `ready` is written last. */
  lemma EraseExtSeen(v: P.View, ctx: nat, offset: int, size: int, wholeChip: bool, digest: Bytes, counter: int)
    requires ctx < CONTEXT_COUNT && (size > 0 || wholeChip)
    ensures var w := EraseExtWrites(ctx, offset, size, wholeChip, digest, counter);
            var r := P.SeeAll(v, ctx, w[..7]);
            r.ctx == v.ctx.(action := P.ACTION_ERASE_AND_FLASH, offset := offset, erase := 1, size := 0, bank := 0,
                            eraseBytes := if wholeChip then 0 else size, expectedSha256 := digest)
            && (r.ctx.eraseBytes == 0 <==> wholeChip)
            && P.SeeAll(v, ctx, w).ctx == r.ctx.(ready := counter)
  {
    var w := EraseExtWrites(ctx, offset, size, wholeChip, digest, counter);
    var front := w[..4];
    var back := w[4..7];
    assert w[..7] == front + back && w == w[..7] + [w[7]];
    var v4 := SeeFront(v, ctx, offset);
    assert front == [P.Write32(P.Field(ctx, Action), P.ACTION_ERASE_AND_FLASH), P.Write32(P.Field(ctx, Offset), offset),
                     P.Write32(P.Field(ctx, Erase), 1), P.Write32(P.Field(ctx, Size), 0)];
    var v7 := SeeBankEraseBytes(v4, ctx, 0, if wholeChip then 0 else size, digest);
    assert back == [P.Write32(P.Field(ctx, Bank), 0), P.Write32(P.Field(ctx, EraseBytes), if wholeChip then 0 else size),
                    P.WriteMem(P.Field(ctx, ExpectedSha256), digest)];
    P.SeeAllConcat(v, ctx, front, back);
    P.SeeAllConcat(v, ctx, w[..7], [w[7]]);
    P.SeeWord(v7, ctx, Ready, counter);
    P.SeeOne(v7, ctx, w[7]);
  }

  /** action, offset, erase, size: the first four writes of both erases. */
  lemma SeeFront(v: P.View, ctx: nat, offset: int) returns (r: P.View)
    requires ctx < CONTEXT_COUNT
    ensures r == P.SeeAll(v, ctx, [P.Write32(P.Field(ctx, Action), P.ACTION_ERASE_AND_FLASH),
                                   P.Write32(P.Field(ctx, Offset), offset),
                                   P.Write32(P.Field(ctx, Erase), 1), P.Write32(P.Field(ctx, Size), 0)])
    ensures r == P.View(v.ctx.(action := P.ACTION_ERASE_AND_FLASH, offset := offset, erase := 1, size := 0), v.buffer)
  {
    var ops := [P.Write32(P.Field(ctx, Action), P.ACTION_ERASE_AND_FLASH), P.Write32(P.Field(ctx, Offset), offset),
                P.Write32(P.Field(ctx, Erase), 1), P.Write32(P.Field(ctx, Size), 0)];
    var v1 := P.View(v.ctx.(action := P.ACTION_ERASE_AND_FLASH), v.buffer);
    var v2 := P.View(v1.ctx.(offset := offset), v.buffer);
    var v3 := P.View(v2.ctx.(erase := 1), v.buffer);
    r := P.View(v3.ctx.(size := 0), v.buffer);
    P.SeeWord(v, ctx, Action, P.ACTION_ERASE_AND_FLASH);
    P.SeeWord(v1, ctx, Offset, offset);
    P.SeeWord(v2, ctx, Erase, 1);
    P.SeeWord(v3, ctx, Size, 0);
    P.SeeAllStep(v, ctx, ops);
    P.SeeAllStep(v1, ctx, ops[1..]);
    P.SeeAllStep(v2, ctx, ops[2..]);
    P.SeeOne(v3, ctx, ops[3]);
    assert ops[1..][1..] == ops[2..] && ops[2..][1..] == [ops[3]];
  }

  lemma SeeBankEraseBytes(v: P.View, ctx: nat, bank: int, eraseBytes: int, digest: Bytes) returns (r: P.View)
    requires ctx < CONTEXT_COUNT
    ensures r == P.SeeAll(v, ctx, [P.Write32(P.Field(ctx, Bank), bank), P.Write32(P.Field(ctx, EraseBytes), eraseBytes),
                                   P.WriteMem(P.Field(ctx, ExpectedSha256), digest)])
    ensures r == P.View(v.ctx.(bank := bank, eraseBytes := eraseBytes, expectedSha256 := digest), v.buffer)
  {
    var ops := [P.Write32(P.Field(ctx, Bank), bank), P.Write32(P.Field(ctx, EraseBytes), eraseBytes),
                P.WriteMem(P.Field(ctx, ExpectedSha256), digest)];
    var v1 := P.View(v.ctx.(bank := bank), v.buffer);
    var v2 := P.View(v1.ctx.(eraseBytes := eraseBytes), v.buffer);
    r := P.View(v2.ctx.(expectedSha256 := digest), v.buffer);
    P.SeeWord(v, ctx, Bank, bank);
    P.SeeWord(v1, ctx, EraseBytes, eraseBytes);
    assert P.Field(ctx, ExpectedSha256) != P.Field(ctx, Buffer);
    P.SeeAllStep(v, ctx, ops);
    P.SeeAllStep(v1, ctx, ops[1..]);
    P.SeeOne(v2, ctx, ops[2]);
    assert ops[1..][1..] == [ops[2]];
  }

  // ---- erase_int ----

  /** The writes of `erase_int` as the source has them: the rounded size is computed but
      `erase_bytes` is never written. */
  function EraseIntWritesAsWritten(ctx: nat, bank: int, offset: int, emptyDigest: Bytes, counter: int): seq<P.Op>
    requires ctx < CONTEXT_COUNT
  {
    [P.Write32(P.Field(ctx, Action), P.ACTION_ERASE_AND_FLASH), P.Write32(P.Field(ctx, Offset), offset),
     P.Write32(P.Field(ctx, Erase), 1), P.Write32(P.Field(ctx, Size), 0), P.Write32(P.Field(ctx, Bank), bank),
     P.WriteMem(P.Field(ctx, ExpectedSha256), emptyDigest),
     P.Write32(P.Field(ctx, Ready), counter)]
  }

  /** As written, the device's erase length is whatever the context held before: for a
      context the device released (all zero) it is 0, which the firmware takes as the
      whole 256 KiB bank, whatever `size` was asked for. */
  lemma EraseIntAsWrittenIgnoresSize(ctx: nat, bank: int, offset: int, size: int, digest: Bytes, counter: int)
    requires ctx < CONTEXT_COUNT && size > 0
    ensures var seen := P.SeeAll(P.View(RELEASED, []), ctx, EraseIntWritesAsWritten(ctx, bank, offset, digest, counter));
            seen.ctx.eraseBytes == 0 != RoundUp(size, INTFLASH_SECTOR)
  {
    var w := EraseIntWritesAsWritten(ctx, bank, offset, digest, counter);
    forall k | 0 <= k < |w| ensures !EraseBytesWrite(w[k], ctx) {
    }
    SeeAllKeepsEraseBytes(P.View(RELEASED, []), ctx, w);
    RoundUpLeast(size, INTFLASH_SECTOR);
  }

  predicate EraseBytesWrite(op: P.Op, i: nat)
    requires i < CONTEXT_COUNT
  {
    op.Write32? && op.addr == P.Field(i, EraseBytes)
  }

  lemma {:induction false} SeeAllKeepsEraseBytes(v: P.View, i: nat, ops: seq<P.Op>)
    requires i < CONTEXT_COUNT
    requires forall k :: 0 <= k < |ops| ==> !EraseBytesWrite(ops[k], i)
    ensures P.SeeAll(v, i, ops).ctx.eraseBytes == v.ctx.eraseBytes
    decreases |ops|
  {
    if ops != [] {
      assert !EraseBytesWrite(ops[0], i);
      SeeAllKeepsEraseBytes(P.See(v, i, ops[0]), i, ops[1..]);
    }
  }

  /** The writes `erase_int` evidently means: the same request with the rounded size as
      the erase length. */
  function EraseIntWrites(ctx: nat, bank: int, offset: int, size: int, emptyDigest: Bytes, counter: int): seq<P.Op>
    requires ctx < CONTEXT_COUNT
  {
    [P.Write32(P.Field(ctx, Action), P.ACTION_ERASE_AND_FLASH), P.Write32(P.Field(ctx, Offset), offset),
     P.Write32(P.Field(ctx, Erase), 1), P.Write32(P.Field(ctx, Size), 0), P.Write32(P.Field(ctx, Bank), bank),
     P.Write32(P.Field(ctx, EraseBytes), RoundUp(size, INTFLASH_SECTOR)),
     P.WriteMem(P.Field(ctx, ExpectedSha256), emptyDigest),
     P.Write32(P.Field(ctx, Ready), counter)]
  }

  /** With the erase length written, the device erases whole 8 KiB sectors covering
      exactly `size` rounded up, in the requested bank, and `ready` comes last. */
  lemma EraseIntSeen(v: P.View, ctx: nat, bank: int, offset: int, size: int, digest: Bytes, counter: int)
    requires ctx < CONTEXT_COUNT && size > 0
    ensures var w := EraseIntWrites(ctx, bank, offset, size, digest, counter);
            var r := P.SeeAll(v, ctx, w[..7]);
            r.ctx == v.ctx.(action := P.ACTION_ERASE_AND_FLASH, offset := offset, erase := 1, size := 0, bank := bank,
                            eraseBytes := RoundUp(size, INTFLASH_SECTOR), expectedSha256 := digest)
            && r.ctx.eraseBytes % INTFLASH_SECTOR == 0 && size <= r.ctx.eraseBytes < size + INTFLASH_SECTOR
            && P.SeeAll(v, ctx, w).ctx == r.ctx.(ready := counter)
  {
    var w := EraseIntWrites(ctx, bank, offset, size, digest, counter);
    var front := w[..4];
    var back := w[4..7];
    assert w[..7] == front + back && w == w[..7] + [w[7]];
    var v4 := SeeFront(v, ctx, offset);
    assert front == [P.Write32(P.Field(ctx, Action), P.ACTION_ERASE_AND_FLASH), P.Write32(P.Field(ctx, Offset), offset),
                     P.Write32(P.Field(ctx, Erase), 1), P.Write32(P.Field(ctx, Size), 0)];
    var v7 := SeeBankEraseBytes(v4, ctx, bank, RoundUp(size, INTFLASH_SECTOR), digest);
    assert back == [P.Write32(P.Field(ctx, Bank), bank), P.Write32(P.Field(ctx, EraseBytes), RoundUp(size, INTFLASH_SECTOR)),
                    P.WriteMem(P.Field(ctx, ExpectedSha256), digest)];
    P.SeeAllConcat(v, ctx, front, back);
    P.SeeAllConcat(v, ctx, w[..7], [w[7]]);
    P.SeeWord(v7, ctx, Ready, counter);
    P.SeeOne(v7, ctx, w[7]);
    RoundUpLeast(size, INTFLASH_SECTOR);
  }

  /** `erase_int(bank, offset, size)`, with the erase length written. */
  function EraseIntOf(m: Mixin, bank: int, offset: int, size: int, polls: nat, sha: Bytes -> Bytes): Step<()>
  {
    if ValidateIntflashOffset(offset).Fail? then Step(Err(ValueError), m)
    else if size <= 0 then Step(Err(ValueError), m)
    else if bank !in {1, 2} then Step(Err(ValueError), m)
    else
      SubmitEraseOf(m, polls,
                  (ctx: nat) => if ctx < CONTEXT_COUNT then EraseIntWrites(ctx, bank, offset, size, sha([]), CounterOf(m))
                         else [])
  }

  /** `erase_int` refuses a bad offset, a non-positive size and a bank other than 1 or 2
      before any transport call. */
  lemma EraseIntChecks(m: Mixin, bank: int, offset: int, size: int, polls: nat, sha: Bytes -> Bytes)
    ensures var r := EraseIntOf(m, bank, offset, size, polls, sha);
            (ValidateIntflashOffset(offset).Fail? || size <= 0 || bank !in {1, 2}) ==> r == Step(Err(ValueError), m)
  {
  }

  // ---- The mixin object ----

  /** The target with the mixin's methods: its transport and `context_counter`. */
  class TargetMixin {
    const backend: H.Backend
    var counter: Option<int>

    constructor(backend: H.Backend)
      ensures this.backend == backend && counter == None
    {
      this.backend := backend;
      this.counter := None;
    }

    function State(): Mixin
      reads this, backend
    {
      Mixin(backend.Link(), counter)
    }

    method GetContext(polls: nat) returns (r: Result<nat>)
      modifies this, backend
      ensures Step(r, State()) == GetContextOf(old(State()), polls)
    {
      if counter.None? {
        counter := Some(1);
      }
      r := H.GetContext(backend, polls);
    }

    method ReadHashes(offset: int, size: int, polls: nat) returns (r: Result<seq<Bytes>>)
      modifies this, backend
      ensures Step(r, State()) == ReadHashesOf(old(State()), offset, size, polls)
    {
      if ValidateExtflashOffset(offset).Fail? {
        return Err(ValueError);
      }
      var n := P.CeilDivInt(size, BUFFER_SIZE);
      var got := GetContext(polls);
      if got.Err? {
        return Err(got.error);
      }
      var ctx := got.value;
      H.Submit(backend, P.HashRequest(ctx, offset, size, counter.value));
      counter := Some(counter.value + 1);
      var response := H.WaitForContextResponse(backend, ctx, polls);
      if response.Err? {
        return Err(response.error);
      }
      var hashes := H.ReadMemory(backend, P.Field(ctx, Buffer), n * P.DIGEST_SIZE);
      if hashes.Err? {
        return Err(hashes.error);
      }
      backend.WriteUint32(P.Field(ctx, Ready), 0);
      r := Ok(Chunks(hashes.value, P.DIGEST_SIZE));
    }

    method Prog(bank: int, offset: int, data: Bytes, erase: bool, blocking: bool, compress: bool,
                polls: nat, sha: Bytes -> Bytes, lzma: Bytes -> Bytes) returns (r: Result<()>)
      modifies this, backend
      ensures Step(r, State()) == ProgOf(old(State()), bank, offset, data, erase, blocking, compress, polls, sha, lzma)
    {
      if bank !in {0, 1, 2} {
        return Err(ValueError);
      }
      var valid := if bank == 0 then ValidateExtflashOffset(offset) else ValidateIntflashOffset(offset);
      if valid.Fail? {
        return Err(ValueError);
      }
      if data == [] {
        return Ok(());
      }
      if |data| > BUFFER_SIZE {
        return Err(ValueError);
      }
      r := SubmitProg(bank, offset, data, erase, blocking, P.Payload(data, compress, lzma), sha(data), polls);
    }

    method SubmitProg(bank: int, offset: int, data: Bytes, erase: bool, blocking: bool,
                      payload: (Bytes, int), digest: Bytes, polls: nat) returns (r: Result<()>)
      modifies this, backend
      ensures Step(r, State()) == SubmitProgOf(old(State()), bank, offset, data, erase, blocking, payload, digest, polls)
    {
      var got := GetContext(polls);
      if got.Err? {
        return Err(got.error);
      }
      r := WriteProg(got.value, bank, offset, data, erase, blocking, payload, digest, polls);
    }

    method WriteProg(ctx: nat, bank: int, offset: int, data: Bytes, erase: bool, blocking: bool,
                     payload: (Bytes, int), digest: Bytes, polls: nat) returns (r: Result<()>)
      requires ctx < CONTEXT_COUNT
      modifies this, backend
      ensures Step(r, State()) == WriteProgOf(old(State()), ctx, bank, offset, data, erase, blocking, payload, digest, polls)
    {
      if blocking {
        var idle := H.WaitForIdle(backend, polls);
        if idle.Err? {
          return Err(idle.error);
        }
      }
      var c := CounterOf(State());
      H.Submit(backend, P.ProgramWrites(ctx, bank, offset, |data|, erase, digest, payload.0, payload.1, c));
      counter := Some(c + 1);
      if blocking {
        r := Settle(polls);
      } else {
        r := Ok(());
      }
    }

    method Settle(polls: nat) returns (r: Result<()>)
      modifies backend
      ensures Step(r, State()) == SettleOf(old(State()), polls)
    {
      r := H.WaitForAllContextsComplete(backend, polls);
      if r.Err? {
        return;
      }
      r := H.WaitForIdle(backend, polls);
    }

    /** Claim a context, send `build`'s writes for it, then wait for both contexts and
        for idle. */
    method SubmitErase(polls: nat, build: nat -> seq<P.Op>) returns (r: Result<()>)
      requires forall c, k :: 0 <= k < |build(c)| ==> build(c)[k].Write32? || build(c)[k].WriteMem?
      modifies this, backend
      ensures Step(r, State()) == SubmitEraseOf(old(State()), polls, build)
    {
      var got := GetContext(polls);
      if got.Err? {
        return Err(got.error);
      }
      H.Submit(backend, build(got.value));
      counter := Some(counter.value + 1);
      r := Settle(polls);
    }

    method EraseExt(offset: int, size: int, wholeChip: bool, polls: nat, sha: Bytes -> Bytes) returns (r: Result<()>)
      modifies this, backend
      ensures Step(r, State()) == EraseExtOf(old(State()), offset, size, wholeChip, polls, sha)
    {
      if ValidateExtflashOffset(offset).Fail? || (size <= 0 && !wholeChip) {
        return Err(ValueError);
      }
      var c := CounterOf(State());
      r := SubmitErase(polls, (ctx: nat) => if ctx < CONTEXT_COUNT then EraseExtWrites(ctx, offset, size, wholeChip, sha([]), c) else []);
    }

    method EraseInt(bank: int, offset: int, size: int, polls: nat, sha: Bytes -> Bytes) returns (r: Result<()>)
      modifies this, backend
      ensures Step(r, State()) == EraseIntOf(old(State()), bank, offset, size, polls, sha)
    {
      if ValidateIntflashOffset(offset).Fail? || size <= 0 || bank !in {1, 2} {
        return Err(ValueError);
      }
      var c := CounterOf(State());
      r := SubmitErase(polls, (ctx: nat) => if ctx < CONTEXT_COUNT then EraseIntWrites(ctx, bank, offset, size, sha([]), c) else []);
    }
  }
}
