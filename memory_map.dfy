/** The RAM windows the host and the on-device manager share: the status words at the
    start of `flashapp_comm`, two 1024-byte work contexts, the active context and the two
    256 KiB transfer buffers (gnwmanager/gnw.py:26-65, Core/Src/gnwmanager.c:38-124). */
module MemoryMap {
  import opened Common

  /** A named window of target RAM. */
  datatype Variable = Variable(address: int, size: nat)

  function End(v: Variable): int { v.address + v.size }

  /** Two windows share no byte. */
  predicate Apart(a: Variable, b: Variable) { End(a) <= b.address || End(b) <= a.address }

  /** `a` lies inside `b`. */
  predicate Within(a: Variable, b: Variable) { b.address <= a.address && End(a) <= End(b) }

  const FRAMEBUFFER := Variable(0x2400_0000, 320 * 240 * 2)
  const FLASHAPP_COMM := Variable(0x2402_5800, 0xC4000)
  const BASE := 0x2402_5800
  /** Every context (and the status block) is padded to 1024 bytes. */
  const CONTEXT_STRIDE := 1024
  const BUFFER_SIZE := 256 * 1024
  const CONTEXT_COUNT := 2

  /** The host's names for the status block and the active context. */
  datatype CommField =
    | Framebuffer | FlashappComm
    | Status | StatusOverride | UtcTimestamp | Progress | FlashSize | MinEraseSize
    | UploadInProgress | DownloadInProgress
    | ActiveContext

  /** The fields of one work context, in the order the firmware declares them, and the
      transfer buffer that belongs to it. */
  datatype ContextField =
    | ReturnBufferPtr | Size | Offset | Erase | EraseBytes | CompressedSize | ExpectedSha256
    | Bank | Action | ResponseReady | Ready
    | Buffer

  /** Declaration order of the context fields; `Buffer` is not part of the struct. */
  function FieldAt(k: nat): ContextField
    requires k < 11
  {
    [ReturnBufferPtr, Size, Offset, Erase, EraseBytes, CompressedSize, ExpectedSha256,
     Bank, Action, ResponseReady, Ready][k]
  }

  function FieldSize(f: ContextField): nat
  {
    if f == ExpectedSha256 then 32 else if f == Buffer then BUFFER_SIZE else 4
  }

  /** Byte offset of each struct field inside `work_context_t` on the 32-bit target
      (the buffer pointer is 4 bytes, the digest 32). */
  function FieldOffset(f: ContextField): nat
    requires f != Buffer
  {
    match f
    case ReturnBufferPtr => 0
    case Size => 4
    case Offset => 8
    case Erase => 12
    case EraseBytes => 16
    case CompressedSize => 20
    case ExpectedSha256 => 24
    case Bank => 56
    case Action => 60
    case ResponseReady => 64
    case Ready => 68
  }

  /** Position of each status word in `struct gnwmanager_comm`. */
  function StatusIndex(f: CommField): nat
    requires f !in {Framebuffer, FlashappComm, ActiveContext}
  {
    match f
    case Status => 0
    case StatusOverride => 1
    case UtcTimestamp => 2
    case Progress => 3
    case FlashSize => 4
    case MinEraseSize => 5
    case UploadInProgress => 6
    case DownloadInProgress => 7
  }

  /** Where the firmware's struct puts each status variable. */
  function CommVar(f: CommField): Variable
  {
    match f
    case Framebuffer => FRAMEBUFFER
    case FlashappComm => FLASHAPP_COMM
    case ActiveContext => Variable(BASE + 3 * CONTEXT_STRIDE, CONTEXT_STRIDE)
    case _ => Variable(BASE + 4 * StatusIndex(f), 4)
  }

  /** Where the firmware's struct puts field `f` of context `i`; the buffers follow the
      active context. */
  function ContextVar(i: nat, f: ContextField): Variable
    requires i < CONTEXT_COUNT
  {
    if f == Buffer then Variable(BASE + 4 * CONTEXT_STRIDE + i * BUFFER_SIZE, BUFFER_SIZE)
    else Variable(BASE + (i + 1) * CONTEXT_STRIDE + FieldOffset(f), FieldSize(f))
  }

  /** `_populate_comm`: each variable is placed right after the previous one, context `i`
      starts at `(i + 1) * 1024` into `flashapp_comm`, and the buffers follow the active
      context. The result is the firmware's own layout. */
  method PopulateComm() returns (comm: map<CommField, Variable>, contexts: seq<map<ContextField, Variable>>)
    ensures forall f :: f in comm && comm[f] == CommVar(f)
    ensures |contexts| == CONTEXT_COUNT
    ensures forall i, f :: 0 <= i < CONTEXT_COUNT ==> f in contexts[i] && contexts[i][f] == ContextVar(i, f)
  {
    comm := map[Framebuffer := FRAMEBUFFER, FlashappComm := FLASHAPP_COMM];
    var last := Variable(comm[FlashappComm].address, 4);
    comm := comm[Status := last];
    last := Variable(End(last), 4);
    comm := comm[StatusOverride := last];
    last := Variable(End(last), 4);
    comm := comm[UtcTimestamp := last];
    last := Variable(End(last), 4);
    comm := comm[Progress := last];
    last := Variable(End(last), 4);
    comm := comm[FlashSize := last];
    last := Variable(End(last), 4);
    comm := comm[MinEraseSize := last];
    last := Variable(End(last), 4);
    comm := comm[UploadInProgress := last];
    last := Variable(End(last), 4);
    comm := comm[DownloadInProgress := last];

    contexts := [];
    for i := 0 to CONTEXT_COUNT
      invariant |contexts| == i
      invariant forall j, f :: 0 <= j < i && f != Buffer ==>
                  f in contexts[j] && contexts[j][f] == ContextVar(j, f)
    {
      var c := PopulateContext(i, comm[FlashappComm].address + (i + 1) * CONTEXT_STRIDE);
      contexts := contexts + [c];
    }

    last := Variable(BASE + 3 * CONTEXT_STRIDE, CONTEXT_STRIDE);
    comm := comm[ActiveContext := last];
    for i := 0 to CONTEXT_COUNT
      invariant |contexts| == CONTEXT_COUNT
      invariant forall j, f :: 0 <= j < CONTEXT_COUNT && f != Buffer ==>
                  f in contexts[j] && contexts[j][f] == ContextVar(j, f)
      invariant forall j :: 0 <= j < i ==> Buffer in contexts[j] && contexts[j][Buffer] == ContextVar(j, Buffer)
      invariant last == (if i == 0 then CommVar(ActiveContext) else ContextVar(i - 1, Buffer))
    {
      last := Variable(End(last), BUFFER_SIZE);
      contexts := contexts[i := contexts[i][Buffer := last]];
    }
    forall f ensures f in comm && comm[f] == CommVar(f) {
      match f
      case Framebuffer =>
      case FlashappComm =>
      case Status =>
      case StatusOverride =>
      case UtcTimestamp =>
      case Progress =>
      case FlashSize =>
      case MinEraseSize =>
      case UploadInProgress =>
      case DownloadInProgress =>
      case ActiveContext =>
    }
  }

  /** The inner loop of `_populate_comm`: the struct fields of context `i`, laid end to end
      from `start`. */
  method PopulateContext(i: nat, start: int) returns (c: map<ContextField, Variable>)
    requires i < CONTEXT_COUNT && start == BASE + (i + 1) * CONTEXT_STRIDE
    ensures forall f :: f != Buffer ==> f in c && c[f] == ContextVar(i, f)
  {
    c := map[];
    var last := Variable(start, 4);
    for k := 0 to 11
      invariant forall m :: 0 <= m < k ==> FieldAt(m) in c && c[FieldAt(m)] == ContextVar(i, FieldAt(m))
      invariant k > 0 ==> last == ContextVar(i, FieldAt(k - 1))
    {
      var f := FieldAt(k);
      last := if k == 0 then Variable(start, 4) else Variable(End(last), FieldSize(f));
      c := c[f := last];
    }
    forall f | f != Buffer ensures f in c && c[f] == ContextVar(i, f) {
      assert f == FieldAt(FieldIndex(f));
    }
  }

  /** Inverse of `FieldAt`. */
  function FieldIndex(f: ContextField): (k: nat)
    requires f != Buffer
    ensures k < 11 && FieldAt(k) == f
  {
    match f
    case ReturnBufferPtr => 0
    case Size => 1
    case Offset => 2
    case Erase => 3
    case EraseBytes => 4
    case CompressedSize => 5
    case ExpectedSha256 => 6
    case Bank => 7
    case Action => 8
    case ResponseReady => 9
    case Ready => 10
  }

  /** Each field starts where the previous one ends, and `ready`, the last field, ends well
      inside the 1024-byte context. */
  lemma ContextFieldsAdjacent(i: nat, k: nat)
    requires i < CONTEXT_COUNT && k + 1 < 11
    ensures ContextVar(i, FieldAt(k + 1)).address == End(ContextVar(i, FieldAt(k)))
    ensures ContextVar(i, FieldAt(0)).address == BASE + (i + 1) * CONTEXT_STRIDE
    ensures End(ContextVar(i, Ready)) <= BASE + (i + 2) * CONTEXT_STRIDE
  {
  }

  /** Inside one context, distinct struct fields do not overlap. */
  lemma FieldsApart(f: ContextField, g: ContextField)
    requires f != Buffer && g != Buffer && f != g
    ensures FieldOffset(f) + FieldSize(f) <= FieldOffset(g) || FieldOffset(g) + FieldSize(g) <= FieldOffset(f)
  {
  }

  /** No two distinct context fields (of either context, buffers included) overlap. */
  lemma ContextVarsApart(i: nat, f: ContextField, j: nat, g: ContextField)
    requires i < CONTEXT_COUNT && j < CONTEXT_COUNT && (i, f) != (j, g)
    ensures Apart(ContextVar(i, f), ContextVar(j, g))
  {
    if f != Buffer && g != Buffer && f != g { FieldsApart(f, g); }
    if f != Buffer && g == Buffer { FieldEnd(f); }
    if f == Buffer && g != Buffer { FieldEnd(g); }
    if f != Buffer && g == f { FieldEnd(f); }
  }

  /** Every context field lies inside `flashapp_comm`, apart from the status words and the
      active context. */
  lemma ContextVarPlaced(i: nat, f: ContextField)
    requires i < CONTEXT_COUNT
    ensures Within(ContextVar(i, f), FLASHAPP_COMM)
    ensures Apart(ContextVar(i, f), CommVar(ActiveContext))
    ensures forall s :: s !in {Framebuffer, FlashappComm, ActiveContext} ==> Apart(ContextVar(i, f), CommVar(s))
  {
    if f != Buffer { FieldEnd(f); }
  }

  lemma FieldEnd(f: ContextField)
    requires f != Buffer
    ensures FieldOffset(f) + FieldSize(f) <= 72
  {
  }

  /** The framebuffer ends where `flashapp_comm` begins, the status words fit in its first
      1024 bytes, and the buffers follow the active context back to back. */
  lemma CommLayout()
    ensures End(FRAMEBUFFER) == FLASHAPP_COMM.address
    ensures forall s :: s !in {Framebuffer, FlashappComm, ActiveContext} ==>
              Within(CommVar(s), Variable(BASE, CONTEXT_STRIDE))
    ensures ContextVar(0, Buffer).address == End(CommVar(ActiveContext))
    ensures ContextVar(1, Buffer).address == End(ContextVar(0, Buffer))
    ensures Within(ContextVar(1, Buffer), FLASHAPP_COMM)
  {
  }

  // ---- The struct behind the addresses ----

  /** The fields of `work_context_t` the host and the device exchange; the buffer pointer
      is the device's own and is not part of it. */
  datatype WorkContext = WorkContext(
    size: int, offset: int, erase: int, eraseBytes: int, compressedSize: int,
    expectedSha256: Bytes, bank: int, action: int, responseReady: int, ready: int)

  /** `release_context`: the whole struct zeroed. */
  const RELEASED: WorkContext := WorkContext(0, 0, 0, 0, 0, Repeat(0, 32), 0, 0, 0, 0)

  /** The 32-bit fields the host writes one word at a time. */
  predicate IsWord(f: ContextField)
  {
    f !in {ReturnBufferPtr, ExpectedSha256, Buffer}
  }

  /** The context with word field `f` set to `v`. */
  function SetField(c: WorkContext, f: ContextField, v: int): WorkContext
    requires IsWord(f)
  {
    match f
    case Size => c.(size := v)
    case Offset => c.(offset := v)
    case Erase => c.(erase := v)
    case EraseBytes => c.(eraseBytes := v)
    case CompressedSize => c.(compressedSize := v)
    case Bank => c.(bank := v)
    case Action => c.(action := v)
    case ResponseReady => c.(responseReady := v)
    case Ready => c.(ready := v)
  }

  /** The word field at byte offset `off` of a context, if one starts there. */
  function WordAt(off: int): (r: Option<ContextField>)
    ensures r.Some? ==> IsWord(r.value) && FieldOffset(r.value) == off
    ensures forall f :: IsWord(f) && FieldOffset(f) == off ==> r == Some(f)
  {
    if off == 4 then Some(Size)
    else if off == 8 then Some(Offset)
    else if off == 12 then Some(Erase)
    else if off == 16 then Some(EraseBytes)
    else if off == 20 then Some(CompressedSize)
    else if off == 56 then Some(Bank)
    else if off == 60 then Some(Action)
    else if off == 64 then Some(ResponseReady)
    else if off == 68 then Some(Ready)
    else None
  }

  /** A 32-bit write to `addr` as context `i` sees it: the word field at that address
      takes the value; writes elsewhere leave the context as it was. */
  function Poke(c: WorkContext, i: nat, addr: int, v: int): WorkContext
    requires i < CONTEXT_COUNT
  {
    match WordAt(addr - ContextVar(i, ReturnBufferPtr).address)
    case Some(f) => SetField(c, f, v)
    case None => c
  }

  /** A write to a word field's address sets exactly that field. */
  lemma PokeField(c: WorkContext, i: nat, f: ContextField, v: int)
    requires i < CONTEXT_COUNT && IsWord(f)
    ensures Poke(c, i, ContextVar(i, f).address, v) == SetField(c, f, v)
  {
  }

  /** Writes outside the struct of context `i` (the status words, the other context, the
      buffers) do not change it. */
  lemma PokeOutside(c: WorkContext, i: nat, addr: int, v: int)
    requires i < CONTEXT_COUNT
    requires addr < ContextVar(i, ReturnBufferPtr).address || End(ContextVar(i, Ready)) <= addr
    ensures Poke(c, i, addr, v) == c
  {
  }
}
