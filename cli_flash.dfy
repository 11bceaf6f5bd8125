/** Host-side helpers of the `flash` command: padding, destination classification and
    the delta filter that skips chunks the device already holds
    (gnwmanager/cli/flash.py, gnwmanager/cli/_flash.py). */
module CliFlash {
  import opened Common

  /** Internal flash banks as the CPU maps them, and the external flash window. */
  const BANK1_BASE: int := 0x0800_0000
  const BANK2_BASE: int := 0x0810_0000
  const BANK_SIZE: int := 256 * 1024
  const EXT_BASE: int := 0x9000_0000

  /** Size of the erase unit the padding rounds to. */
  const PAD_UNIT: nat := 8192

  /** `data + b"\xFF" * pad_size` with `pad_size = (n - len % n) % n`. */
  function PadTo(data: Bytes, n: nat): (r: Bytes)
    requires n > 0
    ensures |r| % n == 0
    ensures |data| <= |r| < |data| + n
    ensures r[..|data|] == data
    ensures forall k :: |data| <= k < |r| ==> r[k] == 0xFF
    ensures |data| % n == 0 ==> r == data
  {
    var padSize := (n - |data| % n) % n;
    PadSizeFits(|data|, n);
    if padSize == 0 then data else data + Repeat(0xFF, padSize)
  }

  /** The pad size tops the length up to the next multiple of `n`. */
  lemma PadSizeFits(len: nat, n: nat)
    requires n > 0
    ensures var padSize := (n - len % n) % n;
            0 <= padSize < n && (len + padSize) % n == 0 && (len % n == 0 <==> padSize == 0)
  {
    var padSize := (n - len % n) % n;
    if len % n == 0 {
      DivUnique(n, n, 1, 0);
    } else {
      DivUnique(n - len % n, n, 0, n - len % n);
      DivUnique(len + padSize, n, len / n + 1, 0);
    }
  }

  /** `_pad_bytes`: pad to a multiple of 8192 bytes with 0xFF. */
  function PadBytes(data: Bytes): (r: Bytes)
    ensures |r| % 8192 == 0 && |data| <= |r| < |data| + 8192 && r[..|data|] == data
  {
    PadTo(data, PAD_UNIT)
  }

  /** Padding is idempotent: padded data is its own padding. */
  lemma PadIdempotent(data: Bytes, n: nat)
    requires n > 0
    ensures PadTo(PadTo(data, n), n) == PadTo(data, n)
  {
  }

  /** Padding is the shortest 0xFF extension to a multiple of `n`: any other one is the
      padded data followed by more 0xFF. */
  lemma PadShortest(data: Bytes, n: nat, other: Bytes)
    requires n > 0 && |other| % n == 0 && |data| <= |other| && other[..|data|] == data
    ensures |PadTo(data, n)| <= |other|
  {
    var r := PadTo(data, n);
    if |other| < |r| {
      MultipleBetween(|data|, n, |other|, |r|);
    }
  }

  /** Two multiples of `n` in `[a, a + n)` are equal. */
  lemma MultipleBetween(a: int, n: int, x: int, y: int)
    requires n > 0 && x % n == 0 && y % n == 0
    requires a <= x < a + n && a <= y < a + n
    ensures x == y
  {
    DivUnique(x, n, x / n, 0);
    DivUnique(y, n, y / n, 0);
    if x / n < y / n {
      MulAtLeast(y / n - x / n, n);
    } else if y / n < x / n {
      MulAtLeast(x / n - y / n, n);
    }
  }

  // ---- Destination classification ----

  /** Where a `flash` command sends its data. */
  datatype Destination = Destination(bank: int, offset: int, progress: bool)

  /** Base address of a flash bank in the CPU's memory map (bank 0 is external). */
  function BankBase(bank: int): int
  {
    if bank == 1 then BANK1_BASE else if bank == 2 then BANK2_BASE else EXT_BASE
  }

  /** `flash` in gnwmanager/cli/_flash.py: the absolute address `location + offset` picks
      the bank; the upper bound of each internal bank is accepted too. */
  function Classify(location: int, offset: int): (r: Result<Destination>)
    ensures r.Ok? ==> r.value.bank in {0, 1, 2}
    ensures r.Ok? ==> BankBase(r.value.bank) + r.value.offset == location + offset
    ensures r.Ok? ==> (r.value.progress <==> r.value.bank == 0)
    ensures r.Ok? ==> 0 <= r.value.offset && (r.value.bank != 0 ==> r.value.offset <= BANK_SIZE)
    ensures r.Err? ==> r.error == ValueError
  {
    var addr := location + offset;
    if BANK1_BASE <= addr <= BANK1_BASE + (256 * 1024) then
      Ok(Destination(1, addr - BANK1_BASE, false))
    else if BANK2_BASE <= addr <= BANK2_BASE + (256 * 1024) then
      Ok(Destination(2, addr - BANK2_BASE, false))
    else if addr >= EXT_BASE then
      Ok(Destination(0, addr - EXT_BASE, true))
    else
      Err(ValueError)
  }

  /** Every address of a bank is classified back to that bank and offset, so
      `BankBase` and `Classify` are inverse on the accepted addresses. */
  lemma ClassifyInverse(bank: int, off: int)
    requires bank in {0, 1, 2} && 0 <= off && (bank != 0 ==> off <= BANK_SIZE)
    ensures Classify(BankBase(bank), off) == Ok(Destination(bank, off, bank == 0))
  {
  }

  /** Addresses below external flash that lie outside both banks are refused. */
  lemma ClassifyRefuses(addr: int)
    requires addr < EXT_BASE
    requires !(BANK1_BASE <= addr <= BANK1_BASE + BANK_SIZE)
    requires !(BANK2_BASE <= addr <= BANK2_BASE + BANK_SIZE)
    ensures Classify(addr, 0) == Err(ValueError)
  {
  }

  /** The `location` argument of `flash` in gnwmanager/cli/flash.py: a number if
      `int(location, 0)` accepts it, a name otherwise. */
  datatype Location = Address(addr: int) | Named(name: string)

  /** What that command does with its (padded) data. */
  datatype FlashAction = ProgramBank(bank: int, offset: int) | FlashExternal(offset: int)

  /** Names pick a bank with the `--offset` option; an address must fall in an
      internal bank (upper bound included), and the option is then ignored. */
  function CliDestination(location: Location, offset: int): (r: Result<FlashAction>)
    ensures r.Ok? && r.value.ProgramBank? && location.Address? ==>
      r.value.bank in {1, 2} && BankBase(r.value.bank) + r.value.offset == location.addr
    ensures r.Ok? && r.value.ProgramBank? && location.Named? ==> r.value.offset == offset
    ensures r.Ok? && r.value.FlashExternal? <==> location == Named("ext")
    ensures r.Err? ==> r.error == ValueError
  {
    match location
    case Named(name) =>
      if name == "bank1" then Ok(ProgramBank(1, offset))
      else if name == "bank2" then Ok(ProgramBank(2, offset))
      else if name == "ext" then Ok(FlashExternal(offset))
      else Err(ValueError)
    case Address(addr) =>
      if BANK1_BASE <= addr <= BANK1_BASE + (256 * 1024) then Ok(ProgramBank(1, addr - BANK1_BASE))
      else if BANK2_BASE <= addr <= BANK2_BASE + (256 * 1024) then Ok(ProgramBank(2, addr - BANK2_BASE))
      else Err(ValueError)
  }

  /** The older command refuses external addresses outright where the newer one maps
      them to bank 0. */
  lemma CliDestinationAgreesOnBanks(addr: int)
    requires BANK1_BASE <= addr <= BANK2_BASE + BANK_SIZE
    ensures CliDestination(Address(addr), 0).Ok? <==> Classify(addr, 0).Ok?
    ensures CliDestination(Address(addr), 0).Ok? ==>
      CliDestination(Address(addr), 0).value ==
        ProgramBank(Classify(addr, 0).value.bank, Classify(addr, 0).value.offset)
  {
  }

  // ---- Delta upload filter ----

  /** One chunk of an upload and the flash offset it goes to. */
  datatype Packet = Packet(addr: int, data: Bytes)

  /** `[Packet(offset + i * chunk_size, chunk) for i, chunk in enumerate(chunks)]`. */
  function MakePackets(offset: int, chunks: seq<Bytes>, chunkSize: nat): (r: seq<Packet>)
    ensures |r| == |chunks|
    ensures forall i :: 0 <= i < |r| ==> r[i] == Packet(offset + i * chunkSize, chunks[i])
  {
    seq(|chunks|, i requires 0 <= i < |chunks| => Packet(offset + i * chunkSize, chunks[i]))
  }

  /** The comprehension over `zip(packets, device_hashes)` keeping the packets whose
      SHA-256 differs from the device's; `zip` stops at the shorter list. */
  function FilterChanged(packets: seq<Packet>, deviceHashes: seq<Bytes>, sha: Bytes -> Bytes):
    (r: seq<Packet>)
    ensures |r| <= Min(|packets|, |deviceHashes|)
    decreases |packets|
  {
    if packets == [] || deviceHashes == [] then []
    else
      var rest := FilterChanged(packets[1..], deviceHashes[1..], sha);
      if sha(packets[0].data) != deviceHashes[0] then [packets[0]] + rest else rest
  }

  /** A packet is kept exactly when it is paired with a device hash that differs from
      its own. */
  lemma {:induction false} FilterChangedMember(packets: seq<Packet>, deviceHashes: seq<Bytes>,
                                              sha: Bytes -> Bytes, p: Packet)
    ensures p in FilterChanged(packets, deviceHashes, sha) <==>
      exists i :: 0 <= i < |packets| && i < |deviceHashes| && packets[i] == p
                  && sha(p.data) != deviceHashes[i]
    decreases |packets|
  {
    if packets != [] && deviceHashes != [] {
      FilterChangedMember(packets[1..], deviceHashes[1..], sha, p);
      if p in FilterChanged(packets[1..], deviceHashes[1..], sha) {
        var i :| 0 <= i < |packets[1..]| && i < |deviceHashes[1..]| && packets[1..][i] == p
                 && sha(p.data) != deviceHashes[1..][i];
        assert packets[i + 1] == p && deviceHashes[i + 1] == deviceHashes[1..][i];
      }
      if exists i :: 0 <= i < |packets| && i < |deviceHashes| && packets[i] == p
                     && sha(p.data) != deviceHashes[i] {
        var i :| 0 <= i < |packets| && i < |deviceHashes| && packets[i] == p
                 && sha(p.data) != deviceHashes[i];
        if i > 0 {
          assert packets[1..][i - 1] == p && deviceHashes[1..][i - 1] == deviceHashes[i];
        }
      }
    }
  }

  /** Kept packets stay in upload order: the result is a subsequence of the input. */
  predicate SubsequenceOf<T(==)>(xs: seq<T>, ys: seq<T>)
    decreases |ys|
  {
    if xs == [] then true
    else if ys == [] then false
    else if xs[0] == ys[0] then SubsequenceOf(xs[1..], ys[1..])
    else SubsequenceOf(xs, ys[1..])
  }

  lemma {:induction false} FilterChangedOrdered(packets: seq<Packet>, deviceHashes: seq<Bytes>,
                                               sha: Bytes -> Bytes)
    ensures SubsequenceOf(FilterChanged(packets, deviceHashes, sha), packets)
    decreases |packets|
  {
    if packets != [] && deviceHashes != [] {
      var rest := FilterChanged(packets[1..], deviceHashes[1..], sha);
      FilterChangedOrdered(packets[1..], deviceHashes[1..], sha);
      if sha(packets[0].data) == deviceHashes[0] {
        SubsequenceSkip(rest, packets);
      }
    }
  }

  /** A subsequence of the tail is a subsequence of the whole. */
  lemma {:induction false} SubsequenceSkip<T>(xs: seq<T>, ys: seq<T>)
    requires ys != [] && SubsequenceOf(xs, ys[1..])
    ensures SubsequenceOf(xs, ys)
    decreases |ys|, 0
  {
    if xs != [] && xs[0] == ys[0] {
      SubsequenceTail(xs, ys[1..]);
    }
  }

  /** Dropping the head of a subsequence keeps it a subsequence. */
  lemma {:induction false} SubsequenceTail<T>(xs: seq<T>, zs: seq<T>)
    requires xs != [] && SubsequenceOf(xs, zs)
    ensures SubsequenceOf(xs[1..], zs)
    decreases |zs|, 1
  {
    if xs[0] == zs[0] {
      SubsequenceSkip(xs[1..], zs);
    } else {
      SubsequenceTail(xs, zs[1..]);
      SubsequenceSkip(xs[1..], zs);
    }
  }

  /** When the device already holds every chunk, nothing is uploaded. */
  lemma {:induction false} FilterUnchangedIsEmpty(packets: seq<Packet>, deviceHashes: seq<Bytes>,
                                                 sha: Bytes -> Bytes)
    requires |deviceHashes| == |packets|
    requires forall i :: 0 <= i < |packets| ==> deviceHashes[i] == sha(packets[i].data)
    ensures FilterChanged(packets, deviceHashes, sha) == []
    decreases |packets|
  {
    if packets != [] {
      FilterUnchangedIsEmpty(packets[1..], deviceHashes[1..], sha);
    }
  }
}
