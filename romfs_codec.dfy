/** The RomFS descriptor's binary records: the 12-byte header (version, 24-bit entry count,
    partition offset and size) and the entries (offset, size, 4-byte hash and a
    NUL-terminated name padded to four bytes), all little-endian
    (gnwmanager/romfs.py:93-170). */
module RomFsCodec {
  import opened Common

  const VERSION := 1
  const HEADER_LEN := 12
  const ENTRY_COUNT_LIMIT := 0x100_0000

  // ---- Rounding to four bytes ----

  /** `_round_up_4` as written: `4**4` binds tighter than `//`, so the sum is divided by
      256 and never multiplied back. */
  function RoundUp4AsWritten(v: nat): nat
  {
    (v + 3) / 256
  }

  /** What `_round_up_4` is meant to compute: the next multiple of four. */
  function RoundUp4(v: nat): (r: nat)
    ensures r % 4 == 0 && v <= r < v + 4
  {
    DivUnique(v + 3, 4, (v + 3) / 4, (v + 3) % 4);
    ((v + 3) / 4) * 4
  }

  /** The written rounding gives 0 for 5 where 8 is meant, and it never exceeds its input,
      so `_pad_4` never pads. */
  lemma RoundUp4AsWrittenShrinks(data: Bytes)
    ensures RoundUp4AsWritten(5) == 0 && RoundUp4(5) == 8
    ensures RoundUp4AsWritten(|data|) <= |data|
    ensures Pad4AsWritten(data) == data
  {
    if |data| >= 1 {
      DivUnique(|data| + 3, 256, (|data| + 3) / 256, (|data| + 3) % 256);
    }
  }

  /** `_pad_4` as written: the data itself when the rounding equals its length, else
      `b"\x00" * (padded - len)` appended, which is empty for a negative count. */
  function Pad4AsWritten(data: Bytes): Bytes
  {
    var padded := RoundUp4AsWritten(|data|);
    if |data| == padded then data else data + Repeat(0, Max(padded - |data|, 0))
  }

  /** `_pad_4` as intended: zeros up to the next multiple of four. */
  function Pad4(data: Bytes): (r: Bytes)
    ensures |r| % 4 == 0 && |data| <= |r| < |data| + 4
    ensures r[..|data|] == data
    ensures forall k :: |data| <= k < |r| ==> r[k] == 0
  {
    data + Repeat(0, RoundUp4(|data|) - |data|)
  }

  // ---- Header ----

  datatype Header = Header(nEntries: int, offset: int, size: int)

  /** `Header.to_bytes`: the version sits in the low byte of the first word, the entry
      count in its upper 24 bits; a count or field that does not fit makes `struct`
      raise. */
  function HeaderToBytes(h: Header): (r: Result<Bytes>)
    ensures r.Ok? <==> 0 <= h.nEntries < ENTRY_COUNT_LIMIT && 0 <= h.offset < U32_LIMIT
                       && 0 <= h.size < U32_LIMIT
    ensures r.Ok? ==> |r.value| == HEADER_LEN
    ensures r.Err? ==> r.error == StructError
  {
    var first := PackU32(h.nEntries * 256 + VERSION);
    var offset := PackU32(h.offset);
    var size := PackU32(h.size);
    if first.Ok? && offset.Ok? && size.Ok? then Ok(first.value + offset.value + size.value)
    else Err(StructError)
  }

  /** `Header.from_bytes`: three little-endian words; a low byte other than the version
      fails the assertion. */
  function HeaderFromBytes(data: Bytes, at: nat): (r: Result<Header>)
    ensures r.Ok? ==> 0 <= r.value.nEntries < ENTRY_COUNT_LIMIT && 0 <= r.value.offset < U32_LIMIT
                      && 0 <= r.value.size < U32_LIMIT
    ensures at + HEADER_LEN > |data| ==> r == Err(StructError)
  {
    if at + HEADER_LEN > |data| then Err(StructError)
    else
      var first := UnpackU32(data, at).value;
      if first % 256 != VERSION then Err(AssertionError)
      else Ok(Header(first / 256, UnpackU32(data, at + 4).value, UnpackU32(data, at + 8).value))
  }

  /** A header whose fields fit reads back unchanged, whatever follows it. */
  lemma HeaderRoundTrip(h: Header, rest: Bytes)
    requires 0 <= h.nEntries < ENTRY_COUNT_LIMIT && 0 <= h.offset < U32_LIMIT && 0 <= h.size < U32_LIMIT
    ensures HeaderToBytes(h).Ok? && HeaderFromBytes(HeaderToBytes(h).value + rest, 0) == Ok(h)
  {
    var w := h.nEntries * 256 + VERSION;
    var a, b, c := PackU32(w).value, PackU32(h.offset).value, PackU32(h.size).value;
    var d := a + b + c + rest;
    assert d == [] + a + (b + c + rest);
    PackUnpackU32At([], w, b + c + rest);
    assert d == a + b + (c + rest);
    PackUnpackU32At(a, h.offset, c + rest);
    assert d == (a + b) + c + rest;
    PackUnpackU32At(a + b, h.size, rest);
    DivUnique(w, 256, h.nEntries, VERSION);
  }

  /** A first byte other than the version is refused with the assertion. */
  lemma HeaderVersionChecked(data: Bytes, at: nat)
    requires at + HEADER_LEN <= |data| && data[at] != VERSION
    ensures HeaderFromBytes(data, at) == Err(AssertionError)
  {
    var w := UnpackU32(data, at).value;
    DivUnique(w, 256, data[at + 1] as int + 256 * data[at + 2] as int + 0x1_0000 * data[at + 3] as int,
              data[at]);
  }

  // ---- Entry ----

  /** A file of the partition; `name` is the UTF-8 encoding of its path. */
  datatype Entry = Entry(name: Bytes, offset: int, size: int, hash: Bytes)

  /** A value `struct` is asked to pack or has unpacked. */
  datatype PyValue = PyInt(i: int) | PyBytes(b: Bytes)

  /** The `hash` validator of `Entry`: exactly four bytes; `len` of an integer raises. */
  function CheckHash(hash: PyValue): (r: Result<Bytes>)
    ensures r.Ok? <==> hash.PyBytes? && |hash.b| == 4
    ensures r.Ok? ==> r.value == hash.b
    ensures hash.PyInt? ==> r == Err(TypeError)
  {
    match hash
    case PyInt(_) => Err(TypeError)
    case PyBytes(b) => if |b| == 4 then Ok(b) else Err(AssertionError)
  }

  /** Building an `Entry` runs the hash validator. */
  function NewEntry(name: Bytes, offset: int, size: int, hash: PyValue): (r: Result<Entry>)
    ensures r.Ok? <==> CheckHash(hash).Ok?
    ensures r.Ok? ==> r.value == Entry(name, offset, size, hash.b)
  {
    var h := CheckHash(hash);
    if h.Ok? then Ok(Entry(name, offset, size, h.value)) else Err(h.error)
  }

  /** `struct.pack("<I", x)`: only integers in range pack. */
  function PackValue(x: PyValue): (r: Result<Bytes>)
    ensures r.Ok? <==> x.PyInt? && 0 <= x.i < U32_LIMIT
  {
    if x.PyInt? then PackU32(x.i) else Err(StructError)
  }

  /** `struct.pack` of several `I` words: each value must pack. */
  function PackWords(xs: seq<PyValue>): (r: Result<Bytes>)
    ensures r.Ok? <==> forall k :: 0 <= k < |xs| ==> xs[k].PyInt? && 0 <= xs[k].i < U32_LIMIT
  {
    if xs == [] then Ok([])
    else
      var head := PackValue(xs[0]);
      var tail := PackWords(xs[1..]);
      if head.Ok? && tail.Ok? then Ok(head.value + tail.value) else Err(StructError)
  }

  /** The name followed by its terminator. */
  function NulTerminated(name: Bytes): Bytes { name + [0] }

  /** `Entry.to_bytes` as written: the hash is handed to `struct` as `bytes`, which the
      `I` format refuses. */
  function EntryToBytesAsWritten(e: Entry): Result<Bytes>
  {
    match PackWords([PyInt(e.offset), PyInt(e.size), PyBytes(e.hash)])
    case Ok(words) => Ok(words + Pad4AsWritten(NulTerminated(e.name)))
    case Err(err) => Err(err)
  }

  /** `Entry.from_bytes` as written: the hash comes back from `struct` as an integer, which
      the validator's `len` refuses. */
  function EntryFromBytesAsWritten(data: Bytes, at: nat): (r: Result<Entry>)
  {
    if at + 12 > |data| then Err(StructError)
    else
      var end := NameEnd(data, at + 12);
      NewEntry(data[at + 12..end], UnpackU32(data, at).value, UnpackU32(data, at + 4).value,
               PyInt(UnpackU32(data, at + 8).value))
  }

  /** Neither direction of the written entry codec succeeds on any input, while the intended
      codec below round-trips every valid entry. */
  lemma EntryCodecAsWrittenFails(e: Entry, data: Bytes, at: nat)
    ensures EntryToBytesAsWritten(e).Err?
    ensures EntryFromBytesAsWritten(data, at).Err?
  {
    var words := [PyInt(e.offset), PyInt(e.size), PyBytes(e.hash)];
    assert !words[2].PyInt?;
  }

  /** The serialized size of an entry, its name padded with the terminator. */
  function EntryLen(e: Entry): nat
  {
    12 + RoundUp4(|e.name| + 1)
  }

  /** `Entry.to_bytes` as intended: offset and size as words, the four hash bytes as they
      are, then the padded NUL-terminated name. */
  function EntryToBytes(e: Entry): (r: Result<Bytes>)
    requires |e.hash| == 4
    ensures r.Ok? <==> 0 <= e.offset < U32_LIMIT && 0 <= e.size < U32_LIMIT
    ensures r.Ok? ==> |r.value| == EntryLen(e) && |r.value| % 4 == 0
  {
    var offset := PackU32(e.offset);
    var size := PackU32(e.size);
    if offset.Ok? && size.Ok? then Ok(offset.value + size.value + e.hash + Pad4(e.name + [0]))
    else Err(StructError)
  }

  /** Index of the name's terminator: the first zero byte from `from` on, or the end. */
  function NameEnd(data: Bytes, from: nat): (r: nat)
    requires from <= |data|
    ensures from <= r <= |data|
    ensures r < |data| ==> data[r] == 0
    ensures forall k :: from <= k < r ==> data[k] != 0
    decreases |data| - from
  {
    if from == |data| || data[from] == 0 then from else NameEnd(data, from + 1)
  }

  /** `Entry.from_bytes` as intended: the hash is the four bytes after offset and size. */
  function EntryFromBytes(data: Bytes, at: nat): (r: Result<Entry>)
    ensures r.Ok? <==> at + 12 <= |data|
    ensures r.Ok? ==> |r.value.hash| == 4 && 0 <= r.value.offset < U32_LIMIT && 0 <= r.value.size < U32_LIMIT
    ensures r.Ok? ==> 0 !in r.value.name
  {
    if at + 12 > |data| then Err(StructError)
    else
      var end := NameEnd(data, at + 12);
      Ok(Entry(data[at + 12..end], UnpackU32(data, at).value, UnpackU32(data, at + 4).value,
               data[at + 8..at + 12]))
  }

  /** The name scan of `Entry.from_bytes`: advance to the terminator or the end. */
  method ScanName(data: Bytes, start: nat) returns (offset: nat)
    requires start <= |data|
    ensures offset == NameEnd(data, start)
  {
    offset := start;
    while offset < |data| && data[offset] != 0
      invariant start <= offset <= |data|
      invariant NameEnd(data, start) == NameEnd(data, offset)
    {
      offset := offset + 1;
    }
  }

  /** `Entry.from_bytes` as intended, with its scanning loop. */
  method DecodeEntry(data: Bytes, at: nat) returns (r: Result<Entry>)
    ensures r == EntryFromBytes(data, at)
  {
    if at + 12 > |data| {
      return Err(StructError);
    }
    var sectionOffset := UnpackU32(data, at).value;
    var size := UnpackU32(data, at + 4).value;
    var hash := data[at + 8..at + 12];
    var end := ScanName(data, at + 12);
    r := Ok(Entry(data[at + 12..end], sectionOffset, size, hash));
  }

  /** The terminator is found right after a name free of zero bytes. */
  lemma {:induction false} NameEndAfter(data: Bytes, from: nat, stop: nat)
    requires from <= stop < |data| && data[stop] == 0
    requires forall k :: from <= k < stop ==> data[k] != 0
    ensures NameEnd(data, from) == stop
    decreases stop - from
  {
    if from < stop {
      NameEndAfter(data, from + 1, stop);
    }
  }

  /** A valid entry whose name has no zero byte reads back unchanged, and the next record
      starts `EntryLen` bytes on. */
  lemma EntryRoundTrip(e: Entry, rest: Bytes)
    requires |e.hash| == 4 && 0 <= e.offset < U32_LIMIT && 0 <= e.size < U32_LIMIT && 0 !in e.name
    ensures EntryToBytes(e).Ok? && EntryFromBytes(EntryToBytes(e).value + rest, 0) == Ok(e)
  {
    var a, b := PackU32(e.offset).value, PackU32(e.size).value;
    var tail := Pad4(e.name + [0]);
    var d := a + b + e.hash + tail + rest;
    assert d == [] + a + (b + e.hash + tail + rest);
    PackUnpackU32At([], e.offset, b + e.hash + tail + rest);
    assert d == a + b + (e.hash + tail + rest);
    PackUnpackU32At(a, e.size, e.hash + tail + rest);
    assert d[8..12] == e.hash;
    var stop := 12 + |e.name|;
    assert tail[..|e.name| + 1] == e.name + [0];
    forall k | 12 <= k < stop ensures d[k] != 0 {
      assert d[k] == tail[k - 12] == e.name[k - 12];
    }
    assert d[stop] == tail[|e.name|] == 0;
    NameEndAfter(d, 12, stop);
    assert d[12..stop] == e.name;
  }

  /** Reading at `|prefix|` inside `prefix + data` is reading `data` at 0: entries can be
      read one after another. */
  lemma EntryFromBytesShift(prefix: Bytes, data: Bytes)
    ensures EntryFromBytes(prefix + data, |prefix|) == EntryFromBytes(data, 0)
  {
    var d := prefix + data;
    if 12 <= |data| {
      assert d[|prefix|..] == data;
      UnpackU32Shift(d, |prefix|);
      UnpackU32Shift(d, |prefix| + 4);
      assert d[|prefix| + 4..] == data[4..];
      UnpackU32Shift(data, 4);
      NameEndShift(prefix, data, 12);
      assert d[|prefix| + 8..|prefix| + 12] == data[8..12];
      assert d[|prefix| + 12..|prefix| + NameEnd(data, 12)] == data[12..NameEnd(data, 12)];
    }
  }

  lemma {:induction false} NameEndShift(prefix: Bytes, data: Bytes, from: nat)
    requires from <= |data|
    ensures NameEnd(prefix + data, |prefix| + from) == |prefix| + NameEnd(data, from)
    decreases |data| - from
  {
    if from < |data| && data[from] != 0 {
      assert (prefix + data)[|prefix| + from] == data[from];
      NameEndShift(prefix, data, from + 1);
    } else if from < |data| {
      assert (prefix + data)[|prefix| + from] == data[from];
    }
  }
}
