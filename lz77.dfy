/** The LZ77 decoder for the compressed initialised-data tables of the stock firmware
    (`lz77_decompress` in gnwmanager/cli/gnw_patch/compression.py). Reading past the end
    of the input, or copying from before the start of the output, raises `IndexError`. */
module Lz77 {
  import opened Common

  /** The three fields of an opcode byte: `op & 3`, `(op >> 2) & 3` and `op >> 4`. */
  datatype Opcode = Opcode(direct: nat, offset256: nat, pattern: nat)

  function SplitOpcode(op: byte): (r: Opcode)
    ensures r.direct < 4 && r.offset256 < 4 && r.pattern < 16
  {
    Opcode(op % 4, (op / 4) % 4, op / 16)
  }

  /** The three fields put back together give the opcode byte. */
  lemma SplitOpcodeJoins(op: byte)
    ensures var r := SplitOpcode(op);
      op == r.direct + 4 * r.offset256 + 16 * r.pattern
  {
    var q := op / 4;
    DivUnique(q, 4, op / 16, q % 4);
  }

  /** The bits of an opcode determine its fields uniquely. */
  lemma SplitOpcodeUnique(d: nat, o: nat, p: nat)
    requires d < 4 && o < 4 && p < 16
    ensures SplitOpcode(d + 4 * o + 16 * p) == Opcode(d, o, p)
  {
    var op := d + 4 * o + 16 * p;
    DivUnique(op, 16, p, d + 4 * o);
    DivUnique(op, 4, o + 4 * p, d);
    DivUnique(o + 4 * p, 4, p, o);
  }

  /** What the bytes at the start of an opcode say: the literal count (the direct length
      minus one), the pattern length before the `+ 2`, the two offset bits, and where the
      literals start. */
  datatype Header = Header(literals: nat, patternLen: nat, offset256: nat, next: nat)

  /** The opcode byte, then a length byte when the direct length is 0, then a length
      byte when the pattern length is 15. */
  function ReadHeader(data: Bytes, index: nat): (r: Result<Header>)
    requires index < |data|
    ensures r.Ok? ==> index < r.value.next <= |data| && r.value.offset256 < 4
    ensures r.Err? ==> r.error == IndexError
  {
    var op := SplitOpcode(data[index]);
    var i := index + 1;
    if op.direct == 0 && i >= |data| then Err(IndexError)
    else
      var literals: nat := if op.direct == 0 then data[i] + 2 else op.direct - 1;
      var j := if op.direct == 0 then i + 1 else i;
      if op.pattern == 15 && j >= |data| then Err(IndexError)
      else if op.pattern == 15 then Ok(Header(literals, 15 + data[j] as int, op.offset256, j + 1))
      else Ok(Header(literals, op.pattern, op.offset256, j))
  }

  /** The low offset byte, then a high byte when the two offset bits are 3; the offset is
      `offset_add + offset_256 * 256`. */
  function ReadOffset(data: Bytes, i: nat, offset256: nat): (r: Result<(nat, nat)>)
    ensures r.Ok? ==> i < r.value.1 <= |data|
    ensures r.Ok? ==> r.value.0 < 0x1_0000
    ensures r.Err? ==> r.error == IndexError
  {
    if i >= |data| then Err(IndexError)
    else if offset256 == 3 then
      if i + 1 >= |data| then Err(IndexError) else Ok((data[i] as int + data[i + 1] as int * 256, i + 2))
    else if offset256 < 3 then Ok((data[i] + offset256 * 256, i + 1))
    else Ok((data[i], i + 1))
  }

  /** Python's `out[-offset]` for `offset >= 0`: `-0` is index 0. */
  predicate BackRefValid(out: Bytes, offset: nat)
  {
    if offset == 0 then |out| > 0 else offset <= |out|
  }

  function BackRef(out: Bytes, offset: nat): (r: byte)
    requires BackRefValid(out, offset)
  {
    if offset == 0 then out[0] else out[|out| - offset]
  }

  /** `for _ in range(n): out.append(out[-offset])`: the copy may overlap the bytes it
      appends. */
  function PatternCopy(out: Bytes, offset: nat, n: nat): (r: Result<Bytes>)
    ensures r.Ok? ==> |r.value| == |out| + n && r.value[..|out|] == out
    ensures r.Err? ==> r.error == IndexError
    decreases n
  {
    if n == 0 then Ok(out)
    else if !BackRefValid(out, offset) then Err(IndexError)
    else
      var next := out + [BackRef(out, offset)];
      var r := PatternCopy(next, offset, n - 1);
      assert r.Ok? ==> r.value[..|out|] == r.value[..|next|][..|out|];
      r
  }

  /** One opcode: its literal run, then its back-reference copy. Returns the index after
      the opcode and the output so far. */
  function Step(data: Bytes, index: nat, out: Bytes): (r: Result<(nat, Bytes)>)
    requires index < |data|
    ensures r.Ok? ==> index < r.value.0 <= |data|
    ensures r.Ok? ==> |out| <= |r.value.1| && r.value.1[..|out|] == out
    ensures r.Err? ==> r.error == IndexError
  {
    var h := ReadHeader(data, index);
    if h.Err? then Err(h.error)
    else if h.value.next + h.value.literals > |data| then Err(IndexError)
    else
      var i := h.value.next + h.value.literals;
      var out' := out + data[h.value.next..i];
      if h.value.patternLen == 0 then Ok((i, out'))
      else
        var off := ReadOffset(data, i, h.value.offset256);
        if off.Err? then Err(off.error)
        else
          var copied := PatternCopy(out', off.value.0, h.value.patternLen + 2);
          if copied.Err? then Err(copied.error)
          else
            assert copied.value[..|out|] == copied.value[..|out'|][..|out|];
            Ok((off.value.1, copied.value))
  }

  /** Decoding from `index` with `out` produced so far, one opcode at a time. */
  function Decode(data: Bytes, index: nat, out: Bytes): (r: Result<Bytes>)
    ensures r.Ok? ==> |out| <= |r.value| && r.value[..|out|] == out
    decreases |data| - index
  {
    if index >= |data| then Ok(out)
    else
      var s := Step(data, index, out);
      if s.Err? then Err(s.error)
      else
        var r := Decode(data, s.value.0, s.value.1);
        assert r.Ok? ==> r.value[..|out|] == r.value[..|s.value.1|][..|out|];
        r
  }

  /** The direct-copy loop: `direct_len` bytes from `data[index]` on are appended. */
  method CopyLiterals(data: Bytes, index: nat, literals: nat, out: Bytes)
    returns (r: Result<(nat, Bytes)>)
    requires index <= |data|
    ensures r == if index + literals > |data| then Err(IndexError)
                 else Ok((index + literals, out + data[index..index + literals]))
  {
    var i := index;
    var acc := out;
    var n := 0;
    while n < literals
      invariant 0 <= n <= literals && i == index + n
      invariant i <= |data| && acc == out + data[index..i]
    {
      if i >= |data| { return Err(IndexError); }
      acc := acc + [data[i]];
      i := i + 1;
      n := n + 1;
    }
    return Ok((i, acc));
  }

  /** The pattern loop: `n` bytes are appended, each copied from `offset` back. */
  method CopyPattern(out: Bytes, offset: nat, n: nat) returns (r: Result<Bytes>)
    ensures r == PatternCopy(out, offset, n)
  {
    var acc := out;
    var m := 0;
    while m < n
      invariant 0 <= m <= n
      invariant PatternCopy(out, offset, n) == PatternCopy(acc, offset, n - m)
    {
      if !BackRefValid(acc, offset) { return Err(IndexError); }
      acc := acc + [BackRef(acc, offset)];
      m := m + 1;
    }
    return Ok(acc);
  }

  /** The opcode parsing at the top of the loop body. */
  method ReadOpcode(data: Bytes, index: nat) returns (r: Result<Header>)
    requires index < |data|
    ensures r == ReadHeader(data, index)
  {
    var op := SplitOpcode(data[index]);
    var i := index + 1;
    var literals: nat;
    if op.direct == 0 {
      if i >= |data| { return Err(IndexError); }
      literals := data[i] as int + 2;
      i := i + 1;
    } else {
      literals := op.direct - 1;
    }
    var patternLen: nat := op.pattern;
    if op.pattern == 15 {
      if i >= |data| { return Err(IndexError); }
      patternLen := patternLen + data[i] as int;
      i := i + 1;
    }
    return Ok(Header(literals, patternLen, op.offset256, i));
  }

  /** The offset bytes read before a pattern copy. */
  method ReadPatternOffset(data: Bytes, index: nat, offset256: nat) returns (r: Result<(nat, nat)>)
    requires offset256 < 4
    ensures r == ReadOffset(data, index, offset256)
  {
    var i := index;
    if i >= |data| { return Err(IndexError); }
    var offsetAdd := data[i];
    i := i + 1;
    var high := offset256;
    if offset256 == 3 {
      if i >= |data| { return Err(IndexError); }
      high := data[i];
      i := i + 1;
    }
    return Ok((offsetAdd as int + high * 256, i));
  }

  /** `lz77_decompress`: the result is the specification `Decode` of the whole input. */
  method Decompress(data: Bytes) returns (r: Result<Bytes>)
    ensures r == Decode(data, 0, [])
  {
    var index: nat := 0;
    var out: Bytes := [];
    while index < |data|
      invariant index <= |data|
      invariant Decode(data, 0, []) == Decode(data, index, out)
      decreases |data| - index
    {
      ghost var start, before := index, out;
      var h := ReadOpcode(data, index);
      if h.Err? { return Err(h.error); }
      var lit := CopyLiterals(data, h.value.next, h.value.literals, out);
      if lit.Err? { return Err(lit.error); }
      index, out := lit.value.0, lit.value.1;
      if h.value.patternLen > 0 {
        var off := ReadPatternOffset(data, index, h.value.offset256);
        if off.Err? { return Err(off.error); }
        var copied := CopyPattern(out, off.value.0, h.value.patternLen + 2);
        if copied.Err? { return Err(copied.error); }
        index, out := off.value.1, copied.value;
      }
      assert Step(data, start, before) == Ok((index, out));
    }
    return Ok(out);
  }

  // ---- A literal-only encoder, the decoder's partner ----

  /** The longest literal run one opcode carries: a length byte of 255 plus 3, minus 1. */
  const MAX_RUN: nat := 257

  /** An opcode that copies `run` literals (1 to 257) and no pattern: runs of one or two
      fit in the opcode, longer ones take a length byte. */
  function LiteralHeader(run: nat): (h: Bytes)
    requires 1 <= run <= MAX_RUN
  {
    if run <= 2 then [run + 1] else [0, run - 2]
  }

  /** The input cut into runs of at most 257 literals. */
  function EncodeLiterals(x: Bytes): Bytes
    decreases |x|
  {
    if x == [] then []
    else
      var run := Min(|x|, MAX_RUN);
      LiteralHeader(run) + x[..run] + EncodeLiterals(x[run..])
  }

  /** One turn of the decoding loop. */
  lemma DecodeUnfold(data: Bytes, index: nat, out: Bytes)
    requires index < |data|
    ensures var s := Step(data, index, out);
      Decode(data, index, out) == if s.Err? then Err(s.error) else Decode(data, s.value.0, s.value.1)
  {
  }

  /** One literal run, wherever it sits in the input, decodes to its bytes and stops right
      after them. */
  lemma LiteralStep(data: Bytes, at: nat, x: Bytes, out: Bytes)
    requires 1 <= |x| <= MAX_RUN
    requires at + |LiteralHeader(|x|)| + |x| <= |data|
    requires data[at..at + |LiteralHeader(|x|)| + |x|] == LiteralHeader(|x|) + x
    ensures Step(data, at, out) == Ok((at + |LiteralHeader(|x|)| + |x|, out + x))
  {
    var h := LiteralHeader(|x|);
    var end := at + |h| + |x|;
    assert data[at] == data[at..end][0] == h[0];
    assert data[at + |h|..end] == data[at..end][|h|..] == x;
    if |x| <= 2 {
      SplitOpcodeUnique(|x| + 1, 0, 0);
      assert ReadHeader(data, at) == Ok(Header(|x|, 0, 0, at + 1));
    } else {
      SplitOpcodeUnique(0, 0, 0);
      assert data[at + 1] == data[at..end][1] == |x| - 2;
      assert ReadHeader(data, at) == Ok(Header(|x|, 0, 0, at + 2));
    }
  }

  /** The first run of the literal-only encoding decodes to its bytes and leaves the
      decoder at the encoding of the rest. */
  lemma LiteralsFirstRun(data: Bytes, at: nat, x: Bytes, out: Bytes) returns (next: nat, out': Bytes)
    requires x != [] && at <= |data| && data[at..] == EncodeLiterals(x)
    ensures next <= |data| && data[next..] == EncodeLiterals(x[Min(|x|, MAX_RUN)..])
    ensures |x[Min(|x|, MAX_RUN)..]| < |x|
    ensures out' == out + x[..Min(|x|, MAX_RUN)]
    ensures Decode(data, at, out) == Decode(data, next, out')
  {
    var run := Min(|x|, MAX_RUN);
    var h := LiteralHeader(run);
    next := at + |h| + run;
    out' := out + x[..run];
    assert |x[..run]| == run;
    assert EncodeLiterals(x) == h + x[..run] + EncodeLiterals(x[run..]);
    assert data[at..next] == data[at..][..next - at] == h + x[..run];
    assert data[next..] == data[at..][next - at..];
    LiteralStep(data, at, x[..run], out);
    DecodeUnfold(data, at, out);
  }

  /** The literal-only encoding decodes to its input, wherever it sits in the input. */
  lemma {:induction false} LiteralsDecode(data: Bytes, at: nat, x: Bytes, out: Bytes)
    requires at <= |data| && data[at..] == EncodeLiterals(x)
    ensures Decode(data, at, out) == Ok(out + x)
    decreases |x|
  {
    if x == [] {
      LiteralsEnd(data, at, out);
    } else {
      var next, out' := LiteralsFirstRun(data, at, x, out);
      LiteralsDecode(data, next, x[Min(|x|, MAX_RUN)..], out');
      AppendSplit(out, x, Min(|x|, MAX_RUN));
    }
  }

  lemma AppendSplit(a: Bytes, x: Bytes, k: nat)
    requires k <= |x|
    ensures a + x[..k] + x[k..] == a + x
  {
    assert x[..k] + x[k..] == x;
  }

  lemma LiteralsEnd(data: Bytes, at: nat, out: Bytes)
    requires at <= |data| && data[at..] == EncodeLiterals([])
    ensures Decode(data, at, out) == Ok(out + [])
  {
    assert |data[at..]| == 0;
    assert out + [] == out;
  }

  /** Round trip: the literal-only encoding decodes to the input. */
  lemma LiteralRoundTrip(x: Bytes, out: Bytes)
    ensures Decode(EncodeLiterals(x), 0, out) == Ok(out + x)
  {
    var enc := EncodeLiterals(x);
    assert enc[0..] == enc;
    LiteralsDecode(enc, 0, x, out);
  }

  /** A back-reference at distance one repeats the last byte: run-length expansion. */
  lemma {:induction false} PatternRepeatsLast(out: Bytes, n: nat)
    requires |out| > 0
    ensures PatternCopy(out, 1, n) == Ok(out + Repeat(out[|out| - 1], n))
    decreases n
  {
    var c := out[|out| - 1];
    if n > 0 {
      var next := out + [c];
      assert BackRef(out, 1) == c;
      PatternRepeatsLast(next, n - 1);
      assert next[|next| - 1] == c;
      assert next + Repeat(c, n - 1) == out + Repeat(c, n);
    } else {
      assert out + Repeat(c, 0) == out;
    }
  }
}
