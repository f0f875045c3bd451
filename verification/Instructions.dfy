/** What the engine's single instructions mean: symbols spread over registers, FIFO words,
    memory words, unary runs and restored signs. */
module Instructions {
  import opened Common
  import opened Arithmetic
  import opened BitStream
  import opened Isa
  import opened Memory
  import opened Transport
  import opened Machine
  import opened Primitives
  import R = Reservoir
  import B = BitReader
  import N = Entropy

  /** The two registers of HUFF_PAIR spell the low byte of the symbol. */
  lemma PairSpells(dst: nat, symbol: nat)
    ensures var w := Spread(HUFF_PAIR, dst, symbol);
      w.Keys == {dst, dst + 1} && 0 <= w[dst] < 16 && 0 <= w[dst + 1] < 16 && 16 * w[dst] + w[dst + 1] == symbol % 256
  {
    DivDiv(symbol, 16, 16);
  }

  /** The four registers of HUFF_QUAD spell the low four bits of the symbol. */
  lemma QuadSpells(dst: nat, symbol: nat)
    ensures var w := Spread(HUFF_QUAD, dst, symbol);
      && w.Keys == {dst, dst + 1, dst + 2, dst + 3}
      && 8 * w[dst] + 4 * w[dst + 1] + 2 * w[dst + 2] + w[dst + 3] == symbol % 16
      && 0 <= w[dst] < 2 && 0 <= w[dst + 1] < 2 && 0 <= w[dst + 2] < 2 && 0 <= w[dst + 3] < 2
  {
    DivDiv(symbol, 2, 2);
    DivDiv(symbol, 4, 2);
    DivDiv(symbol, 8, 2);
  }

  /** The registers written spell the symbol: whole, its low byte in two halves, or its
      low four bits one by one, most significant first. */
  predicate Spells(opcode: nat, dst: nat, symbol: nat, writes: map<nat, int>) {
    if opcode == HUFF_SYMBOL then writes == map[dst := symbol]
    else if opcode == HUFF_PAIR then
      && writes.Keys == {dst, dst + 1} && 0 <= writes[dst] < 16 && 0 <= writes[dst + 1] < 16
      && 16 * writes[dst] + writes[dst + 1] == symbol % 256
    else
      && writes.Keys == {dst, dst + 1, dst + 2, dst + 3}
      && 8 * writes[dst] + 4 * writes[dst + 1] + 2 * writes[dst + 2] + writes[dst + 3] == symbol % 16
      && 0 <= writes[dst] < 2 && 0 <= writes[dst + 1] < 2 && 0 <= writes[dst + 2] < 2 && 0 <= writes[dst + 3] < 2
  }

  lemma SpreadSpells(opcode: nat, dst: nat, symbol: nat)
    requires opcode <= HUFF_QUAD
    ensures Spells(opcode, dst, symbol, Spread(opcode, dst, symbol))
  {
    if opcode == HUFF_PAIR {
      PairSpells(dst, symbol);
    } else if opcode == HUFF_QUAD {
      QuadSpells(dst, symbol);
    }
  }

  /** The instruction reads this table, in canonical order. */
  ghost predicate ReadsTable(i: Instruction, r: Registers, e: Entry, m: Memory, rows: seq<N.Row>) {
    && i.opcode <= HUFF_QUAD && 1 <= Reg(r, i.src1) <= 4096 && N.Canonical(rows, i.aux)
    && ReadRows(m, e.tableOffset + Reg(r, i.src0), Reg(r, i.src1), e) == Ok(rows)
  }

  /** One Huffman instruction on a code of the table: the registers spell its symbol and
      exactly the code is consumed. */
  lemma HuffmanDecodes(i: Instruction, r: Registers, e: Entry, p: Prims, rows: seq<N.Row>, k: nat, tail: seq<bit>)
    requires ReadsTable(i, r, e, p.memory, rows) && k < |rows| && N.CodeOf(rows, k) < Pow2(rows[k].length)
    requires R.Stream(p.input) == N.CodeBits(rows, k) + tail
    ensures var (input, answer) := EntropyStep(i, r, e, p);
      answer.Ok? && Spells(i.opcode, i.dst, rows[k].symbol, answer.value) && R.Stream(input) == tail
  {
    hide R.Stream, ReadRows, Spread, Spells, N.DecodeSymbol, N.CodeOf, N.CodeBits, Pow2;
    N.SymbolRoundTrip(p.input, rows, i.aux, k, tail);
    SpreadSpells(i.opcode, i.dst, rows[k].symbol);
  }

  /** The registers written by `count` executions of the instruction. */
  function Repeated(i: Instruction, r: Registers, e: Entry, p: Prims, count: nat): (Prims, Result<seq<map<nat, int>>,
    Fault>)
    decreases count
  {
    if count == 0 then (p, Ok([]))
    else
      var (input, answer) := EntropyStep(i, r, e, p);
      var p' := p.(input := input);
      if answer.Err? then (p', Err(answer.error))
      else
        var (last, answers) := Repeated(i, r, e, p', count - 1);
        (last, if answers.Err? then answers else Ok([answer.value] + answers.value))
  }

  /** Executed once per symbol of a coded message, a Huffman instruction spells the
      message's symbols in order and consumes exactly its bits. */
  lemma {:induction false} HuffmanMessage(
    i: Instruction, r: Registers, e: Entry, p: Prims, rows: seq<N.Row>, message: seq<nat>, tail: seq<bit>)
    requires ReadsTable(i, r, e, p.memory, rows)
    requires forall j :: 0 <= j < |message| ==> message[j] < |rows|
    requires forall j :: 0 <= j < |message| ==> N.CodeOf(rows, message[j]) < Pow2(rows[message[j]].length)
    requires R.Stream(p.input) == N.MessageBits(rows, message) + tail
    ensures var (last, answers) := Repeated(i, r, e, p, |message|);
      && R.Stream(last.input) == tail && answers.Ok? && |answers.value| == |message|
      && forall j :: 0 <= j < |message| ==> Spells(i.opcode, i.dst, rows[message[j]].symbol, answers.value[j])
    decreases |message|
  {
    hide R.Stream, EntropyStep, Spells, N.CodeOf, N.CodeBits, Pow2;
    if message == [] {
      assert N.MessageBits(rows, message) + tail == tail;
    } else {
      var after := N.MessageBits(rows, message[1..]) + tail;
      assert N.MessageBits(rows, message) + tail == N.CodeBits(rows, message[0]) + after;
      HuffmanDecodes(i, r, e, p, rows, message[0], after);
      HuffmanMessage(i, r, e, p.(input := EntropyStep(i, r, e, p).0), rows, message[1..], tail);
    }
  }

  lemma HalfWithin(a: nat, b: nat)
    requires BitsWithin(a, b)
    ensures BitsWithin(a / 2, b / 2)
  {
  }

  /** A sideband word is its byte count and its last flag. */
  lemma SidebandFields(metadata: word)
    requires SidebandOk(metadata)
    ensures metadata == metadata % 8 + 0x100 * (metadata / 0x100 % 2)
  {
    hide BitsWithin;
    HalfWithin(metadata, 0x107);
    HalfWithin(metadata / 2, 0x83);
    HalfWithin(metadata / 2 / 2, 0x41);
    Eighth(metadata);
    assert Pow2(5) == 0x20;
    OnlyBit(metadata / 8, 5);
    FlagAlone(metadata);
  }

  lemma Eighth(n: nat)
    ensures n / 2 / 2 / 2 == n / 8
  {
  }

  lemma FlagAlone(n: nat)
    requires n / 8 == 0 || n / 8 == 0x20
    ensures n == n % 8 + 0x100 * (n / 0x100 % 2)
  {
  }

  /** A number within one bit is that bit or zero. */
  lemma {:induction false} OnlyBit(n: nat, k: nat)
    requires BitsWithin(n, Pow2(k))
    ensures n == 0 || n == Pow2(k)
    decreases k
  {
    if k == 0 {
      if n > 1 {
        NothingWithin(n / 2);
      }
    } else if n != 0 {
      OnlyBit(n / 2, k - 1);
    }
  }

  lemma NothingWithin(n: nat)
    requires BitsWithin(n, 0)
    ensures n == 0
    decreases n
  {
    if n != 0 {
      NothingWithin(n / 2);
    }
  }

  /** The word FIFO_PUSH stores. */
  function Stored(data: word, metadata: word): nat {
    data as int + R.COUNT_UNIT * (metadata % 8) + R.LAST_UNIT * (metadata / 0x100 % 2)
  }

  lemma StoredFields(data: word, metadata: word)
    requires SidebandOk(metadata)
    ensures var word := Stored(data, metadata);
      && word < 0x200_0000_0000 && word % R.COUNT_UNIT == data
      && R.WordCount(word) == metadata % 8 && R.WordLast(word) == (metadata / 0x100 % 2 == 1) && R.WordOk(word)
  {
    hide BitsWithin;
    var count, last := metadata % 8, metadata / 0x100 % 2;
    var word := Stored(data, metadata);
    DivModUnique(word, R.COUNT_UNIT, count + 0x100 * last, data);
    DivModUnique(count + 0x100 * last, 8, 0x20 * last, count);
    DivModUnique(word, R.LAST_UNIT, last, data + R.COUNT_UNIT * count);
    DivModUnique(word, 0x8_0000_0000, 0x20 * last, data + R.COUNT_UNIT * count);
    DivModUnique(0x20 * last, 0x20, last, 0);
  }

  /** A word pushed with FIFO_PUSH and read with FIFO_POP gives back data and sideband. */
  lemma PushThenPop(push: Instruction, pop: Instruction, r: Registers, e: Entry, p: Prims, q: Prims)
    requires push.opcode == FIFO_PUSH && pop.opcode == FIFO_POP
    requires LocalStep(push, r, e, p).Executed?
    requires q.input.words != [] && q.input.words[0] == LocalStep(push, r, e, p).prims.outputFifo[|p.outputFifo|]
    ensures var result := LocalStep(pop, r, e, q);
      && result.Executed? && result.prims.input.words == q.input.words[1..]
      && result.writes == map[pop.dst := Reg(r, push.src0) as int, pop.dst + 1 := Reg(r, push.src1) as int]
    ensures LocalStep(push, r, e, p).prims
      == p.(outputFifo := p.outputFifo + [Stored(Reg(r, push.src0), Reg(r, push.src1))])
  {
    hide BitsWithin, R.WordCount, R.WordLast, R.WordOk, Read, Write;
    StoredFields(Reg(r, push.src0), Reg(r, push.src1));
    SidebandFields(Reg(r, push.src1));
  }

  /** A stored word is loaded back from the same address. */
  lemma StoreThenLoad(store: Instruction, load: Instruction, r: Registers, e: Entry, p: Prims)
    requires store.opcode == ST32 && load.opcode == LD32 && WordAddress(load, r, e) == WordAddress(store, r, e)
    requires LocalStep(store, r, e, p).Executed?
    ensures var after := LocalStep(store, r, e, p).prims;
      LocalStep(load, r, e, after) == Executed(after, map[load.dst := Reg(r, store.src1) as int])
  {
    hide FromLittleEndian, WordBytesLE;
    var address, bytes := WordAddress(store, r, e), WordBytesLE(Reg(r, store.src1));
    var after := LocalStep(store, r, e, p).prims;
    WordOfBytes(Reg(r, store.src1));
    assert after.memory.data[address..address + 4] == bytes;
    assert WordsValid(after.memory, address, 4);
  }

  function Run(polarity: bit, n: nat): (run: seq<bit>)
    ensures |run| == n
  {
    seq(n, _ => polarity)
  }

  /** UNARY counts the bits equal to the polarity and consumes the bit that ends them. */
  lemma {:induction false} UnaryCounts(input: R.Reservoir, polarity: bit, run: nat, limit: nat, n: nat, tail: seq<bit>)
    requires R.Stream(input) == Run(polarity, n) + [1 - polarity] + tail
    ensures var (after, result) := Unary(input, polarity, run, limit);
      && (run + n <= limit ==> result == Ok(run + n) && R.Stream(after) == tail)
      && (run + n > limit ==> result == Err(N.BAD_CODE))
    decreases n
  {
    hide R.Get, R.Stream;
    if run <= limit {
      var stream := R.Stream(input);
      R.GetReadsStream(input, 1);
      FirstBit(stream);
      var next := R.Get(input, 1).0;
      assert R.Stream(next) == stream[1..];
      if n == 0 {
        assert stream == [1 - polarity] + tail;
      } else {
        assert stream[0] == polarity && stream[1..] == Run(polarity, n - 1) + [1 - polarity] + tail;
        UnaryCounts(next, polarity, run + 1, limit, n - 1, tail);
      }
    }
  }

  lemma FirstBit(stream: seq<bit>)
    requires stream != []
    ensures Take(stream, 1) == Some((stream[0] as nat, stream[1..]))
  {
    B.SingleBit(stream);
  }

  /** SIGN_RESTORE adds the extra bits to a non-zero magnitude and applies the sign bit. */
  lemma SignRestored(magnitude: word, linbits: nat, input: R.Reservoir, extra: nat, sign: bit, tail: seq<bit>)
    requires magnitude != 0 && extra < Pow2(linbits) && R.Stream(input) == NatBits(extra, linbits) + ([sign] + tail)
    ensures var (after, result) := SignRestore(magnitude, linbits, input);
      && result == Ok(ToWord(if sign == 1 then -(magnitude as int + extra) else magnitude as int + extra))
      && R.Stream(after) == tail
  {
    hide R.Get, R.Stream, NatBits, Pow2;
    var stream := R.Stream(input);
    R.GetReadsStream(input, linbits);
    assert stream[..linbits] == NatBits(extra, linbits) && stream[linbits..] == [sign] + tail;
    ValueOfNat(extra, linbits);
    DivModUnique(extra, Pow2(linbits), 0, extra);
    assert Take(stream, linbits) == Some((extra, [sign] + tail));
    var more := R.Get(input, linbits).0;
    assert R.Stream(more) == [sign] + tail;
    R.GetReadsStream(more, 1);
    FirstBit([sign] + tail);
    assert ([sign] + tail)[1..] == tail && ([sign] + tail)[0] == sign;
    assert R.Get(input, linbits).1 == Some(extra);
    assert R.Get(more, 1).1 == Some(sign as nat);
    assert R.Stream(R.Get(more, 1).0) == tail;
  }
}
