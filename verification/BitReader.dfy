/** The codec's byte-wise bit reader, and the proof that it and the engine's bit
    reservoir read the same stream. */
module BitReader {
  import opened Common
  import opened BitStream
  import R = Reservoir

  /** A codec failure: result code, stage and reason. */
  datatype Error = Error(code: nat, stage: nat, reason: nat)

  const TRUNCATED: Error := Error(5, 5, 0x20)
  const RUN_TOO_LONG: Error := Error(3, 5, 0x04)
  const NONZERO_PADDING: Error := Error(4, 4, 0x19)

  type Parsed<T> = Result<(T, seq<bit>), Error>

  // ---------------------------------------------------------------- Specification

  function GetBits(rest: seq<bit>, width: nat): Parsed<nat> {
    if |rest| < width then Err(TRUNCATED) else Ok((Value(rest[..width]), rest[width..]))
  }

  /** Two's complement of the given width. */
  function SignExtend(value: nat, width: nat): int
    requires width >= 1
  {
    if value / Pow2(width - 1) % 2 == 1 then value - Pow2(width) else value
  }

  function GetSigned(rest: seq<bit>, width: nat): Parsed<int>
    requires width >= 1
  {
    match GetBits(rest, width)
    case Err(e) => Err(e)
    case Ok((value, after)) => Ok((SignExtend(value, width), after))
  }

  /** Counts zeros up to the terminating one. */
  function GetUnary(rest: seq<bit>, count: nat, limit: nat): Parsed<nat>
    decreases |rest|
  {
    if rest == [] then Err(TRUNCATED)
    else if rest[0] == 1 then Ok((count, rest[1..]))
    else if count + 1 > limit then Err(RUN_TOO_LONG)
    else GetUnary(rest[1..], count + 1, limit)
  }

  /** Padding up to the next byte boundary must be zero. */
  function AlignZero(rest: seq<bit>, position: nat): Result<seq<bit>, Error>
    decreases (8 - position % 8) % 8
  {
    if position % 8 == 0 then Ok(rest)
    else if rest == [] then Err(TRUNCATED)
    else if rest[0] != 0 then Err(NONZERO_PADDING)
    else AlignZero(rest[1..], position + 1)
  }

  // ---------------------------------------------------------------- The reader

  /** The result of a read, and what is left of the stream after it. */
  ghost predicate Delivers<T(!new)>(expected: Parsed<T>, actual: Result<T, Error>, rest: seq<bit>) {
    match expected
    case Ok((value, after)) => actual == Ok(value) && rest == after
    case Err(e) => actual == Err(e)
  }

  class Reader {
    const data: seq<byte>
    var bit: nat

    ghost predicate Valid()
      reads this
    {
      bit <= 8 * |data|
    }

    ghost function Rest(): seq<bit>
      requires Valid()
      reads this
    {
      Bits(data)[bit..]
    }

    constructor (bytes: seq<byte>, offset: nat)
      requires offset <= |bytes|
      ensures Valid() && data == bytes && bit == 8 * offset && Rest() == Bits(bytes)[8 * offset..]
    {
      data, bit := bytes, 8 * offset;
    }

    /** Reads byte-sized pieces; the value is the bits read, most significant first. */
    method Get(width: nat) returns (r: Result<nat, Error>)
      requires Valid()
      modifies this
      ensures Valid() && Delivers(GetBits(old(Rest()), width), r, Rest())
      ensures bit == if r.Ok? then old(bit) + width else old(bit)
    {
      hide Bits, Value, NatBits;
      if bit + width > 8 * |data| {
        return Err(TRUNCATED);
      }
      ghost var start := bit;
      var value := 0;
      var remaining := width;
      assert Bits(data)[start..bit] == [];
      ValueNil();
      while remaining > 0
        invariant 0 <= remaining <= width && bit == start + width - remaining && bit + remaining <= 8 * |data|
        invariant value == Value(Bits(data)[start..bit])
      {
        var offset := bit % 8;
        var take := Min(remaining, 8 - offset);
        var shift := 8 - offset - take;
        StreamField(data, bit / 8, offset, take);
        Extend(Bits(data), start, bit, take);
        value := value * Pow2(take) + (data[bit / 8] / Pow2(shift)) % Pow2(take);
        bit := bit + take;
        remaining := remaining - take;
      }
      assert Bits(data)[start..bit] == old(Rest())[..width];
      assert Rest() == old(Rest())[width..];
      r := Ok(value);
    }

    method GetSignedBits(width: nat) returns (r: Result<int, Error>)
      requires Valid() && width >= 1
      modifies this
      ensures Valid() && Delivers(GetSigned(old(Rest()), width), r, Rest())
    {
      var raw := Get(width);
      match raw
      case Err(e) => r := Err(e);
      case Ok(value) => r := Ok(if value / Pow2(width - 1) % 2 == 1 then value - Pow2(width) else value);
    }

    method UnaryZeros(limit: nat) returns (r: Result<nat, Error>)
      requires Valid()
      modifies this
      ensures Valid() && Delivers(GetUnary(old(Rest()), 0, limit), r, Rest())
    {
      var count := 0;
      ghost var goal := GetUnary(Rest(), 0, limit);
      while true
        invariant Valid() && GetUnary(Rest(), count, limit) == goal
        decreases 8 * |data| - bit
      {
        ghost var rest := Rest();
        var next := Get(1);
        if next.Err? {
          return Err(next.error);
        }
        SingleBit(rest);
        if next.value == 1 {
          return Ok(count);
        }
        count := count + 1;
        if count > limit {
          return Err(RUN_TOO_LONG);
        }
      }
    }

    method Align() returns (r: Result<(), Error>)
      requires Valid()
      modifies this
      ensures Valid()
      ensures match AlignZero(old(Rest()), old(bit))
        case Ok(after) => r.Ok? && Rest() == after && bit % 8 == 0
        case Err(e) => r == Err(e)
    {
      ghost var goal := AlignZero(Rest(), bit);
      while bit % 8 != 0
        invariant Valid() && AlignZero(Rest(), bit) == goal
        decreases 8 * |data| - bit
      {
        ghost var rest := Rest();
        var next := Get(1);
        if next.Err? {
          return Err(next.error);
        }
        SingleBit(rest);
        if next.value != 0 {
          return Err(NONZERO_PADDING);
        }
      }
      r := Ok(());
    }
  }

  lemma ValueNil()
    ensures Value([]) == 0
  {
  }

  lemma SingleBit(rest: seq<bit>)
    requires rest != []
    ensures Value(rest[..1]) == rest[0]
  {
    assert rest[..1][..0] == [];
  }

  lemma Extend(bits: seq<bit>, start: nat, middle: nat, take: nat)
    requires start <= middle && middle + take <= |bits|
    ensures Value(bits[start..middle + take])
      == Value(bits[start..middle]) * Pow2(take) + Value(bits[middle..middle + take])
  {
    assert bits[start..middle + take] == bits[start..middle] + bits[middle..middle + take];
    ValueAppend(bits[start..middle], bits[middle..middle + take]);
  }

  // ---------------------------------------------------------------- Reservoir against reader

  /** What the engine does to its reservoir: the transport pushes up to four further
      bytes, and instructions read. */
  datatype Op =
    | OpPush(data: seq<byte>, last: bool)
    | OpGet(width: nat)
    | OpPeek(width: nat)
    | OpSkip(width: nat)
    | OpAlign

  /** A reader as a value: the bits that have arrived and the cursor. */
  datatype Cursor = Cursor(stream: seq<bit>, bit: nat) {
    predicate Valid() { bit <= |stream| }
  }

  /** The bits to the next byte boundary: `(-position) & 7`. */
  function ToBoundary(position: nat): nat { (8 - position % 8) % 8 }

  lemma BoundaryStep(position: nat)
    ensures ToBoundary(position) == 0 <==> position % 8 == 0
    ensures position % 8 != 0 ==> ToBoundary(position) == ToBoundary(position + 1) + 1
  {
  }

  predicate AllZero(bits: seq<bit>) { forall k :: 0 <= k < |bits| ==> bits[k] == 0 }

  /** The alignment consumes the bits up to the byte boundary, and succeeds exactly when
      they are there and are all zero. */
  lemma {:induction false} AlignMeaning(rest: seq<bit>, position: nat)
    ensures var n := ToBoundary(position);
      && (AlignZero(rest, position).Ok? <==> n <= |rest| && AllZero(rest[..n]))
      && (AlignZero(rest, position).Ok? ==> AlignZero(rest, position).value == rest[n..])
    decreases ToBoundary(position)
  {
    hide ToBoundary;
    BoundaryStep(position);
    if position % 8 == 0 {
      assert rest[0..] == rest;
    } else if rest != [] {
      var n := ToBoundary(position);
      if n <= |rest| {
        assert rest[..n] == [rest[0]] + rest[1..][..n - 1];
        ZeroHead(rest[0], rest[1..][..n - 1]);
        assert rest[1..][n - 1..] == rest[n..];
      }
      if rest[0] == 0 {
        AlignMeaning(rest[1..], position + 1);
      }
    }
  }

  lemma ZeroHead(b: bit, bits: seq<bit>)
    ensures AllZero([b] + bits) <==> b == 0 && AllZero(bits)
  {
    var all := [b] + bits;
    if AllZero(all) {
      forall k | 0 <= k < |bits|
        ensures bits[k] == 0
      {
        assert all[k + 1] == 0;
      }
      assert all[0] == 0;
    }
  }

  function ReaderStep(c: Cursor, op: Op): (Option<nat>, Cursor)
    requires c.Valid()
    ensures ReaderStep(c, op).1.Valid()
  {
    if op.OpPush? then (Some(0), c.(stream := c.stream + Bits(op.data)))
    else if op.OpAlign? then
      AlignMeaning(c.stream[c.bit..], c.bit);
      if AlignZero(c.stream[c.bit..], c.bit).Ok? then (Some(0), c.(bit := c.bit + ToBoundary(c.bit))) else (None, c)
    else
      match GetBits(c.stream[c.bit..], op.width)
      case Err(_) => (None, c)
      case Ok((value, _)) =>
        (Some(if op.OpGet? || op.OpPeek? then value else 0), if op.OpPeek? then c else c.(bit := c.bit + op.width))
  }

  function ReservoirStep(r: R.Reservoir, op: Op): (Option<nat>, R.Reservoir) {
    match op
    case OpPush(data, last) =>
      if R.CanPush(r.words, R.PackWord(data, last)) then (Some(0), R.Push(r, R.PackWord(data, last))) else (None, r)
    case OpGet(width) => (R.Get(r, width).1, R.Get(r, width).0)
    case OpPeek(width) => (R.Peek(r, width).1, R.Peek(r, width).0)
    case OpSkip(width) => (if R.Get(r, width).1.Some? then Some(0) else None, R.Get(r, width).0)
    case OpAlign =>
      var skip := ToBoundary(r.position);
      if skip == 0 then (Some(0), r) else (if R.Get(r, skip).1.Some? then Some(0) else None, R.Get(r, skip).0)
  }

  /** Answers of the byte reader; the run stops at the first truncated read. */
  function ReaderAnswers(c: Cursor, ops: seq<Op>): (seq<Option<nat>>, Cursor)
    requires c.Valid()
    decreases |ops|
  {
    if ops == [] then ([], c)
    else
      var (answer, next) := ReaderStep(c, ops[0]);
      if answer.None? then ([None], next)
      else ([answer] + ReaderAnswers(next, ops[1..]).0, ReaderAnswers(next, ops[1..]).1)
  }

  /** Answers of the reservoir to the same operations. */
  function ReservoirAnswers(r: R.Reservoir, ops: seq<Op>): (seq<Option<nat>>, R.Reservoir)
    decreases |ops|
  {
    if ops == [] then ([], r)
    else
      var (answer, next) := ReservoirStep(r, ops[0]);
      if answer.None? then ([None], next)
      else ([answer] + ReservoirAnswers(next, ops[1..]).0, ReservoirAnswers(next, ops[1..]).1)
  }

  /** Every push carries one to four bytes and finds one of the 64 words free, which is
      what the transport reserves before it issues a refill. */
  predicate SpaceForPushes(r: R.Reservoir, ops: seq<Op>)
    decreases |ops|
  {
    ops == [] ||
    ((ops[0].OpPush? ==> 1 <= |ops[0].data| <= 4 && |r.words| < R.FIFO_DEPTH) &&
     (ReservoirStep(r, ops[0]).0.Some? ==> SpaceForPushes(ReservoirStep(r, ops[0]).1, ops[1..])))
  }

  /** The bits an ALIGN would skip are zero, if they have all arrived. */
  predicate ZerosAhead(c: Cursor)
    requires c.Valid()
  {
    c.bit + ToBoundary(c.bit) <= |c.stream| ==> AllZero(c.stream[c.bit..][..ToBoundary(c.bit)])
  }

  /** Every ALIGN the run reaches skips zeros only. */
  predicate ZeroPadding(c: Cursor, ops: seq<Op>)
    requires c.Valid()
    decreases |ops|
  {
    ops == [] ||
    ((ops[0].OpAlign? ==> ZerosAhead(c)) &&
     (ReaderStep(c, ops[0]).0.Some? ==> ZeroPadding(ReaderStep(c, ops[0]).1, ops[1..])))
  }

  /** The reservoir holds exactly the reader's remaining bits, at its alignment. */
  ghost predicate InStep(r: R.Reservoir, c: Cursor) {
    c.Valid() && R.Stream(r) == c.stream[c.bit..] && r.position == c.bit % 8
  }

  lemma GetInStep(r: R.Reservoir, c: Cursor, width: nat)
    requires InStep(r, c)
    ensures match GetBits(c.stream[c.bit..], width)
      case Err(_) => R.Get(r, width).1.None? && InStep(R.Get(r, width).0, c)
      case Ok((value, _)) => R.Get(r, width).1 == Some(value) && InStep(R.Get(r, width).0, c.(bit := c.bit + width))
  {
    hide R.Get, R.Stream, Value;
    R.GetReadsStream(r, width);
    if width <= |c.stream| - c.bit {
      assert c.stream[c.bit..][width..] == c.stream[c.bit + width..];
    }
  }

  lemma PeekInStep(r: R.Reservoir, c: Cursor, width: nat)
    requires InStep(r, c)
    ensures InStep(R.Peek(r, width).0, c)
    ensures match GetBits(c.stream[c.bit..], width)
      case Err(_) => R.Peek(r, width).1.None?
      case Ok((value, _)) => R.Peek(r, width).1 == Some(value)
  {
    hide R.Peek, R.Stream, Value;
    R.PeekReadsStream(r, width);
  }

  lemma PushInStep(r: R.Reservoir, c: Cursor, data: seq<byte>, last: bool)
    requires InStep(r, c) && 1 <= |data| <= 4 && |r.words| < R.FIFO_DEPTH
    ensures R.CanPush(r.words, R.PackWord(data, last))
    ensures InStep(R.Push(r, R.PackWord(data, last)), c.(stream := c.stream + Bits(data)))
  {
    hide R.Stream, R.PackWord, R.WordOk, Bits;
    R.PushExtendsStream(r, data, last);
    assert (c.stream + Bits(data))[c.bit..] == c.stream[c.bit..] + Bits(data);
  }

  /** The engine skips the padding unseen; the reader refuses it unless it is zero. */
  lemma AlignInStep(r: R.Reservoir, c: Cursor)
    requires InStep(r, c)
    ensures var (engine, r'), (reader, c') := ReservoirStep(r, OpAlign), ReaderStep(c, OpAlign);
      && (engine == reader <==> ZerosAhead(c))
      && (engine == reader ==> InStep(r', c'))
  {
    hide R.Get, R.Stream, Value, AlignZero, AllZero;
    var n := ToBoundary(c.bit);
    assert ToBoundary(r.position) == n;
    GetInStep(r, c, n);
    AlignMeaning(c.stream[c.bit..], c.bit);
  }

  lemma ReadInStep(r: R.Reservoir, c: Cursor, op: Op)
    requires InStep(r, c) && (op.OpGet? || op.OpPeek? || op.OpSkip?)
    ensures ReservoirStep(r, op).0 == ReaderStep(c, op).0
    ensures InStep(ReservoirStep(r, op).1, ReaderStep(c, op).1)
  {
    hide R.Get, R.Peek, R.Stream, Value;
    if op.OpPeek? {
      PeekInStep(r, c, op.width);
    } else {
      GetInStep(r, c, op.width);
    }
  }

  lemma SameStep(r: R.Reservoir, c: Cursor, op: Op)
    requires InStep(r, c) && (op.OpPush? ==> 1 <= |op.data| <= 4 && |r.words| < R.FIFO_DEPTH)
    ensures ReservoirStep(r, op).0 == ReaderStep(c, op).0 <==> (op.OpAlign? ==> ZerosAhead(c))
    ensures ReservoirStep(r, op).0 == ReaderStep(c, op).0 ==> InStep(ReservoirStep(r, op).1, ReaderStep(c, op).1)
  {
    hide R.Get, R.Peek, R.Stream, R.PackWord, R.CanPush, Value, Bits, GetBits, AlignZero, InStep, ZerosAhead;
    if op.OpPush? {
      PushInStep(r, c, op.data, op.last);
    } else if op.OpAlign? {
      AlignInStep(r, c);
    } else {
      ReadInStep(r, c, op);
    }
  }

  /** From a common state the two answer alike and end at the same alignment if and only if
      every ALIGN reached skips zeros only; then they stay in step. */
  lemma {:induction false} SameAnswers(r: R.Reservoir, c: Cursor, ops: seq<Op>)
    requires InStep(r, c) && SpaceForPushes(r, ops)
    ensures var (engine, r'), (reader, c') := ReservoirAnswers(r, ops), ReaderAnswers(c, ops);
      && (engine == reader && r'.position == c'.bit % 8 <==> ZeroPadding(c, ops))
      && (ZeroPadding(c, ops) ==> InStep(r', c'))
    decreases |ops|
  {
    hide ReaderStep, ReservoirStep, R.Stream, ZerosAhead;
    if ops == [] {
    } else {
      SameStep(r, c, ops[0]);
      var engine, reader := ReservoirStep(r, ops[0]), ReaderStep(c, ops[0]);
      if engine.0 != reader.0 {
        FirstAnswer(r, c, ops);
      } else if engine.0.Some? {
        SameAnswers(engine.1, reader.1, ops[1..]);
        LaterAnswers(r, c, ops);
      }
    }
  }

  /** Different first answers are different answers. */
  lemma FirstAnswer(r: R.Reservoir, c: Cursor, ops: seq<Op>)
    requires c.Valid() && ops != []
    ensures |ReservoirAnswers(r, ops).0| > 0 && ReservoirAnswers(r, ops).0[0] == ReservoirStep(r, ops[0]).0
    ensures |ReaderAnswers(c, ops).0| > 0 && ReaderAnswers(c, ops).0[0] == ReaderStep(c, ops[0]).0
  {
    hide ReaderStep, ReservoirStep;
  }

  /** With the same first answer, the rest decides. */
  lemma LaterAnswers(r: R.Reservoir, c: Cursor, ops: seq<Op>)
    requires c.Valid() && ops != [] && ReservoirStep(r, ops[0]).0 == ReaderStep(c, ops[0]).0
      && ReaderStep(c, ops[0]).0.Some?
    ensures var engine, reader := ReservoirAnswers(ReservoirStep(r, ops[0]).1, ops[1..]),
      ReaderAnswers(ReaderStep(c, ops[0]).1, ops[1..]);
      && (ReservoirAnswers(r, ops).0 == ReaderAnswers(c, ops).0 <==> engine.0 == reader.0)
      && ReservoirAnswers(r, ops).1 == engine.1 && ReaderAnswers(c, ops).1 == reader.1
  {
    hide ReaderStep, ReservoirStep;
    var a, b := ReservoirAnswers(r, ops).0, ReaderAnswers(c, ops).0;
    assert a[1..] == ReservoirAnswers(ReservoirStep(r, ops[0]).1, ops[1..]).0;
    assert b[1..] == ReaderAnswers(ReaderStep(c, ops[0]).1, ops[1..]).0;
  }

  /** The reservoir against the byte reader: through every interleaving of pushes and of
      GET, PEEK, SKIP and ALIGN, it answers as a reader of the bytes pushed so far does and
      stands at the reader's position modulo eight, if and only if every ALIGN reached
      skips zeros only. */
  lemma ReservoirRefinesReader(ops: seq<Op>)
    requires SpaceForPushes(R.EMPTY, ops)
    ensures var (engine, r), (reader, c) := ReservoirAnswers(R.EMPTY, ops), ReaderAnswers(Cursor([], 0), ops);
      engine == reader && r.position == c.bit % 8 <==> ZeroPadding(Cursor([], 0), ops)
  {
    hide SpaceForPushes, ZeroPadding;
    SameAnswers(R.EMPTY, Cursor([], 0), ops);
  }

  /** Without ALIGN the two always agree. */
  lemma {:induction false} NoAlignNoPadding(c: Cursor, ops: seq<Op>)
    requires c.Valid() && forall op :: op in ops ==> !op.OpAlign?
    ensures ZeroPadding(c, ops)
    decreases |ops|
  {
    hide ReaderStep;
    if ops == [] {
    } else if ReaderStep(c, ops[0]).0.Some? {
      NoAlignNoPadding(ReaderStep(c, ops[0]).1, ops[1..]);
    }
  }

  /** One byte of ones, a bit read, and an ALIGN. */
  const ONES_THEN_ALIGN: seq<Op> := [OpPush([0xFF], true), OpGet(1), OpAlign]

  function Ones(n: nat): (ones: seq<bit>)
    ensures |ones| == n
  {
    seq(n, _ => 1)
  }

  lemma OneByteOfOnes()
    ensures Bits([0xFF]) == Ones(8)
  {
    assert [0xFF][1..] == [];
    AllOnes(8);
  }

  lemma {:induction false} AllOnes(width: nat)
    ensures NatBits(Pow2(width) - 1, width) == Ones(width)
    decreases width
  {
    if width == 0 {
    } else {
      AllOnes(width - 1);
    }
  }

  /** The reader's side: one bit is read, then the padding is refused. */
  lemma ReaderRefuses()
    ensures var c1 := Cursor(Ones(8), 0);
      && ReaderStep(c1, OpGet(1)) == (Some(1), Cursor(Ones(8), 1))
      && !ZerosAhead(Cursor(Ones(8), 1)) && ReaderStep(Cursor(Ones(8), 1), OpAlign).0.None?
  {
    var all := Ones(8);
    assert all[0..] == all;
    SingleBit(all);
    var padding := all[1..][..7];
    assert padding[0] == 1;
    AlignMeaning(all[1..], 1);
  }

  /** The engine aligns over padding that the reader refuses. */
  lemma PaddingIsNotChecked()
    ensures SpaceForPushes(R.EMPTY, ONES_THEN_ALIGN) && !ZeroPadding(Cursor([], 0), ONES_THEN_ALIGN)
    ensures ReservoirAnswers(R.EMPTY, ONES_THEN_ALIGN).0 == [Some(0), Some(1), Some(0)]
    ensures ReservoirAnswers(R.EMPTY, ONES_THEN_ALIGN).1.position == 0
    ensures ReaderAnswers(Cursor([], 0), ONES_THEN_ALIGN).0 == [Some(0), Some(1), None]
  {
    hide R.Get, R.Peek, R.Stream, R.PackWord, R.CanPush, R.Push, Value, Bits, GetBits, AlignZero, ZerosAhead,
      ReaderStep,
      ReservoirStep, InStep;
    var push, get, align := OpPush([0xFF], true), OpGet(1), OpAlign;
    var c0, c1, c2 := Cursor([], 0), Cursor(Ones(8), 0), Cursor(Ones(8), 1);
    OneByteOfOnes();
    FirstByte(c0, c1);
    ReaderRefuses();
    SameStep(R.EMPTY, c0, push);
    var r1 := ReservoirStep(R.EMPTY, push).1;
    SameStep(r1, c1, get);
    var r2 := ReservoirStep(r1, get).1;
    var r3 := EngineAligns(r2, c2);
    assert ONES_THEN_ALIGN[1..] == [get, align] && [get, align][1..] == [align] && [align][1..] == [];
    assert ReservoirAnswers(r3, []) == ([], r3);
    assert ReservoirAnswers(r2, [align]).0 == [Some(0)] && ReservoirAnswers(r2, [align]).1 == r3;
    assert ReservoirAnswers(r1, [get, align]).0 == [Some(1), Some(0)] && ReservoirAnswers(r1, [get, align]).1 == r3;
    assert ReaderAnswers(c2, [align]).0 == [None];
    assert ReaderAnswers(c1, [get, align]).0 == [Some(1), None];
    assert !ZeroPadding(c2, [align]) && !ZeroPadding(c1, [get, align]);
    assert SpaceForPushes(r3, []) && SpaceForPushes(r2, [align]) && SpaceForPushes(r1, [get, align]);
  }

  lemma FirstByte(c0: Cursor, c1: Cursor)
    requires c0 == Cursor([], 0) && c1 == Cursor(Ones(8), 0) && Bits([0xFF]) == Ones(8)
    ensures InStep(R.EMPTY, c0) && ReaderStep(c0, OpPush([0xFF], true)) == (Some(0), c1)
  {
    hide Bits;
    assert [] + Ones(8) == Ones(8);
  }

  lemma EngineAligns(r: R.Reservoir, c: Cursor) returns (after: R.Reservoir)
    requires c == Cursor(Ones(8), 1) && InStep(r, c)
    ensures ReservoirStep(r, OpAlign) == (Some(0), after) && after.position == 0
  {
    hide R.Get, R.Stream, Value;
    GetInStep(r, c, 7);
    after := R.Get(r, 7).0;
  }
}
