/** The engine's entropy decoders on the bit reservoir: Rice codes against the codec,
    and canonical Huffman codes. */
module Entropy {
  import opened Common
  import opened Arithmetic
  import opened BitStream
  import opened BitReader
  import opened Residual
  import opened Memory
  import R = Reservoir

  const EXHAUSTED: Fault := Fault(5, 5, 9)
  const BAD_CODE: Fault := Fault(7, 5, 9)

  // ---------------------------------------------------------------- Rice

  /** The unary quotient; a fault when the bits run out or the run is too long. */
  function ZeroRun(r: R.Reservoir, quotient: nat): (R.Reservoir, Result<nat, Fault>)
    decreases RUN_LIMIT + 1 - quotient
  {
    var (r', value) := R.Get(r, 1);
    if value.None? then (r', Err(EXHAUSTED))
    else if value.value != 0 then (r', Ok(quotient))
    else if quotient + 1 > RUN_LIMIT then (r', Err(BAD_CODE))
    else ZeroRun(r', quotient + 1)
  }

  /** RICE4 and RICE5 below the escape parameter: the register value. */
  function RiceValue(r: R.Reservoir, parameter: nat): (R.Reservoir, Result<word, Fault>) {
    var (r1, quotient) := ZeroRun(r, 0);
    if quotient.Err? then (r1, Err(quotient.error))
    else
      var (r2, remainder) := R.Get(r1, parameter);
      if remainder.None? then (r2, Err(EXHAUSTED))
      else (r2, Ok(ToWord(Unfold(Joined(quotient.value, parameter, remainder.value)))))
  }

  /** RICE4 and RICE5 at the escape parameter. */
  function RawValue(r: R.Reservoir, width: nat): (R.Reservoir, Result<word, Fault>)
    requires width >= 1
  {
    var (r', value) := R.Get(r, width);
    if value.None? then (r', Err(EXHAUSTED)) else (r', Ok(ToWord(SignExtend(value.value, width))))
  }

  /** The engine's fault for a codec failure while reading a residual. */
  function FaultOf(e: Error): Fault { if e == TRUNCATED then EXHAUSTED else BAD_CODE }

  lemma {:induction false} ZeroRunReads(r: R.Reservoir, quotient: nat)
    ensures match GetUnary(R.Stream(r), quotient, RUN_LIMIT)
      case Err(e) => ZeroRun(r, quotient).1 == Err(FaultOf(e))
      case Ok((n, after)) => ZeroRun(r, quotient).1 == Ok(n) && R.Stream(ZeroRun(r, quotient).0) == after
    decreases RUN_LIMIT + 1 - quotient
  {
    hide R.Get, R.Stream;
    R.GetReadsStream(r, 1);
    if R.Stream(r) == [] {
    } else {
      SingleBit(R.Stream(r));
      assert R.Get(r, 1).1 == Some(R.Stream(r)[0]) && R.Stream(R.Get(r, 1).0) == R.Stream(r)[1..];
      if R.Stream(r)[0] == 0 && quotient + 1 <= RUN_LIMIT {
        ZeroRunReads(R.Get(r, 1).0, quotient + 1);
      }
    }
  }

  /** The primitive decodes the codec's residual: it fails in the same cases with the same meaning, leaves the
      same bits, and its register holds the residual modulo 2^32, hence the residual
      itself whenever that fits 32 bits. */
  lemma RiceAgrees(r: R.Reservoir, parameter: nat)
    ensures match GetRice(R.Stream(r), parameter)
      case Err(e) => RiceValue(r, parameter).1 == Err(FaultOf(e))
      case Ok((residual, after)) =>
        && RiceValue(r, parameter).1 == Ok(ToWord(residual))
        && R.Stream(RiceValue(r, parameter).0) == after
        && (-0x8000_0000 <= residual < 0x8000_0000 ==> Signed32(RiceValue(r, parameter).1.value) == residual)
  {
    hide R.Get, R.Stream, Value;
    ZeroRunReads(r, 0);
    var (r1, quotient) := ZeroRun(r, 0);
    if quotient.Ok? {
      R.GetReadsStream(r1, parameter);
      if R.Get(r1, parameter).1.Some? {
        assert GetBits(R.Stream(r1), parameter) == Ok((R.Get(r1, parameter).1.value, R.Stream(R.Get(r1, parameter).0)));
      }
    }
  }

  lemma RawAgrees(r: R.Reservoir, width: nat)
    requires 1 <= width <= 32
    ensures match GetSigned(R.Stream(r), width)
      case Err(e) => RawValue(r, width).1 == Err(FaultOf(e))
      case Ok((residual, after)) =>
        && RawValue(r, width).1 == Ok(ToWord(residual)) && R.Stream(RawValue(r, width).0) == after
        && Signed32(RawValue(r, width).1.value) == residual
  {
    hide R.Get, R.Stream, Value, SignExtend, Pow2;
    R.GetReadsStream(r, width);
    if R.Get(r, width).1.Some? {
      var value := R.Get(r, width).1.value;
      ValueBound(R.Stream(r)[..width]);
      SignExtendRange(value, width);
    }
  }

  lemma SignExtendRange(value: nat, width: nat)
    requires 1 <= width <= 32 && value < Pow2(width)
    ensures -0x8000_0000 <= SignExtend(value, width) < 0x8000_0000
  {
    Pow2Monotone(width - 1, 31);
    Pow2Literals();
    var half := Pow2(width - 1);
    if value < half {
      DivModUnique(value, half, 0, value);
    } else {
      DivModUnique(value, half, 1, value - half);
    }
  }

  // ---------------------------------------------------------------- Canonical Huffman

  /** One table entry: symbol, code length and reserved bits. */
  datatype Row = Row(length: nat, symbol: nat, reserved: nat)

  /** The fields of a table word. */
  function RowOf(w: word): Row { Row(w / 0x1_0000 % 0x20, w % 0x1_0000, w / 0x20_0000) }

  /** The scan of the source: codes are assigned on the way, in table order. */
  function Scan(r: R.Reservoir, rows: seq<Row>, maximum: nat, code: nat, previous: nat)
    : (R.Reservoir, Result<Row, Fault>)
    decreases |rows|
  {
    if rows == [] || !(previous <= rows[0].length <= maximum) || rows[0].reserved != 0 then (r, Err(BAD_CODE))
    else
      var here := code * Pow2(rows[0].length - previous);
      var (r', value) := R.Peek(r, rows[0].length);
      if value.None? then (r', Err(EXHAUSTED))
      else if value.value == here then (r', Ok(rows[0]))
      else Scan(r', rows[1..], maximum, here + 1, rows[0].length)
  }

  /** HUFF_SYMBOL: match, then consume the code. */
  function DecodeSymbol(r: R.Reservoir, rows: seq<Row>, maximum: nat): (R.Reservoir, Result<nat, Fault>) {
    var (r', row) := Scan(r, rows, maximum, 0, 0);
    if row.Err? then (r', Err(row.error))
    else
      var (r2, value) := R.Get(r', row.value.length);
      (r2, if value.None? then Err(EXHAUSTED) else Ok(row.value.symbol))
  }

  /** Code lengths do not decrease. */
  ghost predicate Ordered(rows: seq<Row>) {
    forall j, k :: 0 <= j < k < |rows| ==> rows[j].length <= rows[k].length
  }

  /** A table in canonical order. */
  ghost predicate Canonical(rows: seq<Row>, maximum: nat) {
    && (forall k :: 0 <= k < |rows| ==> rows[k].length <= maximum && rows[k].reserved == 0)
    && Ordered(rows)
  }

  /** The canonical code of row `k`. */
  ghost function CodeOf(rows: seq<Row>, k: nat): nat
    requires k < |rows| && Ordered(rows)
  {
    if k == 0 then 0 else (CodeOf(rows, k - 1) + 1) * Pow2(rows[k].length - rows[k - 1].length)
  }

  /** A later code lies past every extension of an earlier one. */
  lemma {:induction false} CodesAscend(rows: seq<Row>, j: nat, k: nat)
    requires j < k < |rows| && Ordered(rows)
    ensures CodeOf(rows, k) >= (CodeOf(rows, j) + 1) * Pow2(rows[k].length - rows[j].length)
    decreases k - j
  {
    if j + 1 < k {
      CodesAscend(rows, j, k - 1);
      var d1, d2 := rows[k - 1].length - rows[j].length, rows[k].length - rows[k - 1].length;
      Pow2Add(d1, d2);
      var c := CodeOf(rows, j) + 1;
      Associate(c, Pow2(d1), Pow2(d2));
      MulMonotone(c * Pow2(d1), CodeOf(rows, k - 1) + 1, Pow2(d2));
    }
  }

  /** The codes are prefix-free: no earlier code is the front of a later one. */
  lemma PrefixFree(rows: seq<Row>, j: nat, k: nat)
    requires j < k < |rows| && Ordered(rows)
    ensures ShiftRight(CodeOf(rows, k), rows[k].length - rows[j].length) > CodeOf(rows, j)
  {
    hide CodeOf;
    CodesAscend(rows, j, k);
    var d := rows[k].length - rows[j].length;
    var q := ShiftRight(CodeOf(rows, k), d);
    if q <= CodeOf(rows, j) {
      MulMonotone(q + 1, CodeOf(rows, j) + 1, Pow2(d));
      Distribute(q, 1, Pow2(d));
    }
  }

  /** The bits of row `k`'s code. */
  ghost function CodeBits(rows: seq<Row>, k: nat): seq<bit>
    requires k < |rows| && Ordered(rows)
  {
    NatBits(CodeOf(rows, k), rows[k].length)
  }

  /** The first bits of a stream that starts with row `k`'s code. */
  lemma FrontOfCode(rows: seq<Row>, j: nat, k: nat, stream: seq<bit>, tail: seq<bit>)
    requires j <= k < |rows| && Ordered(rows)
    requires CodeOf(rows, k) < Pow2(rows[k].length) && stream == CodeBits(rows, k) + tail
    ensures |stream| >= rows[j].length
    ensures Value(stream[..rows[j].length]) == ShiftRight(CodeOf(rows, k), rows[k].length - rows[j].length)
    ensures j == k ==> Value(stream[..rows[j].length]) == CodeOf(rows, k)
    ensures j < k ==> Value(stream[..rows[j].length]) != CodeOf(rows, j)
  {
    hide CodeOf, Value, NatBits;
    var code, width, keep := CodeOf(rows, k), rows[k].length, rows[j].length;
    var d := width - keep;
    NatBitsPrefix(code, width, d);
    assert stream[..keep] == NatBits(code, width)[..width - d];
    ValueOfNat(code / Pow2(d), keep);
    QuotientFits(code, keep, d);
    if j < k {
      PrefixFree(rows, j, k);
    } else {
      assert Pow2(0) == 1;
    }
  }

  lemma QuotientFits(code: nat, keep: nat, d: nat)
    requires code < Pow2(keep + d)
    ensures (code / Pow2(d)) % Pow2(keep) == code / Pow2(d) == ShiftRight(code, d)
  {
    Pow2Add(keep, d);
    var q := ShiftRight(code, d);
    if q >= Pow2(keep) {
      MulMonotone(Pow2(keep), q, Pow2(d));
    }
    DivModUnique(q, Pow2(keep), 0, q);
  }

  lemma NextCode(rows: seq<Row>, j: nat, code: nat, previous: nat)
    requires Ordered(rows) && j < |rows|
    requires j == 0 ==> code == 0 && previous == 0
    requires j > 0 ==> code == CodeOf(rows, j - 1) + 1 && previous == rows[j - 1].length
    ensures previous <= rows[j].length && code * Pow2(rows[j].length - previous) == CodeOf(rows, j)
  {
  }

  /** The scan passes every earlier row and stops at row `k`. */
  lemma {:induction false} ScanFinds(r: R.Reservoir, rows: seq<Row>, maximum: nat, k: nat, j: nat, code: nat,
    previous: nat, tail: seq<bit>)
    requires Canonical(rows, maximum) && j <= k < |rows|
    requires CodeOf(rows, k) < Pow2(rows[k].length) && R.Stream(r) == CodeBits(rows, k) + tail
    requires j == 0 ==> code == 0 && previous == 0
    requires j > 0 ==> code == CodeOf(rows, j - 1) + 1 && previous == rows[j - 1].length
    ensures var (r', row) := Scan(r, rows[j..], maximum, code, previous);
      row == Ok(rows[k]) && R.Stream(r') == R.Stream(r)
    decreases k - j
  {
    hide R.Peek, R.Stream, CodeBits, CodeOf, Value, ShiftRight;
    var here := code * Pow2(rows[j].length - previous);
    NextCode(rows, j, code, previous);
    R.PeekReadsStream(r, rows[j].length);
    FrontOfCode(rows, j, k, R.Stream(r), tail);
    assert R.Peek(r, rows[j].length).1 == Some(Value(R.Stream(r)[..rows[j].length]));
    if j < k {
      assert rows[j..][1..] == rows[j + 1..];
      ScanFinds(R.Peek(r, rows[j].length).0, rows, maximum, k, j + 1, here + 1, rows[j].length, tail);
    }
  }

  lemma SymbolRoundTrip(r: R.Reservoir, rows: seq<Row>, maximum: nat, k: nat, tail: seq<bit>)
    requires Canonical(rows, maximum) && k < |rows|
    requires CodeOf(rows, k) < Pow2(rows[k].length) && R.Stream(r) == CodeBits(rows, k) + tail
    ensures DecodeSymbol(r, rows, maximum).1 == Ok(rows[k].symbol)
    ensures R.Stream(DecodeSymbol(r, rows, maximum).0) == tail
  {
    hide Scan, R.Get, R.Stream, CodeOf, Value;
    assert rows[0..] == rows;
    ScanFinds(r, rows, maximum, k, 0, 0, 0, tail);
    var r' := Scan(r, rows, maximum, 0, 0).0;
    R.GetReadsStream(r', rows[k].length);
    assert |R.Stream(r')| >= rows[k].length;
    assert R.Stream(R.Get(r', rows[k].length).0) == R.Stream(r')[rows[k].length..];
    assert (CodeBits(rows, k) + tail)[rows[k].length..] == tail;
  }

  lemma {:induction false} CodeOfPrefix(rows: seq<Row>, n: nat, k: nat)
    requires Ordered(rows) && k < n <= |rows|
    ensures CodeOf(rows[..n], k) == CodeOf(rows, k)
    decreases k
  {
    if k == 0 {
    } else {
      CodeOfPrefix(rows, n, k - 1);
    }
  }

  /** The row is legal and does not shorten the codes of the legal rows before it. */
  lemma OneRowMore(rows: seq<Row>, maximum: nat, j: nat)
    requires j < |rows| && Canonical(rows[..j], maximum) && rows[j].reserved == 0
    requires (j > 0 ==> rows[j - 1].length <= rows[j].length) && rows[j].length <= maximum
    ensures Canonical(rows[..j + 1], maximum)
  {
    assert forall i :: 0 <= i < j ==> rows[..j][i] == rows[..j + 1][i];
    assert j > 0 ==> rows[..j][j - 1] == rows[j - 1];
  }

  lemma {:induction false} ScanWritten(r: R.Reservoir, rows: seq<Row>, maximum: nat, j: nat, code: nat, previous: nat)
    returns (k: nat)
    requires j <= |rows| && Canonical(rows[..j], maximum) && Scan(r, rows[j..], maximum, code, previous).1.Ok?
    requires j == 0 ==> code == 0 && previous == 0
    requires j > 0 ==> code == CodeOf(rows[..j], j - 1) + 1 && previous == rows[j - 1].length
    ensures j <= k < |rows| && Canonical(rows[..k + 1], maximum)
    ensures var (r', row) := Scan(r, rows[j..], maximum, code, previous);
      && row == Ok(rows[k]) && R.Stream(r') == R.Stream(r) && |R.Stream(r)| >= rows[k].length
      && Value(R.Stream(r)[..rows[k].length]) == CodeOf(rows[..k + 1], k)
    decreases |rows| - j
  {
    hide R.Peek, R.Stream, CodeOf, Value;
    assert rows[j..][0] == rows[j];
    OneRowMore(rows, maximum, j);
    if j == 0 {
    } else {
      CodeOfPrefix(rows[..j + 1], j, j - 1);
      assert rows[..j + 1][..j] == rows[..j];
    }
    NextCode(rows[..j + 1], j, code, previous);
    R.PeekReadsStream(r, rows[j].length);
    var here := code * Pow2(rows[j].length - previous);
    var (next, value) := R.Peek(r, rows[j].length);
    if value.value == here {
      k := j;
    } else {
      assert rows[j..][1..] == rows[j + 1..];
      k := ScanWritten(next, rows, maximum, j + 1, here + 1, rows[j].length);
    }
  }

  /** Whatever is decoded was written: the stream starts with the code of a row up to which
      the table is in canonical order, the symbol is that row's, and exactly the code is
      consumed. */
  lemma SymbolWritten(r: R.Reservoir, rows: seq<Row>, maximum: nat) returns (k: nat)
    requires DecodeSymbol(r, rows, maximum).1.Ok?
    ensures k < |rows| && Canonical(rows[..k + 1], maximum)
    ensures var (after, symbol) := DecodeSymbol(r, rows, maximum);
      && symbol == Ok(rows[k].symbol) && CodeOf(rows[..k + 1], k) < Pow2(rows[k].length)
      && R.Stream(r) == CodeBits(rows[..k + 1], k) + R.Stream(after)
  {
    hide Scan, R.Get, R.Stream, CodeOf, Value, NatBits;
    assert rows[0..] == rows;
    k := ScanWritten(r, rows, maximum, 0, 0, 0);
    var r' := Scan(r, rows, maximum, 0, 0).0;
    var front, width := R.Stream(r)[..rows[k].length], rows[k].length;
    R.GetReadsStream(r', width);
    ValueBound(front);
    NatOfValue(front);
    assert R.Stream(r) == front + R.Stream(r)[width..];
    assert R.Get(r', width).1.Some? && DecodeSymbol(r, rows, maximum).0 == R.Get(r', width).0;
    assert R.Stream(R.Get(r', width).0) == Take(R.Stream(r'), width).value.1;
    assert rows[..k + 1][k] == rows[k] && CodeBits(rows[..k + 1], k) == front;
  }

  ghost function MessageBits(rows: seq<Row>, message: seq<nat>): seq<bit>
    requires Ordered(rows)
    requires forall i :: 0 <= i < |message| ==> message[i] < |rows|
  {
    if message == [] then [] else CodeBits(rows, message[0]) + MessageBits(rows, message[1..])
  }

  /** Decoding `count` symbols in a row. */
  function DecodeMessage(r: R.Reservoir, rows: seq<Row>, maximum: nat, count: nat)
    : (R.Reservoir, Result<seq<nat>, Fault>)
    decreases count
  {
    if count == 0 then (r, Ok([]))
    else
      var (r', symbol) := DecodeSymbol(r, rows, maximum);
      if symbol.Err? then (r', Err(symbol.error))
      else
        var (last, symbols) := DecodeMessage(r', rows, maximum, count - 1);
        (last, if symbols.Err? then symbols else Ok([symbol.value] + symbols.value))
  }

  function Symbols(rows: seq<Row>, message: seq<nat>): seq<nat>
    requires forall i :: 0 <= i < |message| ==> message[i] < |rows|
  {
    if message == [] then [] else [rows[message[0]].symbol] + Symbols(rows, message[1..])
  }

  /** Canonical Huffman decoding inverts encoding: for every canonical table and every
      message whose codes fit their lengths, the symbols come back and exactly the
      message's bits are consumed. */
  lemma {:induction false} HuffmanRoundTrip(r: R.Reservoir, rows: seq<Row>, maximum: nat, message: seq<nat>,
    tail: seq<bit>)
    requires Canonical(rows, maximum)
    requires forall i :: 0 <= i < |message| ==> message[i] < |rows|
    requires forall i :: 0 <= i < |message| ==> CodeOf(rows, message[i]) < Pow2(rows[message[i]].length)
    requires R.Stream(r) == MessageBits(rows, message) + tail
    ensures DecodeMessage(r, rows, maximum, |message|).1 == Ok(Symbols(rows, message))
    ensures R.Stream(DecodeMessage(r, rows, maximum, |message|).0) == tail
    decreases |message|
  {
    hide DecodeSymbol, CodeBits, CodeOf, R.Stream;
    if message == [] {
      assert MessageBits(rows, message) + tail == tail;
    } else {
      var after := MessageBits(rows, message[1..]) + tail;
      assert MessageBits(rows, message) + tail == CodeBits(rows, message[0]) + after;
      SymbolRoundTrip(r, rows, maximum, message[0], after);
      HuffmanRoundTrip(DecodeSymbol(r, rows, maximum).0, rows, maximum, message[1..], tail);
    }
  }
}
