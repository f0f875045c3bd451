/** The bit reservoir and its decoders as the object the engine updates in place. */
module BitEngine {
  import opened Common
  import opened BitStream
  import opened BitReader
  import opened Residual
  import opened Entropy
  import opened Memory
  import R = Reservoir

  class BitEngine {
    var words: seq<nat>
    var bits: seq<bit>
    var eof: bool
    var position: nat
    ghost var pushed: seq<nat>

    ghost function State(): R.Reservoir
      reads this
    {
      R.Reservoir(words, bits, eof, position, pushed)
    }

    constructor ()
      ensures State() == R.EMPTY
    {
      words, bits, eof, position, pushed := [], [], false, 0, [];
    }

    /** Refused when the FIFO is full or the sideband is illegal. */
    method Push(word: nat) returns (ok: bool)
      modifies this
      ensures ok == R.CanPush(old(words), word)
      ensures State() == if ok then R.Push(old(State()), word) else old(State())
    {
      if |words| >= R.FIFO_DEPTH || !R.WordOk(word) {
        return false;
      }
      words, pushed := words + [word % 0x200_0000_0000], pushed + [word % 0x200_0000_0000];
      ok := true;
    }

    method AppendByte(value: byte)
      modifies this`bits
      ensures bits == old(bits) + NatBits(value, 8)
    {
      var index := 8;
      while index > 0
        invariant 0 <= index <= 8
        invariant bits == old(bits) + NatBits(value, 8)[..8 - index]
      {
        index := index - 1;
        ByteField(value, 7 - index, 1);
        SingleBit(NatBits(value, 8)[7 - index..8 - index]);
        assert Pow2(1) == 2;
        bits := bits + [value / Pow2(index) % 2];
        assert NatBits(value, 8)[..8 - index] == NatBits(value, 8)[..7 - index] + [NatBits(value, 8)[7 - index]];
      }
      assert NatBits(value, 8)[..8] == NatBits(value, 8);
    }

    method Unpack()
      requires words != []
      modifies this`words, this`bits, this`eof
      ensures State() == R.Unpack(old(State()))
    {
      hide R.WordByte, NatBits;
      var word := words[0];
      words := words[1..];
      var count := R.WordCount(word);
      ghost var bytes := R.WordBytes(word);
      assert bytes[..0] == [];
      for k := 0 to count
        invariant words == old(words)[1..] && eof == old(eof)
        invariant bits == old(bits) + Bits(bytes[..k])
      {
        AppendByte(R.WordByte(word, k));
        assert bytes[..k + 1] == bytes[..k] + [bytes[k]];
        BitsAppend(bytes[..k], [bytes[k]]);
        assert Bits([bytes[k]]) == NatBits(bytes[k], 8) + Bits([]);
      }
      assert bytes[..count] == bytes;
      if R.WordLast(word) {
        eof := true;
      }
    }

    /** `_refill` */
    method Refill(width: nat)
      modifies this`words, this`bits, this`eof
      ensures State() == R.Refill(old(State()), width)
    {
      hide R.Unpack;
      while |bits| < width && words != []
        invariant R.Refill(State(), width) == R.Refill(old(State()), width)
        decreases |words|
      {
        UnpackShrinks(State());
        Unpack();
      }
    }

    /** `_peek_bits` */
    method PeekBits(width: nat) returns (r: Option<nat>)
      modifies this`words, this`bits, this`eof
      ensures State() == R.Peek(old(State()), width).0 && r == R.Peek(old(State()), width).1
    {
      hide R.Refill;
      Refill(width);
      if |bits| < width {
        return None;
      }
      var value: nat := 0;
      ValueNil();
      assert bits[..0] == [];
      for k := 0 to width
        invariant value == Value(bits[..k])
      {
        assert bits[..k + 1][..k] == bits[..k];
        value := 2 * value + bits[k];
      }
      r := Some(value);
    }

    /** `_get_bits` */
    method GetBits(width: nat) returns (r: Option<nat>)
      modifies this`words, this`bits, this`eof, this`position
      ensures State() == R.Get(old(State()), width).0 && r == R.Get(old(State()), width).1
    {
      hide R.Refill, Value;
      r := PeekBits(width);
      if r.Some? {
        bits := bits[width..];
        position := (position + width) % 8;
      }
    }

    /** RICE4 and RICE5 below the escape parameter. */
    method Rice(parameter: nat) returns (r: Result<word, Fault>)
      modifies this`words, this`bits, this`eof, this`position
      ensures State() == RiceValue(old(State()), parameter).0 && r == RiceValue(old(State()), parameter).1
    {
      hide R.Get;
      var quotient := 0;
      var value := GetBits(1);
      while value.Some? && value.value == 0
        invariant quotient <= RUN_LIMIT
        invariant ZeroRun(old(State()), 0) ==
          if value.None? then (State(), Err(EXHAUSTED))
          else if value.value != 0 then (State(), Ok(quotient))
          else if quotient + 1 > RUN_LIMIT then (State(), Err(BAD_CODE))
          else ZeroRun(State(), quotient + 1)
        decreases RUN_LIMIT - quotient
      {
        quotient := quotient + 1;
        if quotient > RUN_LIMIT {
          return Err(BAD_CODE);
        }
        value := GetBits(1);
      }
      if value.None? {
        return Err(EXHAUSTED);
      }
      var remainder := GetBits(parameter);
      if remainder.None? {
        return Err(EXHAUSTED);
      }
      r := Ok(ToWord(Unfold(Joined(quotient, parameter, remainder.value))));
    }

    /** HUFF_SYMBOL */
    method Huffman(rows: seq<Row>, maximum: nat) returns (r: Result<nat, Fault>)
      modifies this`words, this`bits, this`eof, this`position
      ensures State() == DecodeSymbol(old(State()), rows, maximum).0 && r == DecodeSymbol(old(State()), rows, maximum).1
    {
      hide R.Get, R.Peek;
      var code: nat, previous: nat, k: nat := 0, 0, 0;
      assert rows[0..] == rows;
      while k < |rows|
        invariant 0 <= k <= |rows|
        invariant Scan(State(), rows[k..], maximum, code, previous) == Scan(old(State()), rows, maximum, 0, 0)
      {
        var row := rows[k];
        if !(previous <= row.length <= maximum) || row.reserved != 0 {
          return Err(BAD_CODE);
        }
        code := Joined(code, row.length - previous, 0);
        var value := PeekBits(row.length);
        if value.None? {
          return Err(EXHAUSTED);
        }
        if value.value == code {
          var consumed := GetBits(row.length);
          return if consumed.None? then Err(EXHAUSTED) else Ok(row.symbol);
        }
        assert rows[k..][1..] == rows[k + 1..];
        code, previous, k := code + 1, row.length, k + 1;
      }
      r := Err(BAD_CODE);
    }
  }

  lemma UnpackShrinks(r: R.Reservoir)
    requires r.words != []
    ensures |R.Unpack(r).words| < |r.words|
  {
  }
}
