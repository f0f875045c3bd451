/** The bit reservoir of the primitive engine: FIFO words holding up to four bytes
    each are unpacked on demand into a list of bits. */
module Reservoir {
  import opened Common
  import opened Arithmetic
  import opened BitStream

  const FIFO_DEPTH: nat := 64
  const COUNT_UNIT: nat := 0x1_0000_0000
  const LAST_UNIT: nat := 0x100_0000_0000

  /** `words` is the input FIFO, `bits` the unpacked bits not yet consumed, and
      `position` the number of consumed bits modulo eight. `pushed` is a history
      variable: every word the FIFO has accepted since it was flushed. */
  datatype Reservoir = Reservoir(words: seq<nat>, bits: seq<bit>, eof: bool, position: nat, pushed: seq<nat>)

  const EMPTY: Reservoir := Reservoir([], [], false, 0, [])

  function WordCount(word: nat): nat { (word / COUNT_UNIT) % 8 }

  predicate WordLast(word: nat) { (word / LAST_UNIT) % 2 == 1 }

  function WordByte(word: nat, k: nat): byte { (word / Pow2(8 * k)) % 0x100 }

  function WordBytes(word: nat): (bytes: seq<byte>)
    ensures |bytes| == WordCount(word)
  {
    seq(WordCount(word), k requires 0 <= k => WordByte(word, k))
  }

  /** The sideband of a FIFO word is legal. */
  predicate WordOk(word: nat) { (word / 0x8_0000_0000) % 0x20 == 0 && 1 <= WordCount(word) <= 4 }

  /** The FIFO accepts the word. */
  predicate CanPush(words: seq<nat>, word: nat) { |words| < FIFO_DEPTH && WordOk(word) }

  function Push(r: Reservoir, word: nat): Reservoir
    requires CanPush(r.words, word)
  {
    var stored := word % 0x200_0000_0000;
    r.(words := r.words + [stored], pushed := r.pushed + [stored])
  }

  // ---------------------------------------------------------------- Reading

  /** Moves the oldest FIFO word into the bit list. */
  function Unpack(r: Reservoir): Reservoir
    requires r.words != []
  {
    r.(words := r.words[1..], bits := r.bits + Bits(WordBytes(r.words[0])), eof := r.eof || WordLast(r.words[0]))
  }

  /** Unpacks words until `width` bits are available or the FIFO is empty. */
  function Refill(r: Reservoir, width: nat): Reservoir
    decreases |r.words|
  {
    if |r.bits| >= width || r.words == [] then r else Refill(Unpack(r), width)
  }

  function Peek(r: Reservoir, width: nat): (Reservoir, Option<nat>) {
    var r' := Refill(r, width);
    (r', if |r'.bits| < width then None else Some(Value(r'.bits[..width])))
  }

  function Get(r: Reservoir, width: nat): (Reservoir, Option<nat>) {
    var (r', value) := Peek(r, width);
    if value.None? then (r', None)
    else (r'.(bits := if width <= |r'.bits| then r'.bits[width..] else [], position := (r'.position + width) % 8),
      value)
  }

  /** Everything the reservoir still has to deliver. */
  function WordsBits(words: seq<nat>): seq<bit> {
    if words == [] then [] else Bits(WordBytes(words[0])) + WordsBits(words[1..])
  }

  function Stream(r: Reservoir): seq<bit> { r.bits + WordsBits(r.words) }

  lemma {:induction false} RefillKeepsStream(r: Reservoir, width: nat)
    ensures var r' := Refill(r, width);
      && Stream(r') == Stream(r)
      && (|r'.bits| >= width || r'.words == [])
      && r'.position == r.position && r'.pushed == r.pushed && |r'.words| <= |r.words|
    decreases |r.words|
  {
    hide Bits, WordBytes;
    if |r.bits| < width && r.words != [] {
      RefillKeepsStream(Unpack(r), width);
      assert Stream(Unpack(r)) == Stream(r);
    }
  }

  lemma {:induction false} RefillTwice(r: Reservoir, width: nat)
    ensures Refill(Refill(r, width), width) == Refill(r, width)
    decreases |r.words|
  {
    if |r.bits| < width && r.words != [] {
      RefillTwice(Unpack(r), width);
    }
  }

  /** Peeking reads the front of the stream and consumes nothing. */
  lemma PeekReadsStream(r: Reservoir, width: nat)
    ensures var (r', value) := Peek(r, width);
      && Stream(r') == Stream(r) && r'.position == r.position && r'.pushed == r.pushed
      && (Take(Stream(r), width).None? <==> value.None?)
      && (value.Some? ==> value.value == Take(Stream(r), width).value.0)
  {
    RefillKeepsStream(r, width);
    var r' := Refill(r, width);
    if |r'.bits| >= width {
      assert Stream(r')[..width] == r'.bits[..width];
    } else {
      assert Stream(r') == r'.bits;
    }
  }

  /** Getting reads the front of the stream and consumes exactly it. */
  lemma GetReadsStream(r: Reservoir, width: nat)
    ensures var (r', value) := Get(r, width);
      && r'.pushed == r.pushed
      && (Take(Stream(r), width).None? <==> value.None?)
      && (value.None? ==> Stream(r') == Stream(r) && r'.position == r.position)
      && (value.Some? ==>
            && (value.value, Stream(r')) == Take(Stream(r), width).value
            && r'.position == (r.position + width) % 8)
  {
    PeekReadsStream(r, width);
    var p := Peek(r, width).0;
    if |p.bits| >= width {
      assert Stream(p)[width..] == p.bits[width..] + WordsBits(p.words);
    }
  }

  // ---------------------------------------------------------------- Packing

  function LittleEndian(data: seq<byte>): nat {
    if data == [] then 0 else data[0] + 0x100 * LittleEndian(data[1..])
  }

  lemma {:induction false} LittleEndianBound(data: seq<byte>)
    ensures LittleEndian(data) < Pow2(8 * |data|)
    decreases |data|
  {
    if data == [] {
    } else {
      LittleEndianBound(data[1..]);
      Pow2Add(8, 8 * |data[1..]|);
      assert Pow2(8) == 0x100;
    }
  }

  lemma {:induction false} LittleEndianByte(data: seq<byte>, high: nat, k: nat)
    requires k < |data|
    ensures WordByte(LittleEndian(data) + high * Pow2(8 * |data|), k) == data[k]
    decreases k
  {
    var n := LittleEndian(data) + high * Pow2(8 * |data|);
    var rest := LittleEndian(data[1..]) + high * Pow2(8 * |data[1..]|);
    assert n == rest * 0x100 + data[0] by {
      Pow2Add(8, 8 * |data[1..]|);
      assert Pow2(8) == 0x100;
      Associate(high, 0x100, Pow2(8 * |data[1..]|));
      Associate(0x100, high, Pow2(8 * |data[1..]|));
    }
    DivModUnique(n, 0x100, rest, data[0]);
    if k > 0 {
      LittleEndianByte(data[1..], high, k - 1);
      Pow2Add(8, 8 * (k - 1));
      assert Pow2(8) == 0x100;
      DivDiv(n, 0x100, Pow2(8 * (k - 1)));
    } else {
      assert Pow2(8 * k) == 1;
    }
  }

  /** The FIFO word that carries up to four input bytes. */
  function PackWord(data: seq<byte>, last: bool): nat {
    LittleEndian(data) + COUNT_UNIT * |data| + (if last then LAST_UNIT else 0)
  }

  lemma PackWordFields(data: seq<byte>, last: bool)
    requires 1 <= |data| <= 4
    ensures var word := PackWord(data, last);
      WordOk(word) && WordCount(word) == |data| && WordLast(word) == last && word < 0x200_0000_0000
  {
    LittleEndianBound(data);
    Pow2Monotone(8 * |data|, 32);
    Pow2Literals();
    var flag := if last then 1 else 0;
    var word := PackWord(data, last);
    assert word / COUNT_UNIT == |data| + 0x100 * flag;
    assert word / 0x8_0000_0000 == 0x20 * flag;
    assert word / LAST_UNIT == flag;
  }

  lemma PackWordSplit(data: seq<byte>, last: bool) returns (high: nat)
    requires 1 <= |data| <= 4
    ensures PackWord(data, last) == LittleEndian(data) + high * Pow2(8 * |data|)
  {
    var spare := 32 - 8 * |data|;
    var units := |data| + (if last then 0x100 else 0);
    high := units * Pow2(spare);
    Pow2Literals();
    Pow2Add(spare, 8 * |data|);
    Associate(units, Pow2(spare), Pow2(8 * |data|));
    assert PackWord(data, last) == LittleEndian(data) + COUNT_UNIT * units;
  }

  lemma PackWordBytes(data: seq<byte>, last: bool)
    requires 1 <= |data| <= 4
    ensures WordBytes(PackWord(data, last)) == data
  {
    PackWordFields(data, last);
    var word := PackWord(data, last);
    var high := PackWordSplit(data, last);
    forall k | 0 <= k < |data|
      ensures WordBytes(word)[k] == data[k]
    {
      LittleEndianByte(data, high, k);
    }
  }

  /** The words that carry a byte string; `last` marks the final one. */
  function PackWords(data: seq<byte>, last: bool): seq<nat>
    decreases |data|
  {
    if data == [] then []
    else if |data| <= 4 then [PackWord(data, last)]
    else [PackWord(data[..4], false)] + PackWords(data[4..], last)
  }

  function WordsBytes(words: seq<nat>): seq<byte> {
    if words == [] then [] else WordBytes(words[0]) + WordsBytes(words[1..])
  }

  /** Unpacking the packed words gives back the bytes. */
  lemma {:induction false} PackedBytes(data: seq<byte>, last: bool)
    ensures WordsBytes(PackWords(data, last)) == data
    ensures |PackWords(data, last)| == (|data| + 3) / 4
    ensures forall w :: w in PackWords(data, last) ==> WordOk(w) && w < 0x200_0000_0000
    decreases |data|
  {
    if 0 < |data| <= 4 {
      PackWordFields(data, last);
      PackWordBytes(data, last);
    } else if |data| > 4 {
      PackWordFields(data[..4], false);
      PackWordBytes(data[..4], false);
      PackedBytes(data[4..], last);
      var words := PackWords(data, last);
      assert words[1..] == PackWords(data[4..], last);
      assert data == data[..4] + data[4..];
    }
  }

  lemma {:induction false} WordsBytesAppend(a: seq<nat>, b: seq<nat>)
    ensures WordsBytes(a + b) == WordsBytes(a) + WordsBytes(b)
    decreases |a|
  {
    if a == [] {
      assert a + b == b;
    } else {
      assert (a + b)[1..] == a[1..] + b;
      WordsBytesAppend(a[1..], b);
    }
  }

  lemma {:induction false} WordsBitsBytes(words: seq<nat>)
    ensures WordsBits(words) == Bits(WordsBytes(words))
    decreases |words|
  {
    if words == [] {
    } else {
      WordsBitsBytes(words[1..]);
      BitsAppend(WordBytes(words[0]), WordsBytes(words[1..]));
    }
  }

  /** A FIFO holding a packed byte string streams the string's bits. */
  lemma PackedStream(data: seq<byte>, last: bool)
    ensures WordsBits(PackWords(data, last)) == Bits(data)
  {
    PackedBytes(data, last);
    WordsBitsBytes(PackWords(data, last));
  }

  /** A FIFO of fewer than 64 words takes a packed word, and its bytes are then appended to the
      stream. */
  lemma PushExtendsStream(r: Reservoir, data: seq<byte>, last: bool)
    requires 1 <= |data| <= 4
    ensures var word := PackWord(data, last);
      && (CanPush(r.words, word) <==> |r.words| < 64)
      && (|r.words| < 64 ==>
            Stream(Push(r, word)) == Stream(r) + Bits(data) && Push(r, word).position == r.position)
  {
    hide PackWord, WordOk, WordBytes, WordsBits, Bits, Push;
    var word := PackWord(data, last);
    PackWordFields(data, last);
    PackWordBytes(data, last);
    if |r.words| < 64 {
      PushStores(r, word);
      WordsBitsAppend(r.words, word);
      assert r.bits + (WordsBits(r.words) + Bits(data)) == r.bits + WordsBits(r.words) + Bits(data);
    }
  }

  lemma PushStores(r: Reservoir, word: nat)
    requires word < 0x200_0000_0000 && CanPush(r.words, word)
    ensures Push(r, word) == r.(words := r.words + [word], pushed := r.pushed + [word])
  {
    hide WordOk;
  }

  lemma {:induction false} WordsBitsAppend(words: seq<nat>, word: nat)
    ensures WordsBits(words + [word]) == WordsBits(words) + Bits(WordBytes(word))
    decreases |words|
  {
    hide Bits, WordBytes;
    if words == [] {
      assert words + [word] == [word] && [word][1..] == [];
      assert WordsBits([word]) == Bits(WordBytes(word)) + WordsBits([]);
    } else {
      assert (words + [word])[1..] == words[1..] + [word];
      WordsBitsAppend(words[1..], word);
    }
  }
}
