/** The FLAC decoder accepts exactly the format: at every offset where it decodes a frame a
    written frame of those samples lies, and where it decodes a stream, a written stream. */
module WrittenFrames {
  import opened Common
  import opened Arithmetic
  import opened BitStream
  import opened BitReader
  import opened Crc
  import opened Residual
  import opened Subframe
  import opened Frame
  import opened FrameRoundTrip
  import opened WrittenSubframes
  import opened Suffixes
  import opened FlacStream
  import Coded = CodedNumber

  // ---------------------------------------------------------------- The header

  lemma FieldWritten(rest: seq<bit>, width: nat)
    requires GetHead(rest, width).Ok?
    ensures var (n, tail) := GetHead(rest, width).value; 0 <= n < Pow2(width) && rest == NatBits(n, width) + tail
  {
    hide NatBits, Value;
    BitsWritten(rest, width);
  }

  lemma LeadWritten(rest: seq<bit>)
    requires GetLead(rest).Ok?
    ensures var (lead, tail) := GetLead(rest).value;
      && lead.strategy < 2 && lead.blockCode < 16 && lead.rateCode < 16 && lead.assignment < 16 && lead.bitsCode < 8
      && rest == PutLead(lead, tail)
  {
    hide GetHead, NatBits;
    Coded.PowersOfTwo();
    assert Pow2(3) == 8 && Pow2(4) == 16;
    FieldWritten(rest, 14);
    var r0 := GetHead(rest, 14).value.1;
    FieldWritten(r0, 1);
    var r1 := GetHead(r0, 1).value.1;
    FieldWritten(r1, 1);
    var r2 := GetHead(r1, 1).value.1;
    FieldWritten(r2, 4);
    var r3 := GetHead(r2, 4).value.1;
    FieldWritten(r3, 4);
    var r4 := GetHead(r3, 4).value.1;
    FieldWritten(r4, 4);
    var r5 := GetHead(r4, 4).value.1;
    FieldWritten(r5, 3);
    var r6 := GetHead(r5, 3).value.1;
    FieldWritten(r6, 1);
  }

  lemma BlockWritten(rest: seq<bit>, code: nat)
    requires code < 16 && GetBlockSize(rest, code).Ok?
    ensures var (size, tail) := GetBlockSize(rest, code).value;
      && code >= 1 && size >= 1 && BlockFits(code, size) && rest == PutBlock(code, size) + tail
  {
    hide GetHead, NatBits, Pow2;
    Pow2Literals();
    if code == 6 {
      FieldWritten(rest, 8);
    } else if code == 7 {
      FieldWritten(rest, 16);
    } else {
      assert [] + rest == rest;
    }
  }

  lemma RateWritten(rest: seq<bit>, code: nat, streamRate: nat)
    requires GetRate(rest, code, streamRate).Ok?
    ensures var (rate, tail) := GetRate(rest, code, streamRate).value;
      && code < 15 && RateFits(code, rate, streamRate) && rest == PutRate(code, rate) + tail
  {
    hide GetHead, NatBits;
    Pow2Literals();
    if code == 12 || code == 13 || code == 14 {
      FieldWritten(rest, if code == 12 then 8 else 16);
    } else {
      assert [] + rest == rest;
    }
  }

  lemma FieldsWritten(rest: seq<bit>, meta: Meta)
    requires GetFields(rest, meta).Ok?
    ensures var (h, tail) := GetFields(rest, meta).value;
      HeadFits(h, meta) && h.blockSize >= 1 && rest == PutHead(h) + tail
  {
    hide GetLead, Coded.Decode, Coded.Encode, GetBlockSize, GetRate, PutLead, PutBlock, PutRate, BlockFits, RateFits,
      Bits;
    var (h, tail) := GetFields(rest, meta).value;
    LeadWritten(rest);
    var r1 := GetLead(rest).value.1;
    Coded.EncodeDecode(r1);
    var r2 := Coded.Decode(r1).value.1;
    BlockWritten(r2, h.lead.blockCode);
    RateWritten(GetBlockSize(r2, h.lead.blockCode).value.1, h.lead.rateCode, meta.rate);
    var number, block, rate := Bits(Coded.Encode(h.number)), PutBlock(h.lead.blockCode, h.blockSize),
      PutRate(h.lead.rateCode, h.rate);
    Onto(block, rate, tail);
    Onto(number, block + rate, tail);
    LeadAppend(h.lead, number + (block + rate), tail);
  }

  // ---------------------------------------------------------------- Bytes in place

  lemma {:induction false} BytesOfBits(data: seq<byte>)
    ensures Bytes(Bits(data)) == data
    decreases |data|
  {
    hide Value, NatBits;
    if data == [] {
    } else {
      BytesOfBits(data[1..]);
      ByteValue(data[0]);
      var bits := Bits(data);
      assert bits[..8] == NatBits(data[0], 8) && bits[8..] == Bits(data[1..]);
    }
  }

  lemma ByteValue(b: byte)
    ensures Value(NatBits(b, 8)) == b as nat
  {
    ValueOfNat(b, 8);
    assert Pow2(8) == 0x100;
  }

  /** What is left of a byte string behind some bits that started at a byte: the bytes read so
      far, if they are whole, and the position. */
  lemma ReadBytes(data: seq<byte>, start: nat, front: seq<bit>, rest: seq<bit>)
    requires start <= |data| && Bits(data)[8 * start..] == front + rest
    ensures Position(data, rest) == 8 * start + |front|
    ensures |front| % 8 == 0 ==>
      var k := Offset(data, rest);
      && start <= k <= |data| && k - start == |front| / 8 && Between(data, start, k) == Bytes(front)
      && rest == Bits(data[k..])
  {
    hide Bits, Bytes;
    assert |rest| == 8 * (|data| - start) - |front|;
    if |front| % 8 == 0 {
      var n := |front| / 8;
      var k := start + n;
      assert 8 * n == |front| && |front| <= 8 * (|data| - start);
      assert Offset(data, rest) == k;
      FrontBytes(data, start, n);
      BytesOfBits(data[start..k]);
      assert (front + rest)[..8 * n] == front;
      BitsFrom(data, k);
      assert Bits(data)[8 * k..] == Bits(data)[8 * start..][8 * n..];
      assert (front + rest)[8 * n..] == rest;
    }
  }

  lemma HeadWritten(data: seq<byte>, start: nat, meta: Meta, expected: Option<nat>)
    requires start <= |data| && GetHeadChecked(data, start, Bits(data)[8 * start..], meta, expected).Ok?
    ensures var (h, tail) := GetHeadChecked(data, start, Bits(data)[8 * start..], meta, expected).value;
      && HeadFits(h, meta) && h.blockSize >= 1 && OfStream(h, meta, expected)
      && Bits(data)[8 * start..] == Sealed(8, 0x07, PutHead(h)) + tail
  {
    hide GetFields, CheckHead, CrcOf, Bits, Bytes, PutHead, BlockFits, LeadFits, RateFits, NatBits, GetHead, Position,
      Offset, Between;
    var rest := Bits(data)[8 * start..];
    var (h, tail) := GetHeadChecked(data, start, rest, meta, expected).value;
    FieldsWritten(rest, meta);
    CheckHeadIff(h, meta, expected);
    CheckWritten(data, start, h, GetFields(rest, meta).value.1);
  }

  /** A check value read behind the header, which it agrees with. */
  lemma CheckWritten(data: seq<byte>, start: nat, h: Head, r1: seq<bit>)
    requires h.number < Coded.LIMIT && BlockFits(h.lead.blockCode, h.blockSize) && start <= |data|
    requires Bits(data)[8 * start..] == PutHead(h) + r1 && GetHead(r1, 8).Ok?
    requires CrcOf(8, 0x07, Between(data, start, Offset(data, r1))) == GetHead(r1, 8).value.0
    ensures Bits(data)[8 * start..] == Sealed(8, 0x07, PutHead(h)) + GetHead(r1, 8).value.1
  {
    hide CrcOf, Bits, Bytes, PutHead, BlockFits, NatBits, GetHead, Position, Offset, Between;
    ReadBytes(data, start, PutHead(h), r1);
    FieldWritten(r1, 8);
    var (check, tail) := GetHead(r1, 8).value;
    Onto(PutHead(h), NatBits(check, 8), tail);
  }

  // ---------------------------------------------------------------- The channels

  /** The written forms of the channels from `from` on. */
  ghost function PutList(channels: seq<Channel>, assignment: nat, bits: nat, blockSize: nat, from: nat): seq<bit>
    requires forall c :: 0 <= c < |channels| ==>
      ChannelFits(channels[c], SubframeBits(assignment, bits, from + c), blockSize)
    decreases |channels|
  {
    if channels == [] then []
    else
      assert forall c :: 0 <= c < |channels| - 1 ==> channels[1..][c] == channels[c + 1];
      assert ChannelFits(channels[0], SubframeBits(assignment, bits, from + 0), blockSize);
      PutSubframe(channels[0].plan, channels[0].coded, channels[0].wasted, SubframeBits(assignment, bits, from))
      + PutList(channels[1..], assignment, bits, blockSize, from + 1)
  }

  lemma {:induction false} ListIsChannels(channels: seq<Channel>, assignment: nat, bits: nat, blockSize: nat, from: nat)
    requires ChannelsFit(channels, assignment, bits, blockSize) && from <= |channels|
    ensures PutList(channels[from..], assignment, bits, blockSize, from)
      == PutChannels(channels, assignment, bits, blockSize, from)
    decreases |channels| - from
  {
    hide PutSubframe, ChannelFits;
    if from < |channels| {
      assert channels[from..][1..] == channels[from + 1..];
      ListIsChannels(channels, assignment, bits, blockSize, from + 1);
    }
  }

  lemma {:induction false} PlanarWritten(rest: seq<bit>, blockSize: nat, assignment: nat, bits: nat, from: nat)
    returns (channels: seq<Channel>)
    requires blockSize >= 1 && from <= ChannelCount(assignment)
    requires GetPlanar(rest, blockSize, assignment, bits, from).Ok?
    ensures |channels| == ChannelCount(assignment) - from
    ensures forall c :: 0 <= c < |channels| ==>
      ChannelFits(channels[c], SubframeBits(assignment, bits, from + c), blockSize)
    ensures var (planar, tail) := GetPlanar(rest, blockSize, assignment, bits, from).value;
      planar == Planar(channels) && rest == PutList(channels, assignment, bits, blockSize, from) + tail
    decreases ChannelCount(assignment) - from
  {
    hide GetSubframe, PutSubframe, Suits, AllS32;
    var (planar, tail) := GetPlanar(rest, blockSize, assignment, bits, from).value;
    if from == ChannelCount(assignment) {
      channels := [];
      assert [] + rest == rest;
    } else {
      var width := SubframeBits(assignment, bits, from);
      var plan, coded, wasted := SubframeWritten(rest, blockSize, width);
      var ch := Channel(plan, coded, wasted);
      SamplesScaled(ch);
      var after := GetSubframe(rest, blockSize, width).value.1;
      var others := PlanarWritten(after, blockSize, assignment, bits, from + 1);
      channels := [ch] + others;
      assert ChannelFits(ch, width, blockSize);
      forall c | 0 <= c < |channels|
        ensures ChannelFits(channels[c], SubframeBits(assignment, bits, from + c), blockSize)
      {
        if c > 0 {
          assert channels[c] == others[c - 1] && from + 1 + (c - 1) == from + c;
        }
      }
      assert channels[1..] == others && planar == [ch.Samples()] + Planar(others);
      Onto(PutSubframe(plan, coded, wasted, width), PutList(others, assignment, bits, blockSize, from + 1), tail);
    }
  }

  // ---------------------------------------------------------------- Decorrelation, padding and footer

  /** The other way around: what was combined splits into what it came from. */
  lemma SplitMixed(coded: seq<int>, assignment: nat)
    requires |coded| == ChannelCount(assignment)
    ensures Split(Mixed(coded, assignment), assignment) == coded
  {
    if assignment > 9 {
      var middle, side := 2 * coded[0] + coded[1] % 2, coded[1];
      assert (middle + side) % 2 == 0 && (middle - side) % 2 == 0;
    }
  }

  lemma {:induction false} InterleaveWritten(planar: seq<seq<int>>, assignment: nat, bits: nat, blockSize: nat,
    index: nat)
    requires Rectangular(planar, blockSize) && |planar| == ChannelCount(assignment) && bits >= 1 && index <= blockSize
    requires Interleave(planar, assignment, bits, blockSize, index).Ok?
    ensures var samples := Interleave(planar, assignment, bits, blockSize, index).value;
      && |samples| == blockSize - index
      && forall t :: 0 <= t < |samples| ==>
        && |samples[t]| == ChannelCount(assignment) && AllFitIn(samples[t], bits)
        && At(planar, index + t) == Split(samples[t], assignment)
    decreases blockSize - index
  {
    hide Mixed, Split, FitsSigned;
    if index < blockSize {
      var samples := Interleave(planar, assignment, bits, blockSize, index).value;
      InterleaveWritten(planar, assignment, bits, blockSize, index + 1);
      SplitMixed(At(planar, index), assignment);
      MixedSize(At(planar, index), assignment);
      forall t | 0 <= t < |samples|
        ensures |samples[t]| == ChannelCount(assignment) && AllFitIn(samples[t], bits)
        ensures At(planar, index + t) == Split(samples[t], assignment)
      {
        if t > 0 {
          assert samples[t] == samples[1..][t - 1] && index + t == index + 1 + (t - 1);
        }
      }
    }
  }

  lemma MixedSize(coded: seq<int>, assignment: nat)
    requires |coded| == ChannelCount(assignment)
    ensures |Mixed(coded, assignment)| == ChannelCount(assignment)
  {
  }

  lemma {:induction false} AlignWritten(rest: seq<bit>, position: nat)
    requires AlignZero(rest, position).Ok?
    ensures rest == Zeros(Padding(position)) + AlignZero(rest, position).value
    decreases (8 - position % 8) % 8
  {
    if position % 8 == 0 {
      assert Zeros(0) + rest == rest;
    } else {
      AlignWritten(rest[1..], position + 1);
      assert rest == [0] + rest[1..];
      assert Zeros(Padding(position)) == [0] + Zeros(Padding(position + 1));
    }
  }

  lemma PaddingPeriod(n: nat, start: nat)
    ensures Padding(8 * start + n) == Padding(n)
  {
  }

  /** An accepted tail is the padding and the check value of everything in front of it. */
  lemma TailWritten(data: seq<byte>, start: nat, contents: seq<bit>, rest: seq<bit>, meta: Meta)
    requires start <= |data| && Bits(data)[8 * start..] == contents + rest && GetTail(data, start, rest, meta).Ok?
    ensures var end := GetTail(data, start, rest, meta).value;
      && start <= end <= |data| && SizeFits(end - start, meta)
      && data[start..end] == Bytes(Sealed(16, 0x8005, Padded(contents)))
  {
    hide CrcOf, Bits, Bytes, GetHead, AlignZero, NatBits, Position, Offset, Between, Sealed, Padded;
    PaddingWritten(data, start, contents, rest);
    FooterWritten(data, start, Padded(contents), AlignZero(rest, Position(data, rest)).value);
  }

  lemma PaddingWritten(data: seq<byte>, start: nat, contents: seq<bit>, rest: seq<bit>)
    requires start <= |data| && Bits(data)[8 * start..] == contents + rest && AlignZero(rest, Position(data, rest)).Ok?
    ensures Bits(data)[8 * start..] == Padded(contents) + AlignZero(rest, Position(data, rest)).value
  {
    hide Bits, AlignZero, Padding, Position, Offset, Between;
    ReadBytes(data, start, contents, rest);
    var position := Position(data, rest);
    AlignWritten(rest, position);
    PaddingPeriod(|contents|, start);
    Onto(contents, Zeros(Padding(|contents|)), AlignZero(rest, position).value);
  }

  /** A check value read behind whole bytes, which it agrees with. */
  lemma FooterWritten(data: seq<byte>, start: nat, padded: seq<bit>, aligned: seq<bit>)
    requires |padded| % 8 == 0 && start <= |data| && Bits(data)[8 * start..] == padded + aligned
    requires GetHead(aligned, 16).Ok?
    requires CrcOf(16, 0x8005, Between(data, start, Offset(data, aligned))) == GetHead(aligned, 16).value.0
    ensures var end := Offset(data, GetHead(aligned, 16).value.1);
      start <= end <= |data| && data[start..end] == Bytes(Sealed(16, 0x8005, padded))
  {
    hide CrcOf, Bits, Bytes, GetHead, NatBits, Position, Offset, Between, Sealed;
    ReadBytes(data, start, padded, aligned);
    FieldWritten(aligned, 16);
    var (check, after) := GetHead(aligned, 16).value;
    SealedIs(padded, check);
    var sealed := Sealed(16, 0x8005, padded);
    Onto(padded, NatBits(check, 16), after);
    ReadBytes(data, start, sealed, after);
    BetweenIs(data, start, Offset(data, after));
  }

  lemma SealedIs(bits: seq<bit>, check: nat)
    requires |bits| % 8 == 0 && check == CrcOf(16, 0x8005, Bytes(bits))
    ensures Sealed(16, 0x8005, bits) == bits + NatBits(check, 16)
  {
    hide CrcOf, Bytes, NatBits;
  }

  lemma BetweenIs(data: seq<byte>, start: nat, end: nat)
    requires start <= end <= |data|
    ensures Between(data, start, end) == data[start..end]
  {
  }

  // ---------------------------------------------------------------- Frames

  lemma HeadCanBePut(h: Head, meta: Meta)
    requires HeadFits(h, meta)
    ensures h.number < Coded.LIMIT && BlockFits(h.lead.blockCode, h.blockSize)
  {
  }

  lemma AllFitFromStart(channels: seq<Channel>, assignment: nat, bits: nat, blockSize: nat)
    requires |channels| == ChannelCount(assignment)
    requires forall c :: 0 <= c < |channels| ==>
      ChannelFits(channels[c], SubframeBits(assignment, bits, 0 + c), blockSize)
    ensures ChannelsFit(channels, assignment, bits, blockSize)
  {
    hide ChannelFits, SubframeBits;
    forall c | 0 <= c < |channels|
      ensures ChannelFits(channels[c], SubframeBits(assignment, bits, c), blockSize)
    {
      assert ChannelFits(channels[c], SubframeBits(assignment, bits, 0 + c), blockSize);
    }
  }

  /** Where the decoder accepts a frame, a written frame of the decoded samples lies. */
  lemma FrameWritten(data: seq<byte>, start: nat, meta: Meta, expected: Option<nat>)
    returns (h: Head, channels: seq<Channel>)
    requires start <= |data| && meta.bits >= 1 && DecodeFrame(data, start, meta, expected).Ok?
    ensures var frame := DecodeFrame(data, start, meta, expected).value;
      && FrameFits(h, channels, frame.samples, meta, expected) && start <= frame.end <= |data|
      && data[start..frame.end] == PutFrame(h, channels, meta) && SizeFits(frame.end - start, meta)
      && frame.blockSize == |frame.samples| && frame.strategy == h.lead.strategy && frame.number == h.number
      && frame.samples != []
  {
    hide GetHeadChecked, GetPlanar, GetTail, Interleave, Bits, PutHead, PutList, PutChannels, Sealed, Padded, CrcOf,
      HeadFits, OfStream, ChannelFits, SizeFits, Bytes;
    var (head, r1) := GetHeadChecked(data, start, Bits(data)[8 * start..], meta, expected).value;
    h := head;
    HeadWritten(data, start, meta, expected);
    var assignment := h.lead.assignment;
    PlanarShape(r1, h.blockSize, assignment, meta.bits, 0);
    var (planar, r2) := GetPlanar(r1, h.blockSize, assignment, meta.bits, 0).value;
    channels := PlanarWritten(r1, h.blockSize, assignment, meta.bits, 0);
    assert channels[0..] == channels;
    AllFitFromStart(channels, assignment, meta.bits, h.blockSize);
    ListIsChannels(channels, assignment, meta.bits, h.blockSize, 0);
    HeadCanBePut(h, meta);
    var sealed := Sealed(8, 0x07, PutHead(h));
    Onto(sealed, PutChannels(channels, assignment, meta.bits, h.blockSize, 0), r2);
    TailWritten(data, start, PutContents(h, channels, meta), r2, meta);
    InterleaveWritten(planar, assignment, meta.bits, h.blockSize, 0);
  }

  /** A written frame of these samples lies in the data. */
  ghost predicate Lies(data: seq<byte>, start: nat, meta: Meta, expected: Option<nat>, f: Frame, h: Head,
    channels: seq<Channel>)
  {
    && FrameFits(h, channels, f.samples, meta, expected) && start <= f.end <= |data|
    && data[start..f.end] == PutFrame(h, channels, meta) && SizeFits(f.end - start, meta)
    && f.blockSize == |f.samples| && f.strategy == h.lead.strategy && f.number == h.number
  }

  /** The decoder accepts a frame if and only if a written frame lies there, and returns its
      samples, its end, its strategy and its number. */
  lemma FrameIff(data: seq<byte>, start: nat, meta: Meta, expected: Option<nat>, f: Frame)
    requires start <= |data| && meta.bits >= 1
    ensures DecodeFrame(data, start, meta, expected) == Ok(f) <==>
      exists h, channels :: Lies(data, start, meta, expected, f, h, channels)
  {
    hide DecodeFrame, PutFrame, FrameFits, SizeFits;
    if DecodeFrame(data, start, meta, expected) == Ok(f) {
      var h, channels := FrameWritten(data, start, meta, expected);
      assert Lies(data, start, meta, expected, f, h, channels);
    }
    if h, channels :| Lies(data, start, meta, expected, f, h, channels) {
      FrameDecodes(data[..start], h, channels, f.samples, meta, expected, data[f.end..]);
      assert data == data[..start] + data[start..f.end] + data[f.end..];
      FittingSize(h, channels, f.samples, meta, expected);
    }
  }

  lemma FittingSize(h: Head, channels: seq<Channel>, samples: seq<seq<int>>, meta: Meta, expected: Option<nat>)
    requires FrameFits(h, channels, samples, meta, expected)
    ensures h.blockSize == |samples| && HeadFits(h, meta)
  {
  }

  // ---------------------------------------------------------------- Streams

  /** The accepted frame as the next block. */
  lemma BlockFollows(data: seq<byte>, info: Info, s: State, frame: Frame, others: bool) returns (b: Block)
    requires info.meta.bits >= 1 && s.offset <= |data| && (s.strategy.None? ==> s.frames == 0 && s.samples == [])
    requires DecodeFrame(data, s.offset, info.meta, Some(s.Expected())) == Ok(frame)
    requires Accept(info, s, frame, |data|).Ok? && (others ==> !Final(info, s, |frame.samples|, frame.end, |data|))
    ensures Follows(b, info, s.(offset := 0), !others) && b.samples == frame.samples
    ensures s.offset < frame.end <= |data| && data[s.offset..frame.end] == Written(b, info, s.(offset := 0))
    ensures Accept(info, s, frame, |data|) == Ok(After(s, b).(offset := frame.end))
  {
    hide DecodeFrame, PutFrame, FrameFits, SizeFits;
    var h, channels := FrameWritten(data, s.offset, info.meta, Some(s.Expected()));
    AcceptedResidue(data, s.offset, info.meta, Some(s.Expected()));
    b := Block(h, channels, frame.samples);
    FittingSize(h, channels, frame.samples, info.meta, Some(s.Expected()));
    StrategyIs(info, s, frame, |data|);
    assert Number(b, s.(offset := 0)) == s.Expected();
    assert BlockWritable(b, info, s.Expected());
  }

  lemma StrategyIs(info: Info, s: State, frame: Frame, size: nat)
    requires Accept(info, s, frame, size).Ok?
    ensures s.strategy.Some? ==> s.strategy.value == frame.strategy
  {
  }

  lemma {:induction false} FramesWritten(data: seq<byte>, info: Info, s: State) returns (blocks: seq<Block>)
    requires info.meta.bits >= 1 && s.offset <= |data| && (s.strategy.None? ==> s.frames == 0 && s.samples == [])
    requires Frames(data, info, s).Ok?
    requires info.total.Some? ==> |Frames(data, info, s).value.samples| == info.total.value
    ensures !More(info, s, |data|) ==> blocks == []
    ensures Writable(blocks, info, s.(offset := 0))
    ensures var last := Frames(data, info, s).value;
      && s.offset <= last.offset <= |data| && last.samples == s.samples + AllSamples(blocks)
      && data[s.offset..last.offset] == PutStream(blocks, info, s.(offset := 0))
    decreases |data| - s.offset
  {
    hide DecodeFrame, PutFrame, BlockWritable, Accept;
    if !More(info, s, |data|) {
      blocks := [];
    } else {
      var frame := DecodeFrame(data, s.offset, info.meta, Some(s.Expected())).value;
      AcceptedResidue(data, s.offset, info.meta, Some(s.Expected()));
      var next := Accept(info, s, frame, |data|).value;
      SampleCounts(data, s.offset, info.meta, Some(s.Expected()));
      NextState(info, s, frame, |data|);
      var others := FramesWritten(data, info, next);
      var b := BlockFollows(data, info, s, frame, others != []);
      blocks := [b] + others;
      assert blocks[1..] == others && After(s.(offset := 0), b) == next.(offset := 0);
      Onto(s.samples, b.samples, AllSamples(others));
      var last := Frames(data, info, s).value;
      assert data[s.offset..last.offset] == data[s.offset..frame.end] + data[frame.end..last.offset];
    }
  }

  lemma SampleCounts(data: seq<byte>, start: nat, meta: Meta, expected: Option<nat>)
    requires start <= |data| && meta.bits >= 1 && DecodeFrame(data, start, meta, expected).Ok?
    ensures var f := DecodeFrame(data, start, meta, expected).value; f.blockSize == |f.samples|
  {
    hide DecodeFrame, PutFrame, FrameFits;
    var h, channels := FrameWritten(data, start, meta, expected);
  }

  lemma NextState(info: Info, s: State, frame: Frame, size: nat)
    requires Accept(info, s, frame, size).Ok? && frame.blockSize == |frame.samples|
    ensures var next := Accept(info, s, frame, size).value;
      && next == State(s.samples + frame.samples, s.frames + 1, Some(frame.strategy), frame.end)
      && (Final(info, s, |frame.samples|, frame.end, size) ==> !More(info, next, size))
  {
  }

  /** The written stream of these blocks lies in the data. */
  ghost predicate StreamLies(data: seq<byte>, start: nat, info: Info, audio: Audio, blocks: seq<Block>) {
    && Writable(blocks, info, State([], 0, None, 0)) && start <= audio.offset <= |data|
    && data[start..audio.offset] == PutStream(blocks, info, State([], 0, None, 0))
    && audio.samples == AllSamples(blocks) && audio.leftover == (audio.offset != |data|)
    && (info.total.None? ==> audio.offset == |data|)
  }

  /** The decoder accepts a stream if and only if a written stream with the announced numbers
      and sizes lies there - up to the end of the data, if decoding strictly - and returns the
      samples of its blocks. */
  lemma StreamIff(data: seq<byte>, start: nat, info: Info, strict: bool, audio: Audio)
    requires info.meta.bits >= 1 && start <= |data|
    ensures DecodeStream(data, start, info, strict) == Ok(audio) <==>
      (exists blocks :: StreamLies(data, start, info, audio, blocks)) && (strict ==> audio.offset == |data|)
  {
    hide Frames, PutStream, Writable;
    var s := State([], 0, None, start);
    if DecodeStream(data, start, info, strict) == Ok(audio) {
      var blocks := FramesWritten(data, info, s);
      assert [] + AllSamples(blocks) == AllSamples(blocks);
      if info.total.None? {
        EndReached(data, info, s);
      }
      assert StreamLies(data, start, info, audio, blocks);
    }
    if blocks :| StreamLies(data, start, info, audio, blocks) {
      StreamDecodes(data[..start], blocks, info, data[audio.offset..], strict);
      assert data == data[..start] + data[start..audio.offset] + data[audio.offset..];
    }
  }

  lemma {:induction false} EndReached(data: seq<byte>, info: Info, s: State)
    requires info.meta.bits >= 1 && s.offset <= |data| && Frames(data, info, s).Ok? && info.total.None?
    ensures Frames(data, info, s).value.offset >= |data|
    decreases |data| - s.offset
  {
    hide DecodeFrame, Accept;
    if More(info, s, |data|) {
      var frame := DecodeFrame(data, s.offset, info.meta, Some(s.Expected())).value;
      AcceptedResidue(data, s.offset, info.meta, Some(s.Expected()));
      SampleCounts(data, s.offset, info.meta, Some(s.Expected()));
      NextState(info, s, frame, |data|);
      EndReached(data, info, Accept(info, s, frame, |data|).value);
    }
  }
}
