/** A specification encoder for FLAC frames, and the proof that the decoder inverts it:
    header, coded number, subframes, decorrelation, padding and check values together. */
module FrameRoundTrip {
  import opened Common
  import opened Arithmetic
  import opened BitStream
  import opened BitReader
  import opened Crc
  import opened Residual
  import opened Subframe
  import opened Frame
  import Coded = CodedNumber

  // ---------------------------------------------------------------- Bytes of a bit string

  /** The bytes a whole number of octets spells. */
  function Bytes(bits: seq<bit>): (bytes: seq<byte>)
    requires |bits| % 8 == 0
    ensures |bytes| == |bits| / 8
    decreases |bits|
  {
    if bits == [] then []
    else
      ValueBound(bits[..8]);
      assert Pow2(8) == 0x100;
      [Value(bits[..8])] + Bytes(bits[8..])
  }

  lemma {:induction false} BitsOfBytes(bits: seq<bit>)
    requires |bits| % 8 == 0
    ensures Bits(Bytes(bits)) == bits
    decreases |bits|
  {
    hide Value, NatBits;
    if bits == [] {
    } else {
      BitsOfBytes(bits[8..]);
      NatOfValue(bits[..8]);
      assert Bytes(bits)[1..] == Bytes(bits[8..]);
      assert bits == bits[..8] + bits[8..];
    }
  }

  lemma {:induction false} BytesAppend(a: seq<bit>, b: seq<bit>)
    requires |a| % 8 == 0 && |b| % 8 == 0
    ensures Bytes(a + b) == Bytes(a) + Bytes(b)
    decreases |a|
  {
    hide Value;
    if a == [] {
      assert a + b == b;
    } else {
      assert (a + b)[..8] == a[..8] && (a + b)[8..] == a[8..] + b;
      BytesAppend(a[8..], b);
    }
  }

  // ---------------------------------------------------------------- The header

  predicate LeadFits(lead: Lead) {
    && lead.strategy < 2 && 1 <= lead.blockCode < 16 && lead.rateCode < 15 && lead.assignment < 16 && lead.bitsCode < 8
  }

  /** The first 32 bits, in front of the rest of the frame. */
  function PutLead(lead: Lead, tail: seq<bit>): (bits: seq<bit>)
    ensures |bits| == 32 + |tail|
  {
    NatBits(0x3FFE, 14) + (NatBits(0, 1) + (NatBits(lead.strategy, 1)
    + (NatBits(lead.blockCode, 4) + (NatBits(lead.rateCode, 4)
    + (NatBits(lead.assignment, 4) + (NatBits(lead.bitsCode, 3) + (NatBits(0, 1) + tail)))))))
  }

  lemma FieldRoundTrip(n: nat, width: nat, tail: seq<bit>)
    requires n < Pow2(width)
    ensures GetHead(NatBits(n, width) + tail, width) == Ok((n, tail))
  {
    hide GetBits;
    NatRoundTrip(n, width, tail);
  }

  lemma LeadRoundTrip(lead: Lead, tail: seq<bit>)
    requires LeadFits(lead)
    ensures GetLead(PutLead(lead, tail)) == Ok((lead, tail))
  {
    hide GetHead, NatBits;
    Coded.PowersOfTwo();
    assert Pow2(14) == 0x4000 by { Pow2Add(8, 6); }
    var t7 := NatBits(0, 1) + tail;
    var t6 := NatBits(lead.bitsCode, 3) + t7;
    var t5 := NatBits(lead.assignment, 4) + t6;
    var t4 := NatBits(lead.rateCode, 4) + t5;
    var t3 := NatBits(lead.blockCode, 4) + t4;
    var t2 := NatBits(lead.strategy, 1) + t3;
    var t1 := NatBits(0, 1) + t2;
    FieldRoundTrip(0x3FFE, 14, t1);
    FieldRoundTrip(0, 1, t2);
    FieldRoundTrip(lead.strategy, 1, t3);
    FieldRoundTrip(lead.blockCode, 4, t4);
    FieldRoundTrip(lead.rateCode, 4, t5);
    FieldRoundTrip(lead.assignment, 4, t6);
    FieldRoundTrip(lead.bitsCode, 3, t7);
    FieldRoundTrip(0, 1, tail);
  }

  lemma LeadAppend(lead: Lead, x: seq<bit>, y: seq<bit>)
    ensures PutLead(lead, x) + y == PutLead(lead, x + y)
  {
    hide NatBits;
    Onto(NatBits(0, 1), x, y);
    var t7 := NatBits(0, 1) + x;
    Onto(NatBits(lead.bitsCode, 3), t7, y);
    var t6 := NatBits(lead.bitsCode, 3) + t7;
    Onto(NatBits(lead.assignment, 4), t6, y);
    var t5 := NatBits(lead.assignment, 4) + t6;
    Onto(NatBits(lead.rateCode, 4), t5, y);
    var t4 := NatBits(lead.rateCode, 4) + t5;
    Onto(NatBits(lead.blockCode, 4), t4, y);
    var t3 := NatBits(lead.blockCode, 4) + t4;
    Onto(NatBits(lead.strategy, 1), t3, y);
    var t2 := NatBits(lead.strategy, 1) + t3;
    Onto(NatBits(0, 1), t2, y);
    Onto(NatBits(0x3FFE, 14), NatBits(0, 1) + t2, y);
  }

  lemma Onto<T>(a: seq<T>, b: seq<T>, c: seq<T>)
    ensures (a + b) + c == a + (b + c)
  {
  }

  predicate BlockFits(code: nat, size: nat) {
    if code == 1 then size == 192
    else if 2 <= code <= 5 then size == 576 * Pow2(code - 2)
    else if code == 6 then 1 <= size <= 0x100
    else if code == 7 then 1 <= size <= 0x1_0000
    else code >= 8 && size == 256 * Pow2(code - 8)
  }

  function PutBlock(code: nat, size: nat): (bits: seq<bit>)
    requires BlockFits(code, size)
    ensures |bits| % 8 == 0
  {
    if code == 6 then NatBits(size - 1, 8) else if code == 7 then NatBits(size - 1, 16) else []
  }

  lemma BlockRoundTrip(code: nat, size: nat, tail: seq<bit>)
    requires BlockFits(code, size)
    ensures GetBlockSize(PutBlock(code, size) + tail, code) == Ok((size, tail))
  {
    hide GetHead, NatBits;
    Pow2Literals();
    if code == 6 {
      FieldRoundTrip(size - 1, 8, tail);
    } else if code == 7 {
      FieldRoundTrip(size - 1, 16, tail);
    } else {
      assert [] + tail == tail;
    }
  }

  predicate RateFits(code: nat, rate: nat, streamRate: nat) {
    if code == 0 then rate == streamRate
    else if code <= 3 then rate == (if code == 1 then 88_200 else if code == 2 then 176_400 else 192_000)
    else if code <= 6 then rate == (if code == 4 then 8_000 else if code == 5 then 16_000 else 22_050)
    else if code <= 8 then rate == (if code == 7 then 24_000 else 32_000)
    else if code <= 11 then rate == (if code == 9 then 44_100 else if code == 10 then 48_000 else 96_000)
    else if code == 12 then rate % 1000 == 0 && rate / 1000 < 0x100
    else if code == 13 then rate < 0x1_0000
    else code == 14 && rate % 10 == 0 && rate / 10 < 0x1_0000
  }

  function PutRate(code: nat, rate: nat): (bits: seq<bit>)
    ensures |bits| % 8 == 0
  {
    if code == 12 then NatBits(rate / 1000, 8)
    else if code == 13 then NatBits(rate, 16)
    else if code == 14 then NatBits(rate / 10, 16)
    else []
  }

  lemma RateRoundTrip(code: nat, rate: nat, streamRate: nat, tail: seq<bit>)
    requires RateFits(code, rate, streamRate)
    ensures GetRate(PutRate(code, rate) + tail, code, streamRate) == Ok((rate, tail))
  {
    hide GetHead, NatBits;
    Pow2Literals();
    if code == 12 {
      FieldRoundTrip(rate / 1000, 8, tail);
    } else if code == 13 {
      FieldRoundTrip(rate, 16, tail);
    } else if code == 14 {
      FieldRoundTrip(rate / 10, 16, tail);
    } else {
      assert [] + tail == tail;
    }
  }

  /** The sample sizes of section 9.1.4 of RFC 9639. */
  predicate BitsFit(code: nat, bits: nat, streamBits: nat) {
    || (code == 0 && bits == streamBits) || (code == 1 && bits == 8) || (code == 2 && bits == 12)
    || (code == 4 && bits == 16) || (code == 5 && bits == 20) || (code == 6 && bits == 24) || (code == 7 && bits == 32)
  }

  /** The header can be written, and describes frames of this stream. */
  predicate HeadFits(h: Head, meta: Meta) {
    && LeadFits(h.lead) && h.number < Coded.LIMIT
    && BlockFits(h.lead.blockCode, h.blockSize) && RateFits(h.lead.rateCode, h.rate, meta.rate)
    && BitsFit(h.lead.bitsCode, h.bits, meta.bits)
  }

  /** The coded number and the explicit block size and rate. */
  function PutNumbers(h: Head): (bits: seq<bit>)
    requires h.number < Coded.LIMIT && BlockFits(h.lead.blockCode, h.blockSize)
  {
    Bits(Coded.Encode(h.number)) + (PutBlock(h.lead.blockCode, h.blockSize) + PutRate(h.lead.rateCode, h.rate))
  }

  lemma NumbersAreBytes(h: Head)
    requires h.number < Coded.LIMIT && BlockFits(h.lead.blockCode, h.blockSize)
    ensures |PutNumbers(h)| % 8 == 0
  {
    hide BlockFits, PutBlock, PutRate, Bits, Coded.Encode;
  }

  function PutHead(h: Head): (bits: seq<bit>)
    requires h.number < Coded.LIMIT && BlockFits(h.lead.blockCode, h.blockSize)
    ensures |bits| % 8 == 0
  {
    NumbersAreBytes(h);
    WholeBytes(h.lead, PutNumbers(h));
    PutLead(h.lead, PutNumbers(h))
  }

  lemma WholeBytes(lead: Lead, tail: seq<bit>)
    requires |tail| % 8 == 0
    ensures |PutLead(lead, tail)| % 8 == 0
  {
    hide PutLead;
  }

  lemma HeadRoundTrip(h: Head, meta: Meta, tail: seq<bit>)
    requires HeadFits(h, meta)
    ensures GetFields(PutHead(h) + tail, meta) == Ok((h, tail))
  {
    hide GetLead, Coded.Decode, Coded.Encode, GetBlockSize, GetRate, PutLead, PutBlock, PutRate, LeadFits, BlockFits,
      RateFits, Bits;
    var number, block, rate := Bits(Coded.Encode(h.number)), PutBlock(h.lead.blockCode, h.blockSize),
      PutRate(h.lead.rateCode, h.rate);
    var t3 := rate + tail;
    var t2 := block + t3;
    var t1 := number + t2;
    LeadAppend(h.lead, number + (block + rate), tail);
    Onto(number, block + rate, tail);
    Onto(block, rate, tail);
    LeadRoundTrip(h.lead, t1);
    Coded.DecodeEncode(h.number, t2);
    BlockRoundTrip(h.lead.blockCode, h.blockSize, t3);
    RateRoundTrip(h.lead.rateCode, h.rate, meta.rate, tail);
  }

  // ---------------------------------------------------------------- The channels

  /** How one channel is written: `coded` times two to the number of wasted bits. */
  datatype Channel = Channel(plan: Plan, coded: seq<int>, wasted: nat) {
    function Samples(): (s: seq<int>)
      ensures |s| == |coded|
    {
      seq(|coded|, k requires 0 <= k < |coded| => coded[k] * Pow2(wasted))
    }
  }

  lemma SamplesScaled(ch: Channel)
    ensures ch.Samples() == Scaled(ch.coded, ch.wasted)
  {
  }

  /** The channel of a pair that carries a difference needs one more bit: the second of
      left-side and of mid-side, the first of side-right. */
  function SubframeBits(assignment: nat, bits: nat, channel: nat): nat {
    if assignment in {8, 10} && channel == 1 then bits + 1
    else if assignment == 9 && channel == 0 then bits + 1
    else bits
  }

  /** Independent channels, or a pair. */
  function ChannelCount(assignment: nat): nat { if assignment < 8 then 1 + assignment else 2 }

  ghost predicate ChannelFits(ch: Channel, width: nat, blockSize: nat) {
    && |ch.coded| == blockSize && ch.wasted < width && ch.wasted <= RUN_LIMIT + 1
    && Suits(ch.plan, ch.coded, width - ch.wasted) && AllS32(ch.Samples())
  }

  ghost predicate ChannelsFit(channels: seq<Channel>, assignment: nat, bits: nat, blockSize: nat) {
    && |channels| == ChannelCount(assignment)
    && forall c :: 0 <= c < |channels| ==> ChannelFits(channels[c], SubframeBits(assignment, bits, c), blockSize)
  }

  ghost function PutChannels(channels: seq<Channel>, assignment: nat, bits: nat, blockSize: nat, from: nat): seq<bit>
    requires ChannelsFit(channels, assignment, bits, blockSize)
    decreases |channels| - from
  {
    if from >= |channels| then []
    else
      PutSubframe(channels[from].plan, channels[from].coded, channels[from].wasted,
                  SubframeBits(assignment, bits, from))
      + PutChannels(channels, assignment, bits, blockSize, from + 1)
  }

  function Planar(channels: seq<Channel>): (planar: seq<seq<int>>)
    ensures |planar| == |channels|
  {
    seq(|channels|, c requires 0 <= c < |channels| => channels[c].Samples())
  }

  lemma {:induction false} ChannelsRoundTrip(channels: seq<Channel>, assignment: nat, bits: nat, blockSize: nat,
    from: nat, tail: seq<bit>)
    requires ChannelsFit(channels, assignment, bits, blockSize) && from <= |channels|
    ensures GetPlanar(PutChannels(channels, assignment, bits, blockSize, from) + tail, blockSize, assignment, bits,
      from)
         == Ok((Planar(channels)[from..], tail))
    decreases |channels| - from
  {
    hide PutSubframe, GetSubframe, Suits, AllS32;
    if from == |channels| {
      assert [] + tail == tail;
    } else {
      var ch := channels[from];
      var first := PutSubframe(ch.plan, ch.coded, ch.wasted, SubframeBits(assignment, bits, from));
      var others := PutChannels(channels, assignment, bits, blockSize, from + 1);
      Onto(first, others, tail);
      SamplesScaled(ch);
      SubframeRoundTrip(ch.plan, ch.coded, ch.wasted, SubframeBits(assignment, bits, from), others + tail);
      ChannelsRoundTrip(channels, assignment, bits, blockSize, from + 1, tail);
      assert [ch.Samples()] + Planar(channels)[from + 1..] == Planar(channels)[from..];
    }
  }

  /** The channels carry the samples, decorrelated. */
  predicate Carries(planar: seq<seq<int>>, samples: seq<seq<int>>, assignment: nat, bits: nat)
    requires bits >= 1
  {
    && Rectangular(planar, |samples|) && |planar| == ChannelCount(assignment)
    && forall t :: 0 <= t < |samples| ==>
         && |samples[t]| == ChannelCount(assignment) && AllFitIn(samples[t], bits)
         && At(planar, t) == Split(samples[t], assignment)
  }

  lemma {:induction false} InterleaveRoundTrip(planar: seq<seq<int>>, samples: seq<seq<int>>, assignment: nat,
    bits: nat, index: nat)
    requires bits >= 1 && Carries(planar, samples, assignment, bits) && index <= |samples|
    ensures Interleave(planar, assignment, bits, |samples|, index) == Ok(samples[index..])
    decreases |samples| - index
  {
    hide Mixed, Split, FitsSigned;
    if index < |samples| {
      assert At(planar, index) == Split(samples[index], assignment);
      MixedSplit(samples[index], assignment);
      InterleaveRoundTrip(planar, samples, assignment, bits, index + 1);
      assert [samples[index]] + samples[index + 1..] == samples[index..];
    } else {
      assert samples[index..] == [];
    }
  }

  // ---------------------------------------------------------------- The frame

  function Padding(n: nat): (pad: nat)
    ensures pad < 8 && (n + pad) % 8 == 0
  {
    (8 - n % 8) % 8
  }

  lemma {:induction false} PaddingRoundTrip(pad: nat, position: nat, tail: seq<bit>)
    requires pad < 8 && (position + pad) % 8 == 0
    ensures AlignZero(Zeros(pad) + tail, position) == Ok(tail)
    decreases pad
  {
    if pad == 0 {
      assert Zeros(0) + tail == tail;
    } else {
      PaddingRoundTrip(pad - 1, position + 1, tail);
      assert (Zeros(pad) + tail)[1..] == Zeros(pad - 1) + tail;
    }
  }

  /** The header is one of this stream: same rate, channels and sample size, a block of at
      most 4096 mono or 2048 other samples, and the number expected, if any. */
  predicate OfStream(h: Head, meta: Meta, expected: Option<nat>) {
    && h.lead.assignment <= 10 && h.rate == meta.rate && h.bits == meta.bits
    && ChannelCount(h.lead.assignment) == meta.channels
    && h.blockSize <= (if meta.channels == 1 then 4096 else 2048)
    && (expected.None? || h.number == expected.value)
  }

  /** Exactly such headers pass the decoder's checks. */
  lemma CheckHeadIff(h: Head, meta: Meta, expected: Option<nat>)
    ensures CheckHead(h, meta, expected).Ok? <==> OfStream(h, meta, expected)
  {
  }

  /** A header and channels that together make a frame of the stream. */
  ghost predicate FrameFits(h: Head, channels: seq<Channel>, samples: seq<seq<int>>, meta: Meta,
    expected: Option<nat>) {
    && meta.bits >= 1 && HeadFits(h, meta) && OfStream(h, meta, expected) && h.blockSize == |samples|
    && ChannelsFit(channels, h.lead.assignment, meta.bits, h.blockSize)
    && Carries(Planar(channels), samples, h.lead.assignment, meta.bits)
  }

  /** Bits followed by zeros up to the byte boundary. */
  function Padded(bits: seq<bit>): (padded: seq<bit>)
    ensures |padded| % 8 == 0
  {
    bits + Zeros(Padding(|bits|))
  }

  /** Whole bytes followed by their check value. */
  function Sealed(width: nat, poly: nat, bits: seq<bit>): (sealed: seq<bit>)
    requires |bits| % 8 == 0 && width % 8 == 0 && width >= 1 && poly % 2 == 1
    ensures |sealed| % 8 == 0
  {
    bits + NatBits(CrcOf(width, poly, Bytes(bits)), width)
  }

  /** Everything in front of the padding. */
  ghost function PutContents(h: Head, channels: seq<Channel>, meta: Meta): seq<bit>
    requires HeadFits(h, meta) && ChannelsFit(channels, h.lead.assignment, meta.bits, h.blockSize)
  {
    Sealed(8, 0x07, PutHead(h)) + PutChannels(channels, h.lead.assignment, meta.bits, h.blockSize, 0)
  }

  /** The frame: sealed header, subframes, padding, all sealed again. */
  ghost function PutFrame(h: Head, channels: seq<Channel>, meta: Meta): seq<byte>
    requires HeadFits(h, meta) && ChannelsFit(channels, h.lead.assignment, meta.bits, h.blockSize)
  {
    Bytes(Sealed(16, 0x8005, Padded(PutContents(h, channels, meta))))
  }

  predicate SizeFits(size: nat, meta: Meta) {
    (meta.minimumFrame != 0 ==> meta.minimumFrame <= size) && (meta.maximumFrame != 0 ==> size <= meta.maximumFrame)
      && size <= 65536
  }

  lemma CrcFits(width: nat, poly: nat, data: seq<byte>)
    requires width >= 1 && poly % 2 == 1
    ensures CrcOf(width, poly, data) < Pow2(width)
  {
    ValueBound(Remainder(GeneratorOf(width, poly), Bits(data)));
  }

  /** The frame in its place: a byte string, the bits from the frame on, and the bytes
      of any prefix of it. */
  lemma InPlace(before: seq<byte>, prefix: seq<bit>, suffix: seq<bit>, after: seq<byte>)
    requires |prefix| % 8 == 0 && |suffix| % 8 == 0
    ensures var data := before + Bytes(prefix + suffix) + after;
      && |data| == |before| + |prefix| / 8 + |suffix| / 8 + |after|
      && Bits(data)[8 * |before|..] == prefix + (suffix + Bits(after))
      && Offset(data, suffix + Bits(after)) == |before| + |prefix| / 8
      && Position(data, suffix + Bits(after)) == 8 * |before| + |prefix|
      && Between(data, |before|, |before| + |prefix| / 8) == Bytes(prefix)
  {
    hide Bits, Bytes;
    var frame := Bytes(prefix + suffix);
    var data := before + frame + after;
    BytesAppend(prefix, suffix);
    BitsOfBytes(prefix + suffix);
    BitsAppend(frame, after);
    BitsAppend(before, frame + after);
    assert data == before + (frame + after);
    DropFront(Bits(before), Bits(frame + after), 8 * |before|);
    Onto(prefix, suffix, Bits(after));
    InMiddle(before, Bytes(prefix), Bytes(suffix), after);
  }

  lemma InMiddle<T>(a: seq<T>, b: seq<T>, c: seq<T>, d: seq<T>)
    ensures (a + (b + c) + d)[|a|..|a| + |b|] == b
  {
  }

  lemma CheckedRoundTrip(
    data: seq<byte>, before: seq<byte>, h: Head, meta: Meta, expected: Option<nat>, frame: seq<bit>, suffix: seq<bit>,
      after: seq<byte>)
    requires HeadFits(h, meta) && CheckHead(h, meta, expected).Ok? && |suffix| % 8 == 0
    requires frame == Sealed(8, 0x07, PutHead(h)) + suffix && |frame| % 8 == 0 && data == before + Bytes(frame) + after
    ensures GetHeadChecked(data, |before|, Bits(data)[8 * |before|..], meta, expected) == Ok((h, suffix + Bits(after)))
  {
    hide PutHead, GetFields, CrcOf, Bits, Bytes, GetHead, CheckHead, LeadFits, BlockFits, RateFits, Offset, Position,
      Between;
    var head := PutHead(h);
    var check := CrcOf(8, 0x07, Bytes(head));
    var rest := NatBits(check, 8) + suffix;
    Onto(head, NatBits(check, 8), suffix);
    Onto(NatBits(check, 8), suffix, Bits(after));
    assert frame == head + rest;
    InPlace(before, head, rest, after);
    HeadRoundTrip(h, meta, rest + Bits(after));
    CrcFits(8, 0x07, Bytes(head));
    assert Pow2(8) == 0x100;
    FieldRoundTrip(check, 8, suffix + Bits(after));
  }

  lemma TailRoundTrip(before: seq<byte>, contents: seq<bit>, meta: Meta, after: seq<byte>)
    requires SizeFits(|Bytes(Sealed(16, 0x8005, Padded(contents)))|, meta)
    ensures var frame := Bytes(Sealed(16, 0x8005, Padded(contents)));
      var data := before + frame + after;
      var footer := NatBits(CrcOf(16, 0x8005, Bytes(Padded(contents))), 16) + Bits(after);
      GetTail(data, |before|, Zeros(Padding(|contents|)) + footer, meta) == Ok(|before| + |frame|)
  {
    hide CrcOf, Bits, Bytes, GetHead, AlignZero, Padding;
    var padded, pad := Padded(contents), Padding(|contents|);
    var check := CrcOf(16, 0x8005, Bytes(padded));
    var data := before + Bytes(Sealed(16, 0x8005, padded)) + after;
    InPlace(before, padded, NatBits(check, 16), after);
    var footer := NatBits(check, 16) + Bits(after);
    var rest := Zeros(pad) + footer;
    assert Position(data, rest) == 8 * |before| + |contents|;
    PaddingRoundTrip(pad, Position(data, rest), footer);
    CrcFits(16, 0x8005, Bytes(padded));
    FieldRoundTrip(check, 16, Bits(after));
    assert Offset(data, Bits(after)) == |before| + |padded| / 8 + 2;
  }

  /** The decoder inverts the encoder: for every header the format can express, every
      prediction and coding of every channel and every decorrelation, decoding the
      frame, wherever it lies, returns the samples and stops at its last byte. */
  lemma FrameDecodes(
    before: seq<byte>, h: Head, channels: seq<Channel>, samples: seq<seq<int>>, meta: Meta, expected: Option<nat>,
      after: seq<byte>)
    requires FrameFits(h, channels, samples, meta, expected) && SizeFits(|PutFrame(h, channels, meta)|, meta)
    ensures var frame := PutFrame(h, channels, meta);
      DecodeFrame(before + frame + after, |before|, meta, expected)
      == Ok(Frame(samples, |before| + |frame|, |samples|, h.lead.strategy, h.number))
  {
    hide PutHead, CrcOf, Bits, Bytes, GetHeadChecked, GetPlanar, GetTail, Interleave, PutChannels, Planar, LeadFits,
      BlockFits, RateFits,
      CheckHead, OfStream, ChannelsFit, Padding, Sealed, Carries;
    var sealed := Sealed(8, 0x07, PutHead(h));
    var body := PutChannels(channels, h.lead.assignment, meta.bits, h.blockSize, 0);
    var contents := sealed + body;
    var data := before + PutFrame(h, channels, meta) + after;
    var tail := Zeros(Padding(|contents|)) + (NatBits(CrcOf(16, 0x8005, Bytes(Padded(contents))), 16) + Bits(after));
    CheckHeadIff(h, meta, expected);
    HeadDecodes(data, before, h, channels, meta, expected, after);
    ChannelsRoundTrip(channels, h.lead.assignment, meta.bits, h.blockSize, 0, tail);
    assert Planar(channels)[0..] == Planar(channels);
    TailRoundTrip(before, contents, meta, after);
    InterleaveRoundTrip(Planar(channels), samples, h.lead.assignment, meta.bits, 0);
    assert samples[0..] == samples;
  }

  lemma HeadDecodes(
    data: seq<byte>, before: seq<byte>, h: Head, channels: seq<Channel>, meta: Meta, expected: Option<nat>,
      after: seq<byte>)
    requires HeadFits(h, meta) && CheckHead(h, meta, expected).Ok?
    requires ChannelsFit(channels, h.lead.assignment, meta.bits, h.blockSize)
      && data == before + PutFrame(h, channels, meta) + after
    ensures var body := PutChannels(channels, h.lead.assignment, meta.bits, h.blockSize, 0);
      var contents := Sealed(8, 0x07, PutHead(h)) + body;
      var tail := Zeros(Padding(|contents|)) + (NatBits(CrcOf(16, 0x8005, Bytes(Padded(contents))), 16) + Bits(after));
      GetHeadChecked(data, |before|, Bits(data)[8 * |before|..], meta, expected) == Ok((h, body + tail))
  {
    hide PutHead, CrcOf, Bits, Bytes, GetHeadChecked, PutChannels, LeadFits, BlockFits, RateFits, CheckHead,
      ChannelsFit, Padding, Sealed;
    var sealed := Sealed(8, 0x07, PutHead(h));
    var body := PutChannels(channels, h.lead.assignment, meta.bits, h.blockSize, 0);
    var contents := sealed + body;
    var pad := Zeros(Padding(|contents|));
    var check := NatBits(CrcOf(16, 0x8005, Bytes(Padded(contents))), 16);
    SealedSplit(sealed, body);
    CheckedRoundTrip(data, before, h, meta, expected, Sealed(16, 0x8005, Padded(contents)), body + (pad + check),
      after);
    Onto(body, pad + check, Bits(after));
    Onto(pad, check, Bits(after));
  }

  lemma SealedSplit(sealed: seq<bit>, body: seq<bit>)
    requires |sealed| % 8 == 0
    ensures var contents := sealed + body;
      var check := NatBits(CrcOf(16, 0x8005, Bytes(Padded(contents))), 16);
      && Sealed(16, 0x8005, Padded(contents)) == sealed + (body + (Zeros(Padding(|contents|)) + check))
      && (|body| + Padding(|contents|) + 16) % 8 == 0
  {
    hide CrcOf, Bytes, Padding;
    var contents := sealed + body;
    var pad := Zeros(Padding(|contents|));
    var check := NatBits(CrcOf(16, 0x8005, Bytes(Padded(contents))), 16);
    Onto(contents, pad, check);
    Onto(sealed, body, pad + check);
  }

  // ---------------------------------------------------------------- Every block can be written

  /** One channel of a block, written verbatim. */
  function VerbatimChannel(samples: seq<seq<int>>, channel: nat): (ch: Channel)
    requires forall t :: 0 <= t < |samples| ==> channel < |samples[t]|
    ensures |ch.coded| == |samples|
  {
    Channel(Verbatim, seq(|samples|, t requires 0 <= t < |samples| => samples[t][channel]), 0)
  }

  lemma VerbatimFits(samples: seq<seq<int>>, channel: nat, bits: nat)
    requires 1 <= bits <= 32
    requires forall t :: 0 <= t < |samples| ==> channel < |samples[t]| && AllFitIn(samples[t], bits)
    ensures var ch := VerbatimChannel(samples, channel);
      ChannelFits(ch, bits, |samples|) && ch.Samples() == ch.coded
  {
    var ch := VerbatimChannel(samples, channel);
    Pow2Monotone(bits - 1, 31);
    Pow2Literals();
    forall t | 0 <= t < |samples|
      ensures ch.Samples()[t] == ch.coded[t] && FitsSigned(ch.coded[t], bits) && InS32(ch.coded[t])
    {
      assert FitsSigned(samples[t][channel], bits);
    }
  }

  /** The round trip covers every block: whatever the samples, some header and some
      coding of the channels make a frame of them. */
  lemma EveryBlockFits(samples: seq<seq<int>>, number: nat, meta: Meta) returns (h: Head, channels: seq<Channel>)
    requires 1 <= meta.channels <= 8 && 1 <= meta.bits <= 32 && number < Coded.LIMIT
    requires 1 <= |samples| <= (if meta.channels == 1 then 4096 else 2048)
    requires forall t :: 0 <= t < |samples| ==> |samples[t]| == meta.channels && AllFitIn(samples[t], meta.bits)
    ensures FrameFits(h, channels, samples, meta, Some(number))
  {
    hide ChannelFits, FitsSigned;
    h := Head(Lead(0, 7, 0, meta.channels - 1, 0), number, |samples|, meta.rate, meta.bits);
    channels := seq(meta.channels, c requires 0 <= c < meta.channels => VerbatimChannel(samples, c));
    forall c: nat | c < meta.channels
      ensures ChannelFits(channels[c], meta.bits, |samples|) && channels[c].Samples() == channels[c].coded
    {
      VerbatimFits(samples, c, meta.bits);
    }
    var planar := Planar(channels);
    forall t: nat | t < |samples|
      ensures At(planar, t) == samples[t]
    {
    }
  }
}
