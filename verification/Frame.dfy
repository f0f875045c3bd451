/** FLAC frames (section 9 of RFC 9639): header, coded number, subframes, channel
    decorrelation, padding and both check values. */
module Frame {
  import opened Common
  import opened BitStream
  import opened BitReader
  import opened Crc
  import Coded = CodedNumber
  import opened Subframe
  import opened Suffixes

  const TRUNCATED_HEADER: Error := Coded.TRUNCATED_HEADER
  const BAD_HEADER: Error := Error(4, 4, 0x17)
  const CHANGED_FORMAT: Error := Error(4, 4, 0x18)
  const OUT_OF_LIMITS: Error := Error(3, 4, 0x04)
  const WRONG_NUMBER: Error := Error(4, 4, 0x1A)
  const BAD_CRC8: Error := Error(6, 4, 0x30)
  const BAD_CRC16: Error := Error(6, 4, 0x31)

  /** What the stream's metadata says about every frame. */
  datatype Meta = Meta(minimumFrame: nat, maximumFrame: nat, rate: nat, channels: nat, bits: nat)

  /** The codes in the first 32 bits of a frame. */
  datatype Lead = Lead(strategy: nat, blockCode: nat, rateCode: nat, assignment: nat, bitsCode: nat)

  datatype Frame = Frame(samples: seq<seq<int>>, end: nat, blockSize: nat, strategy: nat, number: nat)

  // ---------------------------------------------------------------- The decoder

  function GetHead(rest: seq<bit>, width: nat): Parsed<nat> {
    match GetBits(rest, width)
    case Err(_) => Err(TRUNCATED_HEADER)
    case Ok(read) => Ok(read)
  }

  function GetLead(rest: seq<bit>): Parsed<Lead> {
    var (sync, r0) :- GetHead(rest, 14);
    if sync != 0x3FFE then Err(BAD_HEADER)
    else
      var (zero, r1) :- GetHead(r0, 1);
      if zero != 0 then Err(BAD_HEADER)
      else
        var (strategy, r2) :- GetHead(r1, 1);
        var (blockCode, r3) :- GetHead(r2, 4);
        var (rateCode, r4) :- GetHead(r3, 4);
        var (assignment, r5) :- GetHead(r4, 4);
        var (bitsCode, r6) :- GetHead(r5, 3);
        var (reserved, r7) :- GetHead(r6, 1);
        if reserved != 0 then Err(BAD_HEADER)
        else Ok((Lead(strategy, blockCode, rateCode, assignment, bitsCode), r7))
  }

  /** `_block_size` */
  function GetBlockSize(rest: seq<bit>, code: nat): Parsed<nat> {
    if code == 0 then Err(BAD_HEADER)
    else if code == 1 then Ok((192, rest))
    else if code <= 5 then Ok((576 * Pow2(code - 2), rest))
    else if code == 6 then var (size, after) :- GetHead(rest, 8); Ok((size + 1, after))
    else if code == 7 then var (size, after) :- GetHead(rest, 16); Ok((size + 1, after))
    else Ok((256 * Pow2(code - 8), rest))
  }

  const RATES: seq<nat> := [0, 88200, 176400, 192000, 8000, 16000, 22050, 24000, 32000, 44100, 48000, 96000]

  /** `_sample_rate` */
  function GetRate(rest: seq<bit>, code: nat, streamRate: nat): Parsed<nat> {
    if code == 0 then Ok((streamRate, rest))
    else if code <= 11 then Ok((RATES[code], rest))
    else if code == 12 then var (rate, after) :- GetHead(rest, 8); Ok((rate * 1000, after))
    else if code == 13 then GetHead(rest, 16)
    else if code == 14 then var (rate, after) :- GetHead(rest, 16); Ok((rate * 10, after))
    else Err(BAD_HEADER)
  }

  /** `_sample_bits` */
  function SampleBits(code: nat, streamBits: nat): Result<nat, Error> {
    if code == 0 then Ok(streamBits)
    else if code == 1 then Ok(8)
    else if code == 2 then Ok(12)
    else if 4 <= code <= 6 then Ok(4 * code)
    else if code == 7 then Ok(32)
    else Err(BAD_HEADER)
  }

  function Channels(assignment: nat): nat { if assignment <= 7 then assignment + 1 else 2 }

  /** The difference channel needs one more bit. */
  function ChannelBits(assignment: nat, bits: nat, channel: nat): nat {
    if (assignment == 8 && channel == 1) || (assignment == 9 && channel == 0)
      || (assignment == 10 && channel == 1) then bits + 1
    else bits
  }

  function GetPlanar(rest: seq<bit>, blockSize: nat, assignment: nat, bits: nat, channel: nat): Parsed<seq<seq<int>>>
    decreases Channels(assignment) - channel
  {
    if channel >= Channels(assignment) then Ok(([], rest))
    else
      var (samples, after) :- GetSubframe(rest, blockSize, ChannelBits(assignment, bits, channel));
      var (others, tail) :- GetPlanar(after, blockSize, assignment, bits, channel + 1);
      Ok(([samples] + others, tail))
  }

  /** The samples of all channels at one point in time, undoing the decorrelation. */
  function Mixed(coded: seq<int>, assignment: nat): seq<int>
    requires assignment > 7 ==> |coded| >= 2
  {
    if assignment <= 7 then coded
    else if assignment == 8 then [coded[0], coded[0] - coded[1]]
    else if assignment == 9 then [coded[0] + coded[1], coded[1]]
    else
      var middle := 2 * coded[0] + coded[1] % 2;
      [(middle + coded[1]) / 2, (middle - coded[1]) / 2]
  }

  function At(planar: seq<seq<int>>, index: nat): seq<int>
    requires forall c :: 0 <= c < |planar| ==> index < |planar[c]|
  {
    seq(|planar|, c requires 0 <= c < |planar| => planar[c][index])
  }

  predicate AllFitIn(values: seq<int>, bits: nat)
    requires bits >= 1
  {
    forall k :: 0 <= k < |values| ==> FitsSigned(values[k], bits)
  }

  predicate Rectangular(planar: seq<seq<int>>, blockSize: nat) {
    forall c :: 0 <= c < |planar| ==> |planar[c]| == blockSize
  }

  /** Interleaves the channels from `index` on. */
  function Interleave(planar: seq<seq<int>>, assignment: nat, bits: nat, blockSize: nat, index: nat)
    : Result<seq<seq<int>>, Error>
    requires Rectangular(planar, blockSize) && |planar| == Channels(assignment) && bits >= 1
    decreases blockSize - index
  {
    if index >= blockSize then Ok([])
    else
      var values := Mixed(At(planar, index), assignment);
      if !AllFitIn(values, bits) then Err(OUT_OF_RANGE)
      else
        var rest :- Interleave(planar, assignment, bits, blockSize, index + 1);
        Ok([values] + rest)
  }

  lemma {:induction false} PlanarShape(rest: seq<bit>, blockSize: nat, assignment: nat, bits: nat, channel: nat)
    requires channel <= Channels(assignment)
    ensures var r := GetPlanar(rest, blockSize, assignment, bits, channel);
      r.Ok? ==> |r.value.0| == Channels(assignment) - channel && Rectangular(r.value.0, blockSize)
    decreases Channels(assignment) - channel
  {
    hide GetSubframe;
    if channel < Channels(assignment) {
      var width := ChannelBits(assignment, bits, channel);
      SubframeCount(rest, blockSize, width);
      if GetSubframe(rest, blockSize, width).Ok? {
        PlanarShape(GetSubframe(rest, blockSize, width).value.1, blockSize, assignment, bits, channel + 1);
      }
    }
  }

  /** Everything a frame header says, and where it ends. */
  datatype Head = Head(lead: Lead, number: nat, blockSize: nat, rate: nat, bits: nat)

  function GetFields(rest: seq<bit>, meta: Meta): Parsed<Head> {
    var (lead, r1) :- GetLead(rest);
    var (number, r2) :- Coded.Decode(r1);
    var (blockSize, r3) :- GetBlockSize(r2, lead.blockCode);
    var (rate, r4) :- GetRate(r3, lead.rateCode, meta.rate);
    var bits :- SampleBits(lead.bitsCode, meta.bits);
    Ok((Head(lead, number, blockSize, rate, bits), r4))
  }

  /** The checks on a header before its check value is read. */
  function CheckHead(h: Head, meta: Meta, expected: Option<nat>): Result<(), Error> {
    if h.lead.assignment > 10 then Err(BAD_HEADER)
    else if h.rate != meta.rate || Channels(h.lead.assignment) != meta.channels || h.bits != meta.bits then
      Err(CHANGED_FORMAT)
    else if h.blockSize > (if meta.channels == 1 then 4096 else 2048) then Err(OUT_OF_LIMITS)
    else if expected.Some? && h.number != expected.value then Err(WRONG_NUMBER)
    else Ok(())
  }

  /** The cursor of a reader with this much left. */
  function Position(data: seq<byte>, rest: seq<bit>): nat { if |rest| <= 8 * |data| then 8 * |data| - |rest| else 0 }

  /** Its `byte_offset`. */
  function Offset(data: seq<byte>, rest: seq<bit>): nat { Position(data, rest) / 8 }

  function Between(data: seq<byte>, start: nat, end: nat): seq<byte> { Slice(data, start, end) }

  function GetHeadChecked(data: seq<byte>, start: nat, rest: seq<bit>, meta: Meta, expected: Option<nat>)
    : Parsed<Head>
  {
    var (head, r1) :- GetFields(rest, meta);
    var _ :- CheckHead(head, meta, expected);
    var (check, r2) :- GetHead(r1, 8);
    if CrcOf(8, 0x07, Between(data, start, Offset(data, r1))) != check then Err(BAD_CRC8) else Ok((head, r2))
  }

  function GetTail(data: seq<byte>, start: nat, rest: seq<bit>, meta: Meta): Result<nat, Error> {
    var aligned :- AlignZero(rest, Position(data, rest));
    var (check, after) :- GetHead(aligned, 16);
    var end := Offset(data, after);
    if CrcOf(16, 0x8005, Between(data, start, Offset(data, aligned))) != check then Err(BAD_CRC16)
    else if end < start || (meta.minimumFrame != 0 && end - start < meta.minimumFrame)
         || (meta.maximumFrame != 0 && end - start > meta.maximumFrame) || end - start > 65536 then Err(OUT_OF_LIMITS)
    else Ok(end)
  }

  /** `_decode_frame` */
  function DecodeFrame(data: seq<byte>, start: nat, meta: Meta, expected: Option<nat>): Result<Frame, Error>
    requires start <= |data| && meta.bits >= 1
  {
    var (head, r1) :- GetHeadChecked(data, start, Bits(data)[8 * start..], meta, expected);
    var assignment := head.lead.assignment;
    PlanarShape(r1, head.blockSize, assignment, meta.bits, 0);
    var (planar, r2) :- GetPlanar(r1, head.blockSize, assignment, meta.bits, 0);
    var end :- GetTail(data, start, r2, meta);
    var samples :- Interleave(planar, assignment, meta.bits, head.blockSize, 0);
    Ok(Frame(samples, end, head.blockSize, head.lead.strategy, head.number))
  }

  // ---------------------------------------------------------------- Decorrelation

  /** What an encoder writes for one frame of samples. */
  function Split(values: seq<int>, assignment: nat): seq<int>
    requires assignment > 7 ==> |values| >= 2
  {
    if assignment <= 7 then values
    else if assignment == 8 then [values[0], values[0] - values[1]]
    else if assignment == 9 then [values[0] - values[1], values[1]]
    else [(values[0] + values[1]) / 2, values[0] - values[1]]
  }

  /** Decorrelation loses nothing, the halved sum included. */
  lemma MixedSplit(values: seq<int>, assignment: nat)
    requires |values| == Channels(assignment)
    ensures Mixed(Split(values, assignment), assignment) == values
  {
    if assignment > 9 {
      var sum, side := values[0] + values[1], values[0] - values[1];
      assert sum % 2 == side % 2;
      assert sum == 2 * (sum / 2) + sum % 2;
    }
  }

  // ---------------------------------------------------------------- What an accepted frame guarantees

  lemma HeadLeaves(rest: seq<bit>, width: nat)
    ensures Leaves(rest, GetHead(rest, width))
  {
    BitsLeave(rest, width);
  }

  lemma LeadLeaves(rest: seq<bit>)
    ensures Leaves(rest, GetLead(rest))
    ensures GetLead(rest).Ok? ==> |GetLead(rest).value.1| == |rest| - 32
  {
    hide Value;
    if GetLead(rest).Ok? {
      assert |rest| >= 32;
      assert GetLead(rest).value.1 == rest[14..][1..][1..][4..][4..][4..][3..][1..] == rest[32..];
    }
  }

  lemma BlockSizeLeaves(rest: seq<bit>, code: nat)
    ensures Leaves(rest, GetBlockSize(rest, code))
  {
    hide Pow2;
    HeadLeaves(rest, 8);
    HeadLeaves(rest, 16);
  }

  lemma RateLeaves(rest: seq<bit>, code: nat, streamRate: nat)
    ensures Leaves(rest, GetRate(rest, code, streamRate))
  {
    HeadLeaves(rest, 8);
    HeadLeaves(rest, 16);
  }

  lemma FieldsLeave(rest: seq<bit>, meta: Meta)
    ensures Leaves(rest, GetFields(rest, meta))
  {
    hide GetLead, Coded.Decode, GetBlockSize, GetRate, SuffixOf;
    LeadLeaves(rest);
    if GetLead(rest).Ok? {
      var (lead, r1) := GetLead(rest).value;
      NumberLeaves(r1);
      Onward(rest, r1, Coded.Decode(r1));
      if Coded.Decode(r1).Ok? {
        var r2 := Coded.Decode(r1).value.1;
        BlockSizeLeaves(r2, lead.blockCode);
        Onward(rest, r2, GetBlockSize(r2, lead.blockCode));
        if GetBlockSize(r2, lead.blockCode).Ok? {
          var r3 := GetBlockSize(r2, lead.blockCode).value.1;
          RateLeaves(r3, lead.rateCode, meta.rate);
          Onward(rest, r3, GetRate(r3, lead.rateCode, meta.rate));
        }
      }
    }
  }

  lemma HeadCheckedLeaves(data: seq<byte>, start: nat, rest: seq<bit>, meta: Meta, expected: Option<nat>)
    ensures Leaves(rest, GetHeadChecked(data, start, rest, meta, expected))
  {
    hide GetFields, CheckHead, CrcOf, SuffixOf;
    FieldsLeave(rest, meta);
    if GetFields(rest, meta).Ok? {
      var r1 := GetFields(rest, meta).value.1;
      HeadLeaves(r1, 8);
      Onward(rest, r1, GetHead(r1, 8));
    }
  }

  lemma {:induction false} PlanarLeaves(rest: seq<bit>, blockSize: nat, assignment: nat, bits: nat, channel: nat)
    ensures Leaves(rest, GetPlanar(rest, blockSize, assignment, bits, channel))
    decreases Channels(assignment) - channel
  {
    hide GetSubframe;
    if channel < Channels(assignment) {
      var width := ChannelBits(assignment, bits, channel);
      SubframeLeaves(rest, blockSize, width);
      var first := GetSubframe(rest, blockSize, width);
      if first.Ok? {
        PlanarLeaves(first.value.1, blockSize, assignment, bits, channel + 1);
        Onward(rest, first.value.1, GetPlanar(first.value.1, blockSize, assignment, bits, channel + 1));
      }
    }
  }

  lemma BitsSplit(data: seq<byte>, k: nat)
    requires k <= |data|
    ensures Bits(data) == Bits(data[..k]) + Bits(data[k..])
  {
    hide *;
    assert data == data[..k] + data[k..];
    BitsAppend(data[..k], data[k..]);
  }

  lemma BitsFrom(data: seq<byte>, k: nat)
    requires k <= |data|
    ensures Bits(data)[8 * k..] == Bits(data[k..])
  {
    hide *;
    BitsSplit(data, k);
    DropFront(Bits(data[..k]), Bits(data[k..]), 8 * k);
  }

  lemma DropFront<T>(a: seq<T>, b: seq<T>, n: nat)
    requires |a| == n
    ensures (a + b)[n..] == b && (a + b)[..n] == a
  {
  }

  /** The first bytes of what is left. */
  lemma FrontBytes(data: seq<byte>, k: nat, n: nat)
    requires k + n <= |data|
    ensures Bits(data)[8 * k..][..8 * n] == Bits(data[k..k + n])
  {
    hide *;
    BitsFrom(data, k);
    var rest := data[k..];
    BitsSplit(rest, n);
    DropFront(Bits(rest[..n]), Bits(rest[n..]), 8 * n);
    assert rest[..n] == data[k..k + n];
  }

  lemma SuffixAt(all: seq<bit>, from: nat, rest: seq<bit>)
    requires from <= |all| && SuffixOf(rest, all[from..])
    ensures from <= |all| - |rest| && rest == all[|all| - |rest|..]
  {
    var tail := all[from..];
    assert rest == tail[|tail| - |rest|..];
  }

  /** A byte-aligned suffix of the stream. */
  lemma AlignedSuffix(data: seq<byte>, start: nat, rest: seq<bit>)
    requires start <= |data| && SuffixOf(rest, Bits(data)[8 * start..]) && (8 * |data| - |rest|) % 8 == 0
    ensures var k := Offset(data, rest);
      start <= k <= |data| && |rest| == 8 * (|data| - k) && rest == Bits(data)[8 * k..]
  {
    hide *;
    SuffixAt(Bits(data), 8 * start, rest);
    OffsetExact(data, rest);
  }

  lemma OffsetExact(data: seq<byte>, rest: seq<bit>)
    requires |rest| <= 8 * |data| && (8 * |data| - |rest|) % 8 == 0
    ensures 8 * Offset(data, rest) == 8 * |data| - |rest|
  {
  }

  /** The footer read behind the padding is the check value of all before it. */
  lemma FooterResidue(data: seq<byte>, start: nat, footer: nat)
    requires start <= footer && footer + 2 <= |data|
    requires CrcOf(16, 0x8005, data[start..footer]) == Value(Bits(data[footer..footer + 2]))
    ensures CrcOf(16, 0x8005, data[start..footer + 2]) == 0
  {
    hide *;
    var covered, check := data[start..footer], data[footer..footer + 2];
    assert covered + check == data[start..footer + 2];
    CrcResidueIff(16, 0x8005, covered, check);
  }

  /** What acceptance of the tail says. */
  lemma TailFacts(data: seq<byte>, start: nat, rest: seq<bit>, meta: Meta)
    requires GetTail(data, start, rest, meta).Ok?
    ensures var r := AlignZero(rest, Position(data, rest));
      && r.Ok? && |r.value| >= 16
      && CrcOf(16, 0x8005, Between(data, start, Offset(data, r.value))) == Value(r.value[..16])
      && GetTail(data, start, rest, meta).value == Offset(data, r.value[16..])
  {
    hide AlignZero, CrcOf, Value, Between;
  }

  lemma TailResidue(data: seq<byte>, start: nat, rest: seq<bit>, meta: Meta)
    requires start <= |data| && SuffixOf(rest, Bits(data)[8 * start..]) && GetTail(data, start, rest, meta).Ok?
    ensures var end := GetTail(data, start, rest, meta).value;
      start + 2 <= end <= |data| && CrcOf(16, 0x8005, data[start..end]) == 0
  {
    hide Bits, CrcOf, Value, AlignZero, SuffixOf, GetTail;
    TailFacts(data, start, rest, meta);
    SuffixShorter(rest, Bits(data)[8 * start..]);
    var position := Position(data, rest);
    AlignLeaves(rest, position);
    var aligned := AlignZero(rest, position).value;
    SuffixTransitive(aligned, rest, Bits(data)[8 * start..]);
    SuffixShorter(aligned, rest);
    AlignedSuffix(data, start, aligned);
    TwoBytesOn(data, start, aligned);
  }

  lemma TwoBytesOn(data: seq<byte>, start: nat, aligned: seq<bit>)
    requires var k := Offset(data, aligned);
      start <= k <= |data| && |aligned| == 8 * (|data| - k) && aligned == Bits(data)[8 * k..]
    requires |aligned| >= 16 && CrcOf(16, 0x8005, Between(data, start, Offset(data, aligned))) == Value(aligned[..16])
    ensures var k := Offset(data, aligned);
      k + 2 <= |data| && Offset(data, aligned[16..]) == k + 2 && CrcOf(16, 0x8005, data[start..k + 2]) == 0
  {
    hide Bits, CrcOf, Value;
    var k := Offset(data, aligned);
    FrontBytes(data, k, 2);
    FooterResidue(data, start, k);
  }

  lemma SuffixShorter(tail: seq<bit>, all: seq<bit>)
    requires SuffixOf(tail, all)
    ensures |tail| <= |all|
  {
  }

  /** An accepted frame is a multiple of the generator of its CRC-16, footer included. */
  lemma AcceptedResidue(data: seq<byte>, start: nat, meta: Meta, expected: Option<nat>)
    requires start <= |data| && meta.bits >= 1 && DecodeFrame(data, start, meta, expected).Ok?
    ensures var end := DecodeFrame(data, start, meta, expected).value.end;
      start + 2 <= end <= |data| && CrcOf(16, 0x8005, data[start..end]) == 0
  {
    hide Bits, CrcOf, GetHeadChecked, GetPlanar, GetTail, Interleave, SuffixOf;
    var all := Bits(data)[8 * start..];
    HeadCheckedLeaves(data, start, all, meta, expected);
    var (head, r1) := GetHeadChecked(data, start, all, meta, expected).value;
    PlanarShape(r1, head.blockSize, head.lead.assignment, meta.bits, 0);
    PlanarLeaves(r1, head.blockSize, head.lead.assignment, meta.bits, 0);
    var planar := GetPlanar(r1, head.blockSize, head.lead.assignment, meta.bits, 0);
    Onward(all, r1, planar);
    TailResidue(data, start, planar.value.1, meta);
  }

  lemma Replaced<T>(data: seq<T>, start: nat, end: nat, at: nat, damage: seq<T>)
    requires start <= at && at + |damage| <= end <= |data|
    ensures data[start..end] == data[start..at] + data[at..at + |damage|] + data[at + |damage|..end]
    ensures (data[..at] + damage + data[at + |damage|..])[start..end]
      == data[start..at] + damage + data[at + |damage|..end]
  {
    var damaged := data[..at] + damage + data[at + |damage|..];
    var expected := data[start..at] + damage + data[at + |damage|..end];
    forall k | 0 <= k < end - start
      ensures damaged[start..end][k] == expected[k]
    {
      assert damaged[start..end][k] == damaged[start + k];
    }
    assert |damaged[start..end]| == |expected|;
  }

  /** Two byte strings accepted as frames with the same extent never differ within two
      adjacent bytes only: such a corruption of an accepted frame is always rejected. */
  lemma CorruptionDetected(data: seq<byte>, start: nat, meta: Meta, expected: Option<nat>, at: nat, damage: seq<byte>)
    requires start <= |data| && meta.bits >= 1 && DecodeFrame(data, start, meta, expected).Ok?
    requires var end := DecodeFrame(data, start, meta, expected).value.end;
      start <= at && |damage| <= 2 && at + |damage| <= end <= |data| && damage != data[at..at + |damage|]
    ensures var damaged := data[..at] + damage + data[at + |damage|..];
      var r := DecodeFrame(damaged, start, meta, expected);
      r.Ok? ==> r.value.end != DecodeFrame(data, start, meta, expected).value.end
  {
    hide DecodeFrame, CrcOf;
    AcceptedResidue(data, start, meta, expected);
    var end := DecodeFrame(data, start, meta, expected).value.end;
    var damaged := data[..at] + damage + data[at + |damage|..];
    var r := DecodeFrame(damaged, start, meta, expected);
    if r.Ok? && r.value.end == end {
      AcceptedResidue(damaged, start, meta, expected);
      var before, after := data[start..at], data[at + |damage|..end];
      Replaced(data, start, end, at, damage);
      CrcDetects(16, 0x8005, before, damage, data[at..at + |damage|], after);
    }
  }

  // ---------------------------------------------------------------- The decoder as written

  method ReadHead(reader: Reader, width: nat) returns (r: Result<nat, Error>)
    requires reader.Valid()
    modifies reader
    ensures reader.Valid() && Delivers(GetHead(old(reader.Rest()), width), r, reader.Rest())
  {
    hide Bits, Value;
    var raw := reader.Get(width);
    r := if raw.Err? then Err(TRUNCATED_HEADER) else Ok(raw.value);
  }

  method ReadLead(reader: Reader) returns (r: Result<Lead, Error>)
    requires reader.Valid()
    modifies reader
    ensures reader.Valid() && Delivers(GetLead(old(reader.Rest())), r, reader.Rest())
  {
    hide Bits, GetHead;
    var sync :- ReadHead(reader, 14);
    if sync != 0x3FFE {
      return Err(BAD_HEADER);
    }
    var zero :- ReadHead(reader, 1);
    if zero != 0 {
      return Err(BAD_HEADER);
    }
    var strategy :- ReadHead(reader, 1);
    var blockCode :- ReadHead(reader, 4);
    var rateCode :- ReadHead(reader, 4);
    var assignment :- ReadHead(reader, 4);
    var bitsCode :- ReadHead(reader, 3);
    var reserved :- ReadHead(reader, 1);
    if reserved != 0 {
      return Err(BAD_HEADER);
    }
    r := Ok(Lead(strategy, blockCode, rateCode, assignment, bitsCode));
  }

  method ReadBlockSize(reader: Reader, code: nat) returns (r: Result<nat, Error>)
    requires reader.Valid()
    modifies reader
    ensures reader.Valid() && Delivers(GetBlockSize(old(reader.Rest()), code), r, reader.Rest())
  {
    hide Bits, GetHead, Pow2;
    if code == 0 {
      return Err(BAD_HEADER);
    }
    if code == 6 || code == 7 {
      var size :- ReadHead(reader, if code == 6 then 8 else 16);
      return Ok(size + 1);
    }
    r := Ok(if code == 1 then 192 else if code <= 5 then 576 * Pow2(code - 2) else 256 * Pow2(code - 8));
  }

  method ReadRate(reader: Reader, code: nat, streamRate: nat) returns (r: Result<nat, Error>)
    requires reader.Valid()
    modifies reader
    ensures reader.Valid() && Delivers(GetRate(old(reader.Rest()), code, streamRate), r, reader.Rest())
  {
    hide Bits, GetHead;
    if code <= 11 {
      return Ok(if code == 0 then streamRate else RATES[code]);
    }
    if code > 14 {
      return Err(BAD_HEADER);
    }
    var rate :- ReadHead(reader, if code == 12 then 8 else 16);
    r := Ok(if code == 12 then rate * 1000 else if code == 13 then rate else rate * 10);
  }

  method ReadFields(reader: Reader, meta: Meta) returns (r: Result<Head, Error>)
    requires reader.Valid()
    modifies reader
    ensures reader.Valid() && Delivers(GetFields(old(reader.Rest()), meta), r, reader.Rest())
  {
    hide Bits, GetLead, Coded.Decode, GetBlockSize, GetRate;
    var lead :- ReadLead(reader);
    var number :- Coded.ReadCodedNumber(reader);
    var blockSize :- ReadBlockSize(reader, lead.blockCode);
    var rate :- ReadRate(reader, lead.rateCode, meta.rate);
    var bits :- SampleBits(lead.bitsCode, meta.bits);
    r := Ok(Head(lead, number, blockSize, rate, bits));
  }

  method ReadChecked(reader: Reader, start: nat, meta: Meta, expected: Option<nat>) returns (r: Result<Head, Error>)
    requires reader.Valid()
    modifies reader
    ensures reader.Valid()
    ensures Delivers(GetHeadChecked(reader.data, start, old(reader.Rest()), meta, expected), r, reader.Rest())
  {
    hide Bits, GetFields, GetHead, CrcOf, CheckHead;
    var head :- ReadFields(reader, meta);
    var headerEnd := reader.bit / 8;
    assert headerEnd == Offset(reader.data, reader.Rest());
    var _ :- CheckHead(head, meta, expected);
    var check :- ReadHead(reader, 8);
    var crc := Crc8(Between(reader.data, start, headerEnd));
    r := if crc != check then Err(BAD_CRC8) else Ok(head);
  }

  method ReadPlanar(reader: Reader, blockSize: nat, assignment: nat, bits: nat)
    returns (r: Result<seq<seq<int>>, Error>)
    requires reader.Valid()
    modifies reader
    ensures reader.Valid() && Delivers(GetPlanar(old(reader.Rest()), blockSize, assignment, bits, 0), r, reader.Rest())
  {
    hide Bits, GetSubframe;
    var planar: seq<seq<int>> := [];
    ghost var goal := GetPlanar(reader.Rest(), blockSize, assignment, bits, 0);
    assert goal.Ok? ==> [] + goal.value.0 == goal.value.0;
    for channel := 0 to Channels(assignment)
      invariant reader.Valid()
      invariant goal == Prefixed(planar, GetPlanar(reader.Rest(), blockSize, assignment, bits, channel))
    {
      var samples :- ReadSubframe(reader, blockSize, ChannelBits(assignment, bits, channel));
      PrefixedMore(planar, samples, GetPlanar(reader.Rest(), blockSize, assignment, bits, channel + 1));
      planar := planar + [samples];
    }
    assert planar + [] == planar;
    r := Ok(planar);
  }

  ghost function Prefixed(done: seq<seq<int>>, parsed: Parsed<seq<seq<int>>>): Parsed<seq<seq<int>>> {
    match parsed
    case Err(e) => Err(e)
    case Ok((more, rest)) => Ok((done + more, rest))
  }

  lemma PrefixedMore(done: seq<seq<int>>, next: seq<int>, parsed: Parsed<seq<seq<int>>>)
    ensures Prefixed(done + [next], parsed) ==
      match parsed case Err(e) => Err(e) case Ok((more, rest)) => Ok((done + ([next] + more), rest))
  {
    if parsed.Ok? {
      assert done + [next] + parsed.value.0 == done + ([next] + parsed.value.0);
    }
  }

  method ReadTail(reader: Reader, start: nat, meta: Meta) returns (r: Result<nat, Error>)
    requires reader.Valid()
    modifies reader
    ensures r == GetTail(reader.data, start, old(reader.Rest()), meta)
  {
    hide Bits, AlignZero, GetHead, CrcOf;
    assert reader.bit == Position(reader.data, reader.Rest());
    var _ :- reader.Align();
    var footer := reader.bit / 8;
    assert footer == Offset(reader.data, reader.Rest());
    var check :- ReadHead(reader, 16);
    var end := reader.bit / 8;
    assert end == Offset(reader.data, reader.Rest());
    var crc := Crc16(Between(reader.data, start, footer));
    if crc != check {
      return Err(BAD_CRC16);
    }
    if end < start || (meta.minimumFrame != 0 && end - start < meta.minimumFrame)
       || (meta.maximumFrame != 0 && end - start > meta.maximumFrame) || end - start > 65536 {
      return Err(OUT_OF_LIMITS);
    }
    r := Ok(end);
  }

  /** `_decode_frame` */
  method ReadFrame(data: seq<byte>, start: nat, meta: Meta, expected: Option<nat>) returns (r: Result<Frame, Error>)
    requires start <= |data| && meta.bits >= 1
    ensures r == DecodeFrame(data, start, meta, expected)
  {
    hide Bits, GetHeadChecked, GetPlanar, GetTail, Mixed, FitsSigned;
    var reader := new Reader(data, start);
    var head :- ReadChecked(reader, start, meta, expected);
    var assignment, blockSize := head.lead.assignment, head.blockSize;
    PlanarShape(reader.Rest(), blockSize, assignment, meta.bits, 0);
    var planar :- ReadPlanar(reader, blockSize, assignment, meta.bits);
    var end :- ReadTail(reader, start, meta);
    var samples: seq<seq<int>> := [];
    ghost var goal := Interleave(planar, assignment, meta.bits, blockSize, 0);
    assert goal.Ok? ==> [] + goal.value == goal.value;
    for index := 0 to blockSize
      invariant goal == match Interleave(planar, assignment, meta.bits, blockSize, index)
        case Err(e) => Err(e)
        case Ok(rest) => Ok(samples + rest)
    {
      var values := Mixed(At(planar, index), assignment);
      if !AllFitIn(values, meta.bits) {
        return Err(OUT_OF_RANGE);
      }
      ghost var rest := Interleave(planar, assignment, meta.bits, blockSize, index + 1);
      assert rest.Ok? ==> samples + ([values] + rest.value) == samples + [values] + rest.value;
      samples := samples + [values];
    }
    assert samples + [] == samples;
    r := Ok(Frame(samples, end, blockSize, head.lead.strategy, head.number));
  }
}
