/** The frame loop of the FLAC decoder: frames one after the other, numbered, of one
    blocking strategy, up to the announced number of samples. */
module FlacStream {
  import opened Common
  import opened BitReader
  import opened Frame
  import opened FrameRoundTrip

  const CHANGED_STRATEGY: Error := Error(4, 4, 0x18)
  const WRONG_TOTAL: Error := Error(4, 4, 0x32)
  const TRAILING_BYTES: Error := Error(4, 4, 0x1B)

  /** What the stream's metadata announces. */
  datatype Info = Info(meta: Meta, minimumBlock: nat, maximumBlock: nat, total: Option<nat>)

  /** The state of the loop: samples so far, frames so far, strategy and byte offset. */
  datatype State = State(samples: seq<seq<int>>, frames: nat, strategy: Option<nat>, offset: nat) {
    /** The number the next frame must carry. */
    function Expected(): nat { if strategy.None? || strategy.value == 0 then frames else |samples| }
  }

  predicate Final(info: Info, s: State, blockSize: nat, end: nat, size: nat) {
    if info.total.Some? then |s.samples| + blockSize == info.total.value else end == size
  }

  function Accept(info: Info, s: State, frame: Frame, size: nat): Result<State, Error> {
    if s.strategy.Some? && s.strategy.value != frame.strategy then Err(CHANGED_STRATEGY)
    else if info.total.Some? && |s.samples| + |frame.samples| > info.total.value then Err(WRONG_TOTAL)
    else
      var last := Final(info, s, frame.blockSize, frame.end, size);
      if (!last && !(info.minimumBlock <= frame.blockSize <= info.maximumBlock))
        || (last && frame.blockSize > info.maximumBlock) then
        Err(OUT_OF_LIMITS)
      else Ok(State(s.samples + frame.samples, s.frames + 1, Some(frame.strategy), frame.end))
  }

  predicate More(info: Info, s: State, size: nat) {
    s.offset < size && (info.total.Some? ==> |s.samples| < info.total.value)
  }

  /** All further frames. */
  function Frames(data: seq<byte>, info: Info, s: State): Result<State, Error>
    requires info.meta.bits >= 1 && s.offset <= |data|
    decreases |data| - s.offset
  {
    if !More(info, s, |data|) then Ok(s)
    else
      var frame :- DecodeFrame(data, s.offset, info.meta, Some(s.Expected()));
      AcceptedResidue(data, s.offset, info.meta, Some(s.Expected()));
      var next :- Accept(info, s, frame, |data|);
      Frames(data, info, next)
  }

  /** The samples, the offset reached, and whether bytes are left over. */
  datatype Audio = Audio(samples: seq<seq<int>>, offset: nat, leftover: bool)

  function Finish(info: Info, s: State, size: nat, strict: bool): Result<Audio, Error> {
    if info.total.Some? && |s.samples| != info.total.value then Err(WRONG_TOTAL)
    else if s.offset != size && strict then Err(TRAILING_BYTES)
    else Ok(Audio(s.samples, s.offset, s.offset != size))
  }

  /** `decode_flac`, from the first frame on */
  function DecodeStream(data: seq<byte>, start: nat, info: Info, strict: bool): Result<Audio, Error>
    requires info.meta.bits >= 1 && start <= |data|
  {
    var last :- Frames(data, info, State([], 0, None, start));
    Finish(info, last, |data|, strict)
  }

  method ReadStream(data: seq<byte>, start: nat, info: Info, strict: bool) returns (r: Result<Audio, Error>)
    requires info.meta.bits >= 1 && start <= |data|
    ensures r == DecodeStream(data, start, info, strict)
  {
    hide DecodeFrame, Finish;
    var s := State([], 0, None, start);
    ghost var goal := Frames(data, info, s);
    while More(info, s, |data|)
      invariant s.offset <= |data| && Frames(data, info, s) == goal
      decreases |data| - s.offset
    {
      var frame :- ReadFrame(data, s.offset, info.meta, Some(s.Expected()));
      AcceptedResidue(data, s.offset, info.meta, Some(s.Expected()));
      s :- Accept(info, s, frame, |data|);
    }
    r := Finish(info, s, |data|, strict);
  }

  // ---------------------------------------------------------------- Round trip

  /** One block of samples and how it is written. */
  datatype Block = Block(head: Head, channels: seq<Channel>, samples: seq<seq<int>>)

  /** The number a block carries: frames before it, or samples before it when block sizes vary. */
  function Number(b: Block, s: State): nat { if b.head.lead.strategy == 0 then s.frames else |s.samples| }

  ghost predicate BlockWritable(b: Block, info: Info, expected: nat) {
    FrameFits(b.head, b.channels, b.samples, info.meta, Some(expected))
    && SizeFits(|PutFrame(b.head, b.channels, info.meta)|, info.meta)
  }

  ghost function Written(b: Block, info: Info, s: State): seq<byte>
    requires BlockWritable(b, info, Number(b, s))
  {
    PutFrame(b.head, b.channels, info.meta)
  }

  /** The loop state after a block, apart from the offset. */
  function After(s: State, b: Block): State {
    State(s.samples + b.samples, s.frames + 1, Some(b.head.lead.strategy), 0)
  }

  /** The block may follow the state; only the last block may be short. */
  ghost predicate Follows(b: Block, info: Info, s: State, last: bool) {
    && BlockWritable(b, info, Number(b, s)) && b.samples != []
    && (s.strategy.None? ==> s.frames == 0 && s.samples == [])
    && (s.strategy.Some? ==> s.strategy.value == b.head.lead.strategy)
    && (info.total.Some? ==> |s.samples| + |b.samples| <= info.total.value)
    && |b.samples| <= info.maximumBlock && (!last ==> info.minimumBlock <= |b.samples|)
  }

  /** The blocks, from the given state on, make the announced stream. */
  ghost predicate Writable(blocks: seq<Block>, info: Info, s: State)
    decreases |blocks|
  {
    if blocks == [] then info.total.Some? ==> |s.samples| == info.total.value
    else Follows(blocks[0], info, s, |blocks| == 1) && Writable(blocks[1..], info, After(s, blocks[0]))
  }

  ghost function PutStream(blocks: seq<Block>, info: Info, s: State): seq<byte>
    requires Writable(blocks, info, s)
    decreases |blocks|
  {
    if blocks == [] then []
    else Written(blocks[0], info, s) + PutStream(blocks[1..], info, After(s, blocks[0]))
  }

  function AllSamples(blocks: seq<Block>): seq<seq<int>> {
    if blocks == [] then [] else blocks[0].samples + AllSamples(blocks[1..])
  }

  /** The loop takes one written block. */
  lemma BlockAccepted(before: seq<byte>, b: Block, info: Info, s: State, after: seq<byte>, last: bool)
    requires info.meta.bits >= 1 && s.offset == |before| && Follows(b, info, s, last)
    requires last && info.total.Some? ==> |s.samples| + |b.samples| == info.total.value
    requires last && info.total.None? ==> after == []
    ensures var frame := Written(b, info, s);
      var data := before + frame + after;
      Frames(data, info, s) == Frames(data, info, After(s, b).(offset := |before + frame|))
  {
    hide DecodeFrame, PutFrame, HeadFits, CheckHead, ChannelsFit, Carries, SizeFits;
    var frame := Written(b, info, s);
    var data := before + frame + after;
    assert Number(b, s) == s.Expected();
    FrameDecodes(before, b.head, b.channels, b.samples, info.meta, Some(s.Expected()), after);
    AcceptedResidue(data, s.offset, info.meta, Some(s.Expected()));
  }

  lemma {:induction false} StreamRuns(before: seq<byte>, blocks: seq<Block>, info: Info, s: State, after: seq<byte>)
    requires info.meta.bits >= 1 && s.offset == |before| && Writable(blocks, info, s.(offset := 0))
    requires info.total.None? ==> after == []
    ensures var stream := PutStream(blocks, info, s.(offset := 0));
      var r := Frames(before + stream + after, info, s);
      r.Ok? && r.value.samples == s.samples + AllSamples(blocks) && r.value.offset == |before| + |stream|
    decreases |blocks|
  {
    hide PutFrame, BlockWritable, DecodeFrame, Frames;
    var start := s.(offset := 0);
    if blocks == [] {
      assert s.samples + [] == s.samples;
      assert before + [] + after == before + after;
      NoMoreFrames(before + after, info, s);
    } else {
      var b, rest := blocks[0], blocks[1..];
      var next := After(start, b);
      Writables(b, info, s);
      var frame := Written(b, info, s);
      var tail := PutStream(rest, info, next);
      assert rest == [] ==> tail == [] && tail + after == after;
      BlockAccepted(before, b, info, s, tail + after, rest == []);
      StreamRuns(before + frame, rest, info, next.(offset := |before + frame|), after);
      Onto(before + frame, tail, after);
      assert before + (frame + tail) + after == before + frame + (tail + after);
      Onto(s.samples, b.samples, AllSamples(rest));
    }
  }

  lemma NoMoreFrames(data: seq<byte>, info: Info, s: State)
    requires info.meta.bits >= 1 && s.offset <= |data| && !More(info, s, |data|)
    ensures Frames(data, info, s) == Ok(s)
  {
  }

  lemma Writables(b: Block, info: Info, s: State)
    ensures forall last :: Follows(b, info, s.(offset := 0), last) ==> Follows(b, info, s, last)
    ensures After(s.(offset := 0), b) == After(s, b)
  {
    hide BlockWritable;
  }

  /** Decoding a written stream returns the samples of all its blocks and stops behind
      the last frame; bytes behind it are an error when decoding strictly. */
  lemma StreamDecodes(before: seq<byte>, blocks: seq<Block>, info: Info, after: seq<byte>, strict: bool)
    requires info.meta.bits >= 1 && Writable(blocks, info, State([], 0, None, 0)) && (info.total.None? ==> after == [])
    ensures var stream := PutStream(blocks, info, State([], 0, None, 0));
      DecodeStream(before + stream + after, |before|, info, strict) ==
        if strict && after != [] then Err(TRAILING_BYTES)
        else Ok(Audio(AllSamples(blocks), |before| + |stream|, after != []))
  {
    hide Frames, PutStream, Writable;
    var s := State([], 0, None, |before|);
    StreamRuns(before, blocks, info, s, after);
    TotalReached(blocks, info, s.(offset := 0));
    assert [] + AllSamples(blocks) == AllSamples(blocks);
  }

  lemma {:induction false} TotalReached(blocks: seq<Block>, info: Info, s: State)
    requires Writable(blocks, info, s)
    ensures info.total.Some? ==> |s.samples| + |AllSamples(blocks)| == info.total.value
    decreases |blocks|
  {
    hide BlockWritable;
    if blocks == [] {
    } else {
      TotalReached(blocks[1..], info, After(s, blocks[0]));
    }
  }
}
