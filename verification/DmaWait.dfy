/** The smallest image that shows the rule only the parser checks: a wait for DMA in an
    entry without transport primitives is built and then refused. */
module DmaWait {
  import opened Common
  import opened Isa
  import opened Apumc
  import CF = ControlFlow
  import StraightLine

  const WAIT_DMA: Instruction := Instruction(CONTROL, WAIT, 0, 0, 0, 0, 0, 0)
  const FINISH: Instruction := Instruction(CONTROL, END, 0, 0, 0, 0, 0, 0)

  function WaitingEntry(format: nat): Entry { Entry(format, 0, 0, 1, 1, 2, 0, 0, 0, 0, 0) }

  const WAITING: Contents :=
    Contents([WAIT_DMA, FINISH], [WaitingEntry(0), WaitingEntry(1), WaitingEntry(2)], 0, [], V2)

  function Flow(format: nat): CF.Context { CF.Context(WAITING.program, WaitingEntry(format), P5, V2) }

  lemma FlowIsAccepted(format: nat)
    ensures Flow(format).Valid() && CF.Accepts(Flow(format))
  {
    StraightLine.StraightAccepted(Flow(format));
  }

  lemma WaitingIsBuildable()
    ensures Buildable(WAITING, P5)
  {
    hide CF.Accepts;
    assert ValidInstruction(WAIT_DMA, P5, V2) && ValidInstruction(FINISH, P5, V2);
    forall k | 0 <= k < ENTRY_COUNT
      ensures WAITING.entries[k] == WaitingEntry(k) && MasksCover(WAITING.program, WaitingEntry(k))
    {
    }
    FlowIsAccepted(0);
    FlowIsAccepted(1);
    FlowIsAccepted(2);
  }

  lemma WaitingIsUncovered()
    ensures !DmaCovered(WAITING.program, WAITING.entries[0])
  {
    assert WaitsForDma(WAITING.program[0]) && BitAnd(WaitingEntry(0).primitiveMask, DMA_MASK) == 0;
  }

  /** The builder makes an image of it, and the parser refuses that image. */
  lemma BuiltButRefused(crc32: seq<byte> -> word)
    ensures Buildable(WAITING, P5) && !Parses(crc32, Image(crc32, WAITING), P5, None)
  {
    hide Buildable, Parses, Image, DmaCovered;
    WaitingIsBuildable();
    BuildThenParse(crc32, WAITING, P5, None);
    WaitingIsUncovered();
    assert 0 < ENTRY_COUNT;
  }
}
