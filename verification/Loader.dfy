/** From image to run: what an image that parses guarantees about every job started
    from it on the machine with the primitive engine. */
module Loader {
  import opened Common
  import opened Isa
  import opened Memory
  import opened Machine
  import Apumc
  import Containment
  import Isolation
  import Primitives
  import Soundness
  import CF = ControlFlow

  type Crc32 = seq<byte> -> word

  /** The machine is set up to run entry `k` of the image on the primitive engine. */
  ghost predicate Loaded(crc32: Crc32, b: seq<byte>, k: nat, c: Config, s: Isolation.Script) {
    && Apumc.Parses(crc32, b, c.target, None) && k < ENTRY_COUNT
    && c.program == Apumc.ProgramOf(b) && c.entry == Apumc.EntriesOf(b)[k] && c.abi == Apumc.ImageAbi(Apumc.HeaderOf(b))
    && Primitives.Runs(c, s)
  }

  /** The memory holds the image's table payload. */
  predicate Published(b: seq<byte>, memory: Memory)
    requires |b| >= Apumc.HEADER_BYTES
  {
    var table := Apumc.TableOf(b);
    && memory.imageValid && memory.tableBytes == |table| == Apumc.HeaderOf(b)[6] && |table| <= LOCAL_DATA_BYTES
    && memory.data[..|table|] == table
  }

  lemma LoadedEntry(crc32: Crc32, b: seq<byte>, k: nat, c: Config, s: Isolation.Script)
    requires Loaded(crc32, b, k, c, s)
    ensures c.Valid() && CF.Accepts(Soundness.View(c))
    ensures ValidEntry(c.entry, |c.program|, c.target, Apumc.HeaderOf(b)[6], c.abi)
  {
    hide Apumc.ProgramOf, Apumc.HeaderOf, Apumc.EntriesOf, ValidInstruction, Apumc.MasksCover, Apumc.DmaCovered,
      Apumc.DescriptorsClear, Apumc.PaddingZero, CF.Accepts, Primitives.Runs;
    assert ValidEntry(Apumc.EntriesOf(b)[k], |c.program|, c.target, Apumc.HeaderOf(b)[6], c.abi);
    assert CF.Accepts(CF.Context(c.program, Apumc.EntriesOf(b)[k], c.target, c.abi));
  }

  lemma EntryIsFit(e: Entry, count: nat, target: Target, abi: Abi, memory: Memory)
    requires ValidEntry(e, count, target, memory.tableBytes, abi)
    ensures EntryFits(memory, e)
  {
  }

  /** Every job of a parsed image keeps to its program range and call stack, and leaves
      the table payload and everything else outside its window untouched, whatever the
      data, the inputs and the timing. */
  lemma LoadedJobsAreSafe(
    crc32: Crc32, b: seq<byte>, k: nat, c: Config, s: Isolation.Script, w: Timing, memory: Memory, transport: bool,
      events: seq<Event>)
    requires Loaded(crc32, b, k, c, s) && Primitives.KernelRules(s) && Published(b, memory)
    ensures c.Valid()
    ensures var o := Exec(c, w, Boot(c, Some(memory), transport), events);
      && Soundness.Safe(c, o)
      && o.m.prims.Some? && Kept(memory, o.m.prims.value.memory, c.entry)
      && o.m.prims.value.memory.data[..memory.tableBytes] == Apumc.TableOf(b)
  {
    hide Exec, Soundness.Safe, CF.Accepts, Primitives.Runs, Primitives.KernelRules, ValidEntry, Apumc.Parses,
      Apumc.ProgramOf,
      Apumc.EntriesOf, Apumc.HeaderOf, Apumc.TableOf, Soundness.EngineReasons, Containment.EngineContained,
        Isolation.BlindWhere;
    LoadedEntry(crc32, b, k, c, s);
    Primitives.EngineMeetsAll(c, s);
    Primitives.EngineContainedAndBlind(c, s);
    Soundness.VerifierSound(c, w, Some(memory), transport, events);
    Containment.RunStaysInWindow(c, w, memory, transport, events);
    var m := Exec(c, w, Boot(c, Some(memory), transport), events).m;
    forall a: nat | a < memory.tableBytes
      ensures m.prims.value.memory.data[a] == memory.data[a]
    {
    }
  }

  /** And what earlier jobs left in scratch memory makes no difference to a job whose
      refills and stores cover the words they touch, whatever its kernels. */
  lemma LoadedJobsAreIndependent(
    crc32: Crc32, b: seq<byte>, k: nat, c: Config, s: Isolation.Script, w: Timing, clock: Primitives.Clock,
    left: Memory, right: Memory, transport: bool, events: seq<Event>)
    requires Loaded(crc32, b, k, c, s) && Published(b, left) && Published(b, right)
      && Primitives.Clocked(c, w, s, clock)
    requires c.Valid() ==>
      Isolation.CoveredRun(c, w, Primitives.EngineCovers(s, c.entry), Boot(c, Some(left), transport), events)
    ensures c.Valid()
    ensures Isolation.AlikeOutcomes(c,
      Exec(c, w, Boot(c, Some(left), transport), events), Exec(c, w, Boot(c, Some(right), transport), events))
  {
    hide Exec, CF.Accepts, Primitives.Runs, ValidEntry, Apumc.Parses, Apumc.ProgramOf, Apumc.EntriesOf,
      Apumc.HeaderOf, Apumc.TableOf,
      Containment.EngineContained, Isolation.BlindWhere, Isolation.CyclesBlindWhere, Isolation.CoveredRun,
        Primitives.Clocked;
    LoadedEntry(crc32, b, k, c, s);
    Primitives.EngineContainedAndBlind(c, s);
    Primitives.ClockIsBlind(c, w, s, clock);
    EntryIsFit(c.entry, |c.program|, c.target, c.abi, left);
    Isolation.JobsDoNotInterfere(c, w, Primitives.EngineCovers(s, c.entry), left, right, transport, events);
  }
}
