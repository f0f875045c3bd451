/** The local memory as the object the engines share: a byte array and a validity flag
    per word, updated in place. */
module LocalMemory {
  import opened Common
  import opened Isa
  import M = Memory

  const CODEC_WORDS: nat := M.CODEC_BYTES / 4

  class LocalMemory {
    const data: array<byte>
    const validWords: array<bool>
    var tableBytes: nat
    var imageValid: bool

    ghost predicate Valid()
      reads this
    {
      data.Length == M.LOCAL_DATA_BYTES && validWords.Length == CODEC_WORDS
    }

    ghost function ValidSet(): set<int>
      requires Valid()
      reads this, validWords
    {
      set w: int | 0 <= w < CODEC_WORDS && validWords[w]
    }

    /** The memory as a value. */
    ghost function State(): M.Memory
      requires Valid()
      reads this, data, validWords
    {
      M.Memory(data[..], ValidSet(), tableBytes, imageValid)
    }

    constructor ()
      ensures Valid() && fresh(data) && fresh(validWords)
      ensures State() == M.Memory(seq(M.LOCAL_DATA_BYTES, _ => 0), {}, 0, false)
    {
      data := new byte[M.LOCAL_DATA_BYTES](_ => 0);
      validWords := new bool[CODEC_WORDS](_ => false);
      tableBytes, imageValid := 0, false;
    }

    /** `publish_table`: refused when too long or not whole words. */
    method PublishTable(payload: seq<byte>) returns (ok: bool)
      requires Valid()
      modifies this, data
      ensures Valid() && ok == (|payload| <= TABLE_SCRATCH_BYTES && |payload| % 4 == 0)
      ensures State() == if ok then M.Memory(payload + old(data[..])[|payload|..], old(ValidSet()), |payload|, true)
        else old(State())
    {
      if |payload| > TABLE_SCRATCH_BYTES || |payload| % 4 != 0 {
        return false;
      }
      Store(0, payload);
      tableBytes, imageValid := |payload|, true;
      ok := true;
    }

    method Store(address: nat, payload: seq<byte>)
      requires Valid() && address + |payload| <= M.LOCAL_DATA_BYTES
      modifies data
      ensures data[..] == old(data[..address]) + payload + old(data[address + |payload|..])
    {
      for k := 0 to |payload|
        invariant forall j :: 0 <= j < data.Length ==>
          data[j] == if address <= j < address + k then payload[j - address] else old(data[j])
      {
        data[address + k] := payload[k];
      }
    }

    /** `new_epoch` */
    method NewEpoch()
      requires Valid()
      modifies validWords
      ensures Valid() && State() == M.NewEpoch(old(State()))
    {
      for w := 0 to CODEC_WORDS
        invariant forall j :: 0 <= j < w ==> !validWords[j]
      {
        validWords[w] := false;
      }
    }

    predicate InRange(address: int, size: int, e: Entry, table: bool)
      reads this
    {
      && address >= 0 && size >= 1 && address + size <= M.LOCAL_DATA_BYTES
      && var first := if table then e.tableOffset else e.scratchBase;
         var last := first + if table then e.tableBytes else e.scratchBytes;
         (table ==> imageValid) && first <= address && address + size <= last
    }

    /** `read`: every word touched must have been written since the epoch began. */
    method Read(address: int, size: int, e: Entry, table: bool) returns (r: Result<seq<byte>, M.Fault>)
      requires Valid() && e.scratchBase + e.scratchBytes <= M.CODEC_BYTES
      ensures r == M.Read(State(), address, size, e, table)
    {
      if !InRange(address, size, e, table) {
        return Err(M.RANGE_FAULT);
      }
      if !table {
        var last := (address + size - 1) / 4;
        var w := address / 4;
        while w <= last
          invariant address / 4 <= w <= last + 1
          invariant forall j :: address / 4 <= j < w ==> validWords[j]
        {
          if !validWords[w] {
            assert w in M.Touched(address, size) && w !in ValidSet();
            return Err(M.RANGE_FAULT);
          }
          w := w + 1;
        }
        assert M.WordsValid(State(), address, size);
      }
      r := Ok(data[address..address + size]);
    }

    /** `write`: refused below the table payload; every word touched becomes valid. */
    method Write(address: int, payload: seq<byte>, e: Entry) returns (fault: Option<M.Fault>)
      requires Valid() && e.scratchBase + e.scratchBytes <= M.CODEC_BYTES
      modifies data, validWords
      ensures Valid()
      ensures match M.Write(old(State()), address, payload, e)
        case Err(f) => fault == Some(f) && State() == old(State())
        case Ok(m) => fault.None? && State() == m
    {
      if !InRange(address, |payload|, e, false) || address < tableBytes {
        return Some(M.RANGE_FAULT);
      }
      Store(address, payload);
      var first, last := address / 4, (address + |payload| - 1) / 4;
      for w := first to last + 1
        invariant data[..] == old(data[..address]) + payload + old(data[address + |payload|..])
        invariant forall j :: 0 <= j < CODEC_WORDS ==> (validWords[j] <==> old(validWords[j]) || first <= j < w)
      {
        validWords[w] := true;
      }
      assert ValidSet() == old(ValidSet()) + M.Touched(address, |payload|);
      fault := None;
    }
  }
}
