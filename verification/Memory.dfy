/** Local memory with per-word valid bits: bounded reads and writes, epochs, and
    what a job can learn about bytes left behind by an earlier one. */
module Memory {
  import opened Common
  import opened Isa

  const LOCAL_DATA_BYTES: nat := 0x1C000
  const CODEC_BYTES: nat := 0xA000

  /** A primitive fault; `reason` is the trap reason it turns into. */
  datatype Fault = Fault(code: nat, stage: nat, reason: nat)

  const RANGE_FAULT: Fault := Fault(11, 11, 5)

  type Ram = s: seq<byte> | |s| == LOCAL_DATA_BYTES witness seq(LOCAL_DATA_BYTES, _ => 0)

  /** `valid` holds the indices of the words written in the current epoch. */
  datatype Memory = Memory(data: Ram, valid: set<int>, tableBytes: nat, imageValid: bool)

  /** The range check shared by every access. */
  predicate InWindow(m: Memory, address: int, size: int, e: Entry, table: bool) {
    && address >= 0 && size >= 1 && address + size <= LOCAL_DATA_BYTES
    && if table then m.imageValid && e.tableOffset <= address && address + size <= e.tableOffset + e.tableBytes
       else e.scratchBase <= address && address + size <= e.scratchBase + e.scratchBytes
  }

  /** Word `w` holds a byte of the access. */
  predicate Touches(address: int, size: int, w: int) { address / 4 <= w <= (address + size - 1) / 4 }

  function Touched(address: int, size: int): set<int> {
    set w | 0 <= w < LOCAL_DATA_BYTES / 4 && Touches(address, size, w)
  }

  predicate WordsValid(m: Memory, address: int, size: int) { Touched(address, size) <= m.valid }

  function Read(m: Memory, address: int, size: int, e: Entry, table: bool): Result<seq<byte>, Fault> {
    if !InWindow(m, address, size, e, table) then Err(RANGE_FAULT)
    else if !table && !WordsValid(m, address, size) then Err(RANGE_FAULT)
    else Ok(m.data[address..address + size])
  }

  function Splice(data: Ram, address: nat, payload: seq<byte>): (r: Ram)
    requires address + |payload| <= LOCAL_DATA_BYTES
    ensures forall k :: 0 <= k < LOCAL_DATA_BYTES ==>
      r[k] == if address <= k < address + |payload| then payload[k - address] else data[k]
  {
    data[..address] + payload + data[address + |payload|..]
  }

  function Write(m: Memory, address: int, payload: seq<byte>, e: Entry): Result<Memory, Fault> {
    if !InWindow(m, address, |payload|, e, false) || address < m.tableBytes then Err(RANGE_FAULT)
    else Ok(m.(data := Splice(m.data, address, payload), valid := m.valid + Touched(address, |payload|)))
  }

  function NewEpoch(m: Memory): Memory { m.(valid := {}) }

  // ---------------------------------------------------------------- Leftover bytes

  /** The entry reads tables only inside the published payload, and its scratch
      window is word aligned; every validated entry is like this. */
  predicate EntryFits(m: Memory, e: Entry) {
    && e.tableOffset + e.tableBytes <= m.tableBytes
    && e.scratchBase % 4 == 0 && e.scratchBytes % 4 == 0
  }

  /** The two memories differ only in bytes of words that are not valid. */
  ghost predicate Agree(m: Memory, n: Memory) {
    && m.valid == n.valid && m.tableBytes == n.tableBytes && m.imageValid == n.imageValid
    && forall a :: 0 <= a < LOCAL_DATA_BYTES && (a < m.tableBytes || a / 4 in m.valid) ==> m.data[a] == n.data[a]
  }

  /** Every word the write touches is either covered completely or valid already. */
  ghost predicate Covers(m: Memory, address: int, size: int) {
    forall w :: w in Touched(address, size) ==> w in m.valid || (address <= 4 * w && 4 * w + 4 <= address + size)
  }

  lemma ReadsAgree(m: Memory, n: Memory, address: int, size: int, e: Entry, table: bool)
    requires Agree(m, n) && EntryFits(m, e)
    ensures Read(m, address, size, e, table) == Read(n, address, size, e, table)
  {
    if InWindow(m, address, size, e, table) && (table || WordsValid(m, address, size)) {
      forall a | address <= a < address + size
        ensures m.data[a] == n.data[a]
      {
        assert Touches(address, size, a / 4);
      }
      assert m.data[address..address + size] == n.data[address..address + size];
    }
  }

  lemma CoveredWriteAgrees(m: Memory, n: Memory, address: int, payload: seq<byte>, e: Entry)
    requires Agree(m, n) && Covers(m, address, |payload|)
    ensures Write(m, address, payload, e).Ok? <==> Write(n, address, payload, e).Ok?
    ensures Write(m, address, payload, e).Err? ==> Write(m, address, payload, e) == Write(n, address, payload, e)
    ensures Write(m, address, payload, e).Ok? ==>
      Agree(Write(m, address, payload, e).value, Write(n, address, payload, e).value)
  {
    if Write(m, address, payload, e).Ok? {
      var m', n' := Write(m, address, payload, e).value, Write(n, address, payload, e).value;
      forall a | 0 <= a < LOCAL_DATA_BYTES && (a < m'.tableBytes || a / 4 in m'.valid)
        ensures m'.data[a] == n'.data[a]
      {
        if !(address <= a < address + |payload|) && a / 4 in Touched(address, |payload|) {
          assert a / 4 in m.valid;
        }
      }
    }
  }

  /** A byte of a touched but uncovered word, with the memory that differs from
      `m` in that byte alone. */
  lemma UncoveredByte(m: Memory, address: int, payload: seq<byte>, e: Entry) returns (a: int, n: Memory)
    requires EntryFits(m, e) && Write(m, address, payload, e).Ok? && !Covers(m, address, |payload|)
    requires e.scratchBytes == 0 || m.tableBytes <= e.scratchBase
    ensures Agree(m, n) && Write(n, address, payload, e).Ok?
    ensures Read(Write(m, address, payload, e).value, a, 1, e, false).Ok?
    ensures Read(Write(n, address, payload, e).value, a, 1, e, false).Ok?
    ensures Read(Write(m, address, payload, e).value, a, 1, e, false)
         != Read(Write(n, address, payload, e).value, a, 1, e, false)
  {
    hide Splice;
    var w :| w in Touched(address, |payload|) && w !in m.valid
      && !(address <= 4 * w && 4 * w + 4 <= address + |payload|);
    a := if 4 * w < address then 4 * w else 4 * w + 3;
    assert a / 4 == w && InWindow(m, a, 1, e, false);
    n := m.(data := m.data[a := if m.data[a] == 0 then 1 else 0]);
    var m', n' := Write(m, address, payload, e).value, Write(n, address, payload, e).value;
    OutsideBytes(m, address, payload, e, a);
    OutsideBytes(n, address, payload, e, a);
    OneByte(m', a, e);
    OneByte(n', a, e);
  }

  lemma OneByte(m: Memory, a: int, e: Entry)
    requires InWindow(m, a, 1, e, false) && a / 4 in m.valid
    ensures Read(m, a, 1, e, false) == Ok([m.data[a]])
  {
    assert m.data[a..a + 1] == [m.data[a]];
  }

  lemma OutsideBytes(m: Memory, address: int, payload: seq<byte>, e: Entry, a: int)
    requires Write(m, address, payload, e).Ok? && 0 <= a < LOCAL_DATA_BYTES
    requires !(address <= a < address + |payload|)
    ensures Write(m, address, payload, e).value.data[a] == m.data[a]
  {
  }

  /** The exact condition under which a write keeps leftover bytes hidden: the
      source marks whole words valid, so a word that is neither covered nor valid
      exposes what an earlier job left in it. */
  lemma WriteHidesLeftoversIff(m: Memory, address: int, payload: seq<byte>, e: Entry)
    requires EntryFits(m, e) && Write(m, address, payload, e).Ok?
    requires e.scratchBytes == 0 || m.tableBytes <= e.scratchBase
    ensures Covers(m, address, |payload|) <==>
            forall n :: Agree(m, n) ==>
              Write(n, address, payload, e).Ok? &&
              Agree(Write(m, address, payload, e).value, Write(n, address, payload, e).value)
  {
    if Covers(m, address, |payload|) {
      forall n | Agree(m, n)
        ensures Write(n, address, payload, e).Ok?
        ensures Agree(Write(m, address, payload, e).value, Write(n, address, payload, e).value)
      {
        CoveredWriteAgrees(m, n, address, payload, e);
      }
    } else {
      var a, n := UncoveredByte(m, address, payload, e);
      var m', n' := Write(m, address, payload, e).value, Write(n, address, payload, e).value;
      if Agree(m', n') {
        ReadsAgree(m', n', a, 1, e, false);
        assert false;
      }
    }
  }

  /** A two-byte store, as PCM_PACK makes, exposes the other half of its word. */
  lemma HalfWordLeak(m: Memory, e: Entry) returns (a: int, n: Memory)
    requires EntryFits(m, e) && m.tableBytes <= e.scratchBase && 4 <= e.scratchBytes
    requires e.scratchBase + e.scratchBytes <= CODEC_BYTES
    ensures Agree(NewEpoch(m), n) && Write(NewEpoch(m), e.scratchBase, [1, 2], e).Ok?
    ensures Write(n, e.scratchBase, [1, 2], e).Ok?
    ensures Read(Write(NewEpoch(m), e.scratchBase, [1, 2], e).value, a, 1, e, false)
         != Read(Write(n, e.scratchBase, [1, 2], e).value, a, 1, e, false)
  {
    var w := e.scratchBase / 4;
    assert Touches(e.scratchBase, 2, w) && w in Touched(e.scratchBase, 2);
    a, n := UncoveredByte(NewEpoch(m), e.scratchBase, [1, 2], e);
  }

  // ---------------------------------------------------------------- Sessions

  /** Accesses, and the range check alone. */
  datatype Action =
    | ReadScratch(address: int, size: int)
    | ReadTable(address: int, size: int)
    | Store(address: int, payload: seq<byte>)
    | Check(address: int, size: int, table: bool)

  datatype Response = Data(bytes: seq<byte>) | Passed | Failed(fault: Fault)

  /** Any user of the memory: it picks each access from the answers so far. */
  type Client = seq<Response> -> Option<Action>

  function Act(m: Memory, e: Entry, action: Action): (Memory, Response) {
    match action
    case ReadScratch(address, size) =>
      (m, match Read(m, address, size, e, false) case Ok(b) => Data(b) case Err(f) => Failed(f))
    case ReadTable(address, size) =>
      (m, match Read(m, address, size, e, true) case Ok(b) => Data(b) case Err(f) => Failed(f))
    case Check(address, size, table) =>
      (m, if InWindow(m, address, size, e, table) then Passed else Failed(RANGE_FAULT))
    case Store(address, payload) =>
      match Write(m, address, payload, e) case Ok(m') => (m', Passed) case Err(f) => (m, Failed(f))
  }

  /** The memory and the answers after at most `steps` further accesses. */
  function Session(client: Client, m: Memory, e: Entry, answers: seq<Response>, steps: nat): (Memory, seq<Response>)
    decreases steps
  {
    if steps == 0 || client(answers).None? then (m, answers)
    else
      var (m', response) := Act(m, e, client(answers).value);
      Session(client, m', e, answers + [response], steps - 1)
  }

  /** Every store of the session covers each word it touches, or the word is valid. */
  ghost predicate WholeWords(client: Client, m: Memory, e: Entry, answers: seq<Response>, steps: nat)
    decreases steps
  {
    steps == 0 || client(answers).None? ||
    (var action := client(answers).value;
     && (action.Store? ==> Covers(m, action.address, |action.payload|))
     && WholeWords(client, Act(m, e, action).0, e, answers + [Act(m, e, action).1], steps - 1))
  }

  lemma ActsAgree(m: Memory, n: Memory, e: Entry, action: Action)
    requires Agree(m, n) && EntryFits(m, e)
    requires action.Store? ==> Covers(m, action.address, |action.payload|)
    ensures Act(m, e, action).1 == Act(n, e, action).1
    ensures Agree(Act(m, e, action).0, Act(n, e, action).0)
    ensures EntryFits(Act(m, e, action).0, e)
  {
    match action
    case ReadScratch(address, size) => ReadsAgree(m, n, address, size, e, false);
    case ReadTable(address, size) => ReadsAgree(m, n, address, size, e, true);
    case Store(address, payload) => CoveredWriteAgrees(m, n, address, payload, e);
    case Check(_, _, _) =>
  }

  lemma {:induction false} SessionsAgree(client: Client, m: Memory, n: Memory, e: Entry, answers: seq<Response>,
    steps: nat)
    requires Agree(m, n) && EntryFits(m, e) && WholeWords(client, m, e, answers, steps)
    ensures Session(client, m, e, answers, steps).1 == Session(client, n, e, answers, steps).1
    ensures Agree(Session(client, m, e, answers, steps).0, Session(client, n, e, answers, steps).0)
    decreases steps
  {
    if steps > 0 && client(answers).Some? {
      var action := client(answers).value;
      ActsAgree(m, n, e, action);
      SessionsAgree(client, Act(m, e, action).0, Act(n, e, action).0, e, answers + [Act(m, e, action).1], steps - 1);
    }
  }

  /** Non-interference between jobs: after a new epoch, no client that writes whole
      words can tell two memories with the same table bytes apart. */
  lemma EpochsDoNotInterfere(client: Client, m: Memory, n: Memory, e: Entry, steps: nat)
    requires m.tableBytes == n.tableBytes <= LOCAL_DATA_BYTES && m.imageValid == n.imageValid
    requires m.data[..m.tableBytes] == n.data[..n.tableBytes]
    requires EntryFits(m, e) && WholeWords(client, NewEpoch(m), e, [], steps)
    ensures Session(client, NewEpoch(m), e, [], steps).1 == Session(client, NewEpoch(n), e, [], steps).1
  {
    forall a | 0 <= a < m.tableBytes
      ensures m.data[a] == n.data[a]
    {
      assert m.data[..m.tableBytes][a] == n.data[..n.tableBytes][a];
    }
    SessionsAgree(client, NewEpoch(m), NewEpoch(n), e, [], steps);
  }

  /** Nothing outside the entry's scratch window has changed, and no byte of the table
      payload either, wherever the window lies. */
  ghost predicate Kept(before: Memory, after: Memory, e: Entry) {
    && after.tableBytes == before.tableBytes && after.imageValid == before.imageValid
    && (forall a :: 0 <= a < LOCAL_DATA_BYTES && !(e.scratchBase <= a < e.scratchBase + e.scratchBytes) ==>
      after.data[a] == before.data[a])
    && (forall a :: 0 <= a < LOCAL_DATA_BYTES && a < before.tableBytes ==> after.data[a] == before.data[a])
  }

  lemma WriteStaysInWindow(m: Memory, address: int, payload: seq<byte>, e: Entry)
    ensures Write(m, address, payload, e).Ok? ==> Kept(m, Write(m, address, payload, e).value, e)
  {
  }

  lemma {:induction false} SessionStaysInWindow(client: Client, m: Memory, e: Entry, answers: seq<Response>, steps: nat)
    ensures Kept(m, Session(client, m, e, answers, steps).0, e)
    decreases steps
  {
    if steps > 0 && client(answers).Some? {
      var action := client(answers).value;
      SessionStaysInWindow(client, Act(m, e, action).0, e, answers + [Act(m, e, action).1], steps - 1);
    }
  }
}
