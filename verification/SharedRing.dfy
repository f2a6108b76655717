/** The producer and the consumer of the shared-memory ring, as two deterministic
    processes whose steps interleave in any order.  A step is one semaphore
    operation, one end of a slot copy, one index update or one file access. */
module SharedRing {
  import opened Bytes
  import opened CText

  const MAX_FILES: nat := 8
  const MAX_FILENAME: nat := 256
  const MAX_FILESIZE: nat := 65536

  /** A directory entry as the producer finds it. */
  datatype Entry = Entry(regular: bool, readable: bool, name: Bytes, data: Bytes)

  /** The record that travels through a slot. */
  datatype Slot = Slot(eof: bool, nameLen: nat, dataLen: nat, filename: Bytes, data: Bytes)

  /** A file as the consumer writes it. */
  datatype File = File(name: Bytes, data: Bytes)

  /** The memory of a slot: never filled, in the middle of being overwritten, or
      holding a complete record. */
  datatype Cell = Unfilled | Torn | Holds(slot: Slot)

  datatype ProducerPc =
    | PRead
    | PWaitEmpty(slot: Slot)
    | PWaitMutex(slot: Slot)
    | PStoreBegin(slot: Slot)
    | PStoreEnd(slot: Slot)
    | PAdvance(slot: Slot)
    | PPostMutex(last: bool)
    | PPostFull(last: bool)
    | PDone

  datatype ConsumerPc =
    | CWaitFull
    | CWaitMutex
    | CLoadBegin
    | CLoadEnd(begun: Cell)
    | CAdvance(slot: Slot)
    | CPostMutex(slot: Slot)
    | CPostEmpty(slot: Slot)
    | CWrite(slot: Slot)
    | CDone

  /** `sent` and `taken` record the slots committed by an index update; no step
      looks at them. */
  datatype State = State(
    dir: seq<Entry>,
    p: ProducerPc,
    c: ConsumerPc,
    empty: nat,
    full: nat,
    mutex: nat,
    writeIdx: nat,
    readIdx: nat,
    cells: seq<Cell>,
    files: seq<File>,
    sent: seq<Slot>,
    taken: seq<Slot>)

  datatype Process = Producer | Consumer

  // Records --------------------------------------------------------------------

  /** Copy into a zeroed field of n bytes, as `strncpy` and `read` do. */
  function Field(text: Bytes, n: nat): Bytes
  {
    if |text| <= n then text + Zeros(n - |text|) else text[..n]
  }

  function Min(a: nat, b: nat): nat { if a < b then a else b }

  function SlotFor(e: Entry): Slot
  {
    Slot(false, |e.name|, Min(|e.data|, MAX_FILESIZE), Field(e.name, MAX_FILENAME), Field(e.data, MAX_FILESIZE))
  }

  const EOF_SLOT := Slot(true, 0, 0, Zeros(MAX_FILENAME), Zeros(MAX_FILESIZE))

  /** What a load returns that did not see one complete record. */
  const GARBAGE := Slot(false, 0, 0, [], [])

  function FileOf(slot: Slot): File
  {
    File(CString(slot.filename), slot.data[..Min(slot.dataLen, |slot.data|)])
  }

  function FilesOf(slots: seq<Slot>): seq<File>
  {
    seq(|slots|, i requires 0 <= i < |slots| => FileOf(slots[i]))
  }

  // Steps -----------------------------------------------------------------------

  function Initial(dir: seq<Entry>): State
  {
    State(dir, PRead, CWaitFull, MAX_FILES, 0, 1, 0, 0, seq(MAX_FILES, _ => Unfilled), [], [], [])
  }

  predicate Enabled(s: State, who: Process)
  {
    match who
    case Producer =>
      (match s.p
       case PWaitEmpty(_) => s.empty > 0
       case PWaitMutex(_) => s.mutex > 0
       case PDone => false
       case _ => true)
    case Consumer =>
      (match s.c
       case CWaitFull => s.full > 0
       case CWaitMutex => s.mutex > 0
       case CDone => false
       case _ => true)
  }

  predicate Shaped(s: State)
  {
    |s.cells| == MAX_FILES && s.writeIdx < MAX_FILES && s.readIdx < MAX_FILES
  }

  function ProducerStep(s: State): State
    requires Shaped(s) && Enabled(s, Producer)
  {
    match s.p
    case PRead =>
      if s.dir == [] then s.(p := PWaitEmpty(EOF_SLOT))
      else if s.dir[0].regular && s.dir[0].readable then s.(dir := s.dir[1..], p := PWaitEmpty(SlotFor(s.dir[0])))
      else s.(dir := s.dir[1..])
    case PWaitEmpty(slot) => s.(empty := s.empty - 1, p := PWaitMutex(slot))
    case PWaitMutex(slot) => s.(mutex := s.mutex - 1, p := PStoreBegin(slot))
    case PStoreBegin(slot) => s.(cells := s.cells[s.writeIdx := Torn], p := PStoreEnd(slot))
    case PStoreEnd(slot) => s.(cells := s.cells[s.writeIdx := Holds(slot)], p := PAdvance(slot))
    case PAdvance(slot) =>
      s.(writeIdx := (s.writeIdx + 1) % MAX_FILES, sent := s.sent + [slot], p := PPostMutex(slot.eof))
    case PPostMutex(last) => s.(mutex := s.mutex + 1, p := PPostFull(last))
    case PPostFull(last) => s.(full := s.full + 1, p := if last then PDone else PRead)
  }

  function ConsumerStep(s: State): State
    requires Shaped(s) && Enabled(s, Consumer)
  {
    match s.c
    case CWaitFull => s.(full := s.full - 1, c := CWaitMutex)
    case CWaitMutex => s.(mutex := s.mutex - 1, c := CLoadBegin)
    case CLoadBegin => s.(c := CLoadEnd(s.cells[s.readIdx]))
    case CLoadEnd(begun) =>
      s.(c := CAdvance(if begun.Holds? && s.cells[s.readIdx] == begun then begun.slot else GARBAGE))
    case CAdvance(slot) =>
      s.(readIdx := (s.readIdx + 1) % MAX_FILES, taken := s.taken + [slot], c := CPostMutex(slot))
    case CPostMutex(slot) => s.(mutex := s.mutex + 1, c := CPostEmpty(slot))
    case CPostEmpty(slot) => s.(empty := s.empty + 1, c := CWrite(slot))
    case CWrite(slot) =>
      if slot.eof then s.(c := CDone) else s.(files := s.files + [FileOf(slot)], c := CWaitFull)
  }

  function Step(s: State, who: Process): (s': State)
    requires Shaped(s) && Enabled(s, who)
    ensures Shaped(s')
  {
    match who
    case Producer => ProducerStep(s)
    case Consumer => ConsumerStep(s)
  }

  /** A schedule can be followed from s when every step of it is enabled. */
  predicate Follows(s: State, schedule: seq<Process>)
    requires Shaped(s)
    decreases |schedule|
  {
    schedule == [] || (Enabled(s, schedule[0]) && Follows(Step(s, schedule[0]), schedule[1..]))
  }

  function Run(s: State, schedule: seq<Process>): (s': State)
    requires Shaped(s) && Follows(s, schedule)
    ensures Shaped(s')
    decreases |schedule|
  {
    if schedule == [] then s else Run(Step(s, schedule[0]), schedule[1..])
  }
}
