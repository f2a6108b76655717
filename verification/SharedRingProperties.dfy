/** What holds of the ring in every state any interleaving can reach. */
module SharedRingProperties {
  import opened Bytes
  import opened Common
  import opened CText
  import opened SharedRing

  /** Names as `readdir` supplies them: short enough for the field, no NUL. */
  predicate NameFits(e: Entry)
  {
    |e.name| < MAX_FILENAME && 0 !in e.name
  }

  /** The file the consumer should write for an entry: at most 65536 bytes. */
  function Expected(e: Entry): File
  {
    File(e.name, e.data[..Min(|e.data|, MAX_FILESIZE)])
  }

  function Chosen(dir: seq<Entry>): seq<Entry>
  {
    if dir == [] then []
    else (if dir[0].regular && dir[0].readable then [dir[0]] else []) + Chosen(dir[1..])
  }

  function ExpectedFiles(dir: seq<Entry>): seq<File>
  {
    var es := Chosen(dir);
    seq(|es|, i requires 0 <= i < |es| => Expected(es[i]))
  }

  /** The slots still to be sent for the entries of a directory. */
  function Plan(dir: seq<Entry>): (plan: seq<Slot>)
    ensures plan != []
  {
    if dir == [] then [EOF_SLOT]
    else (if dir[0].regular && dir[0].readable then [SlotFor(dir[0])] else []) + Plan(dir[1..])
  }

  // The invariant ------------------------------------------------------------------

  predicate ProducerCritical(s: State)
  {
    s.p.PStoreBegin? || s.p.PStoreEnd? || s.p.PAdvance? || s.p.PPostMutex?
  }

  predicate ConsumerCritical(s: State)
  {
    s.c.CLoadBegin? || s.c.CLoadEnd? || s.c.CAdvance? || s.c.CPostMutex?
  }

  /** Between the wait and the post of one slot. */
  predicate ProducerHolds(s: State)
  {
    s.p.PWaitMutex? || ProducerCritical(s) || s.p.PPostFull?
  }

  predicate ConsumerHolds(s: State)
  {
    s.c.CWaitMutex? || ConsumerCritical(s) || s.c.CPostEmpty?
  }

  /** The number of unread records, from semaphores and program counters alone. */
  function Count(s: State): nat
  {
    s.full + B(s.p.PPostMutex? || s.p.PPostFull?)
    + B(s.c.CWaitMutex? || s.c.CLoadBegin? || s.c.CLoadEnd? || s.c.CAdvance?)
  }

  predicate Tokens(s: State)
  {
    && s.empty + s.full + B(ProducerHolds(s)) + B(ConsumerHolds(s)) == MAX_FILES
    && s.mutex + B(ProducerCritical(s)) + B(ConsumerCritical(s)) == 1
  }

  predicate Counted(s: State)
  {
    |s.taken| + Count(s) == |s.sent|
  }

  /** The slot of the n-th record, by repeating the index update. */
  function Idx(n: nat): (r: nat)
    ensures r < MAX_FILES
  {
    if n == 0 then 0 else (Idx(n - 1) + 1) % MAX_FILES
  }

  predicate Indexed(s: State)
  {
    s.writeIdx == Idx(|s.sent|) && s.readIdx == Idx(|s.taken|)
  }

  predicate Balanced(s: State)
  {
    Tokens(s) && Counted(s) && Indexed(s)
  }

  /** Every unread record sits complete in its slot. */
  predicate Stored(s: State)
    requires Shaped(s)
  {
    && (forall i | |s.taken| <= i < |s.sent| :: s.cells[Idx(i)] == Holds(s.sent[i]))
    && (s.p.PAdvance? ==> s.cells[s.writeIdx] == Holds(s.p.slot))
    && (s.c.CLoadEnd? ==> s.c.begun == s.cells[s.readIdx])
    && (s.c.CAdvance? ==> Holds(s.c.slot) == s.cells[s.readIdx])
  }

  /** What the producer has yet to commit. */
  function ToSend(s: State): seq<Slot>
  {
    match s.p
    case PRead => Plan(s.dir)
    case PWaitEmpty(slot) => Remainder(slot, s.dir)
    case PWaitMutex(slot) => Remainder(slot, s.dir)
    case PStoreBegin(slot) => Remainder(slot, s.dir)
    case PStoreEnd(slot) => Remainder(slot, s.dir)
    case PAdvance(slot) => Remainder(slot, s.dir)
    case PPostMutex(last) => if last then [] else Plan(s.dir)
    case PPostFull(last) => if last then [] else Plan(s.dir)
    case PDone => []
  }

  function Remainder(slot: Slot, dir: seq<Entry>): seq<Slot>
  {
    [slot] + if slot.eof then [] else Plan(dir)
  }

  /** Does the consumer hold a record it has not dealt with? */
  predicate HasPending(s: State)
  {
    s.c.CPostMutex? || s.c.CPostEmpty? || s.c.CWrite? || s.c.CDone?
  }

  /** The records the consumer is finished with. */
  function Handled(s: State): seq<Slot>
  {
    if HasPending(s) && s.taken != [] then s.taken[..|s.taken| - 1] else s.taken
  }

  predicate Delivered(s: State)
  {
    && s.taken <= s.sent
    && (HasPending(s) ==> s.taken != [])
    && (s.c.CPostMutex? || s.c.CPostEmpty? || s.c.CWrite? ==> s.c.slot == s.taken[|s.taken| - 1])
    && s.files == FilesOf(Handled(s))
    && (forall slot | slot in Handled(s) :: !slot.eof)
    && (s.c.CDone? ==> s.taken[|s.taken| - 1].eof)
  }

  predicate Inv(dir: seq<Entry>, s: State)
  {
    && Shaped(s)
    && Balanced(s)
    && Stored(s)
    && Delivered(s)
    && s.sent + ToSend(s) == Plan(dir)
  }

  // Plans --------------------------------------------------------------------------

  lemma {:induction false} PlanEndsOnce(dir: seq<Entry>)
    ensures var n := |Plan(dir)|;
            n > 0 && Plan(dir)[n - 1].eof && forall i | 0 <= i < n - 1 :: !Plan(dir)[i].eof
  {
    if dir != [] {
      PlanEndsOnce(dir[1..]);
    }
  }

  lemma {:induction false} CStringOfField(text: Bytes, n: nat)
    requires 0 !in text && |text| < n
    ensures CString(Field(text, n)) == text
    decreases |text|
  {
    var field := Field(text, n);
    if text == [] {
      assert field[0] == 0;
    } else {
      assert field[1..] == Field(text[1..], n - 1);
      assert field[0] == text[0] && text[0] in text;
      CStringOfField(text[1..], n - 1);
    }
  }

  lemma SlotCarriesFile(e: Entry)
    requires NameFits(e)
    ensures FileOf(SlotFor(e)) == Expected(e)
  {
    CStringOfField(e.name, MAX_FILENAME);
    var n := Min(|e.data|, MAX_FILESIZE);
    assert Field(e.data, MAX_FILESIZE)[..n] == e.data[..n];
  }

  /** The plan carries the chosen files, cut to size, in order. */
  lemma {:induction false} PlanCarriesFiles(dir: seq<Entry>)
    requires forall e | e in dir :: NameFits(e)
    ensures |Plan(dir)| == |ExpectedFiles(dir)| + 1
    ensures FilesOf(Plan(dir)[..|Plan(dir)| - 1]) == ExpectedFiles(dir)
  {
    if dir != [] {
      PlanCarriesFiles(dir[1..]);
      SlotCarriesFile(dir[0]);
      var rest := Plan(dir[1..]);
      if dir[0].regular && dir[0].readable {
        AllButLast(SlotFor(dir[0]), rest);
        FilesOfCons(SlotFor(dir[0]), rest[..|rest| - 1]);
        ExpectedFirst(dir);
      } else {
        assert Plan(dir) == rest && Chosen(dir) == Chosen(dir[1..]);
      }
    }
  }

  lemma AllButLast(slot: Slot, slots: seq<Slot>)
    requires slots != []
    ensures ([slot] + slots)[..|slots|] == [slot] + slots[..|slots| - 1]
  {
  }

  lemma ExpectedFirst(dir: seq<Entry>)
    requires dir != [] && dir[0].regular && dir[0].readable
    ensures ExpectedFiles(dir) == [Expected(dir[0])] + ExpectedFiles(dir[1..])
  {
    assert Chosen(dir) == [dir[0]] + Chosen(dir[1..]);
  }

  lemma FilesOfCons(slot: Slot, slots: seq<Slot>)
    ensures FilesOf([slot] + slots) == [FileOf(slot)] + FilesOf(slots)
  {
  }

  // Preservation ---------------------------------------------------------------------

  lemma InitialInv(dir: seq<Entry>)
    ensures Inv(dir, SharedRing.Initial(dir))
  {
    assert [] + Plan(dir) == Plan(dir);
    assert FilesOf([]) == [];
  }

  lemma {:induction false} IdxSmall(n: nat)
    requires n < MAX_FILES
    ensures Idx(n) == n
  {
    if n > 0 {
      IdxSmall(n - 1);
    }
  }

  /** Fewer than eight records never share a slot. */
  lemma {:induction false} IdxApart(i: nat, n: nat)
    requires i < n < i + MAX_FILES
    ensures Idx(i) != Idx(n)
  {
    if i == 0 {
      IdxSmall(n);
    } else {
      IdxApart(i - 1, n - 1);
    }
  }

  lemma {:induction false} IdxPlus(n: nat, i: nat)
    requires i < MAX_FILES
    ensures (Idx(n) + i) % MAX_FILES == Idx(n + i)
  {
    if i > 0 {
      IdxPlus(n, i - 1);
      NextSlot(Idx(n) + i - 1);
    }
  }

  lemma NextSlot(k: nat)
    ensures (k % MAX_FILES + 1) % MAX_FILES == (k + 1) % MAX_FILES
  {
  }

  lemma ProducerKeepsTokens(s: State)
    requires Shaped(s) && Tokens(s) && Enabled(s, Producer)
    ensures Tokens(ProducerStep(s))
  {
  }

  lemma ConsumerKeepsTokens(s: State)
    requires Shaped(s) && Tokens(s) && Enabled(s, Consumer)
    ensures Tokens(ConsumerStep(s))
  {
  }

  lemma ProducerKeepsBalance(s: State)
    requires Shaped(s) && Balanced(s) && Enabled(s, Producer)
    ensures Balanced(ProducerStep(s))
  {
    ProducerKeepsTokens(s);
    assert s.p.PAdvance? ==> |ProducerStep(s).sent| == |s.sent| + 1;
  }

  lemma ConsumerKeepsBalance(s: State)
    requires Shaped(s) && Balanced(s) && Enabled(s, Consumer)
    ensures Balanced(ConsumerStep(s))
  {
    ConsumerKeepsTokens(s);
    assert s.c.CAdvance? ==> |ConsumerStep(s).taken| == |s.taken| + 1;
  }

  lemma StoringKeepsStored(s: State, cell: Cell, s': State)
    requires Shaped(s) && Balanced(s) && Stored(s)
    requires s.p.PStoreBegin? || s.p.PStoreEnd?
    requires s' == s.(cells := s.cells[s.writeIdx := cell], p := s'.p)
    requires s'.p.PAdvance? ==> cell == Holds(s'.p.slot)
    ensures Stored(s')
  {
    assert |s.sent| < |s.taken| + MAX_FILES;
    forall i | |s.taken| <= i < |s.sent|
      ensures s'.cells[Idx(i)] == Holds(s.sent[i])
    {
      IdxApart(i, |s.sent|);
    }
  }

  lemma ProducerKeepsStored(s: State)
    requires Shaped(s) && Balanced(s) && Stored(s) && Enabled(s, Producer)
    ensures Stored(ProducerStep(s))
  {
    if s.p.PStoreBegin? {
      StoringKeepsStored(s, Torn, ProducerStep(s));
    } else if s.p.PStoreEnd? {
      StoringKeepsStored(s, Holds(s.p.slot), ProducerStep(s));
    }
  }

  lemma ConsumerKeepsStored(s: State)
    requires Shaped(s) && Balanced(s) && Stored(s) && Enabled(s, Consumer)
    ensures Stored(ConsumerStep(s))
  {
  }

  /** What the consumer loads is the oldest unread record. */
  lemma LoadsOldest(s: State)
    requires Shaped(s) && Balanced(s) && Stored(s)
    requires s.c.CAdvance?
    ensures |s.taken| < |s.sent| && s.c.slot == s.sent[|s.taken|]
  {
    assert s.cells[Idx(|s.taken|)] == Holds(s.sent[|s.taken|]);
  }

  lemma ProducerKeepsDelivered(s: State)
    requires Shaped(s) && Delivered(s) && Enabled(s, Producer)
    ensures Delivered(ProducerStep(s))
  {
    var s' := ProducerStep(s);
    assert s'.taken == s.taken && s'.files == s.files && s'.c == s.c;
    assert Handled(s') == Handled(s);
    assert s.sent <= s'.sent;
  }

  lemma TakingKeepsDelivered(s: State)
    requires Shaped(s) && Delivered(s) && s.c.CAdvance?
    requires |s.taken| < |s.sent| && s.c.slot == s.sent[|s.taken|]
    ensures Delivered(ConsumerStep(s))
  {
    var s' := ConsumerStep(s);
    assert s'.taken == s.sent[..|s.taken| + 1];
    assert Handled(s') == s.taken;
  }

  lemma WritingKeepsDelivered(s: State)
    requires Shaped(s) && Delivered(s) && s.c.CWrite? && !s.c.slot.eof
    ensures Delivered(ConsumerStep(s))
  {
    var prior := Handled(s);
    assert s.taken == prior + [s.c.slot];
    assert FilesOf(prior + [s.c.slot]) == FilesOf(prior) + [FileOf(s.c.slot)];
  }

  lemma ConsumerKeepsDelivered(s: State)
    requires Shaped(s) && Balanced(s) && Stored(s) && Delivered(s) && Enabled(s, Consumer)
    ensures Delivered(ConsumerStep(s))
  {
    if s.c.CAdvance? {
      LoadsOldest(s);
      TakingKeepsDelivered(s);
    } else if s.c.CWrite? && !s.c.slot.eof {
      WritingKeepsDelivered(s);
    } else {
      assert Handled(ConsumerStep(s)) == Handled(s);
    }
  }

  lemma ProducerKeepsPlan(dir: seq<Entry>, s: State)
    requires Shaped(s) && Enabled(s, Producer) && s.sent + ToSend(s) == Plan(dir)
    ensures ProducerStep(s).sent + ToSend(ProducerStep(s)) == Plan(dir)
  {
    var s' := ProducerStep(s);
    if s.p.PAdvance? {
      assert ToSend(s) == [s.p.slot] + ToSend(s');
      assert s.sent + ([s.p.slot] + ToSend(s')) == s.sent + [s.p.slot] + ToSend(s');
    } else {
      assert ToSend(s') == ToSend(s);
    }
  }

  lemma ProducerKeepsInv(dir: seq<Entry>, s: State)
    requires Inv(dir, s) && Enabled(s, Producer)
    ensures Inv(dir, ProducerStep(s))
  {
    ProducerKeepsBalance(s);
    ProducerKeepsStored(s);
    ProducerKeepsDelivered(s);
    ProducerKeepsPlan(dir, s);
  }

  lemma ConsumerKeepsInv(dir: seq<Entry>, s: State)
    requires Inv(dir, s) && Enabled(s, Consumer)
    ensures Inv(dir, ConsumerStep(s))
  {
    ConsumerKeepsBalance(s);
    ConsumerKeepsStored(s);
    ConsumerKeepsDelivered(s);
    ConsumerMovesUnread(s);
    assert ConsumerStep(s).p == s.p && ConsumerStep(s).dir == s.dir;
  }

  lemma StepKeepsInv(dir: seq<Entry>, s: State, who: Process)
    requires Inv(dir, s) && Enabled(s, who)
    ensures Inv(dir, Step(s, who))
  {
    match who
    case Producer => ProducerKeepsInv(dir, s);
    case Consumer => ConsumerKeepsInv(dir, s);
  }

  /** Every state any schedule reaches satisfies the invariant. */
  lemma {:induction false} Always(dir: seq<Entry>, s: State, schedule: seq<Process>)
    requires Inv(dir, s) && Follows(s, schedule)
    ensures Inv(dir, Run(s, schedule))
    decreases |schedule|
  {
    if schedule != [] {
      StepKeepsInv(dir, s, schedule[0]);
      Always(dir, Step(s, schedule[0]), schedule[1..]);
    }
  }

  predicate Reachable(dir: seq<Entry>, schedule: seq<Process>)
  {
    Follows(SharedRing.Initial(dir), schedule)
  }

  function At(dir: seq<Entry>, schedule: seq<Process>): State
    requires Reachable(dir, schedule)
  {
    Run(SharedRing.Initial(dir), schedule)
  }

  // The queue -------------------------------------------------------------------------

  /** The bounded queue a state stands for, read off the ring itself. */
  function Queue(s: State): seq<Cell>
    requires Shaped(s)
  {
    seq(Count(s), i requires 0 <= i => s.cells[(s.readIdx + i) % MAX_FILES])
  }

  lemma UnreadCell(s: State, i: nat)
    requires Shaped(s) && Balanced(s) && Stored(s) && i < Count(s)
    ensures s.cells[(s.readIdx + i) % MAX_FILES] == Holds(s.sent[|s.taken| + i])
  {
    IdxPlus(|s.taken|, i);
    assert s.cells[Idx(|s.taken| + i)] == Holds(s.sent[|s.taken| + i]);
  }

  lemma QueueIsUnread(s: State)
    requires Shaped(s) && Balanced(s) && Stored(s)
    ensures Queue(s) == Held(s.sent[|s.taken|..])
    ensures |Queue(s)| <= MAX_FILES
  {
    var q, h := Queue(s), Held(s.sent[|s.taken|..]);
    assert |q| == |h|;
    forall i | 0 <= i < |q|
      ensures q[i] == h[i]
    {
      UnreadCell(s, i);
    }
  }

  function Held(slots: seq<Slot>): seq<Cell>
  {
    seq(|slots|, i requires 0 <= i < |slots| => Holds(slots[i]))
  }

  lemma HeldCons(slot: Slot, rest: seq<Slot>)
    ensures Held([slot] + rest) == [Holds(slot)] + Held(rest)
  {
  }

  lemma ProducerMovesUnread(s: State)
    requires Shaped(s) && Balanced(s) && Enabled(s, Producer)
    ensures var s' := ProducerStep(s);
            && s'.taken == s.taken
            && s'.sent == (if s.p.PAdvance? then s.sent + [s.p.slot] else s.sent)
            && (s.p.PAdvance? ==> Count(s) < MAX_FILES)
  {
  }

  lemma ConsumerMovesUnread(s: State)
    requires Shaped(s) && Enabled(s, Consumer)
    ensures var s' := ConsumerStep(s);
            && s'.sent == s.sent
            && s'.taken == (if s.c.CAdvance? then s.taken + [s.c.slot] else s.taken)
  {
  }

  lemma ProducerStepOnQueue(s: State)
    requires Shaped(s) && Balanced(s) && Stored(s) && Enabled(s, Producer)
    requires Balanced(ProducerStep(s)) && Stored(ProducerStep(s))
    ensures var q, q' := Queue(s), Queue(ProducerStep(s));
            if s.p.PAdvance? then |q| < MAX_FILES && q' == q + [Holds(s.p.slot)] else q' == q
  {
    var s' := ProducerStep(s);
    QueueIsUnread(s);
    QueueIsUnread(s');
    ProducerMovesUnread(s);
    if s.p.PAdvance? {
      assert s'.sent[|s'.taken|..] == s.sent[|s.taken|..] + [s.p.slot];
    }
  }

  lemma ConsumerStepOnQueue(s: State)
    requires Shaped(s) && Balanced(s) && Stored(s) && Enabled(s, Consumer)
    requires Balanced(ConsumerStep(s)) && Stored(ConsumerStep(s))
    ensures var q, q' := Queue(s), Queue(ConsumerStep(s));
            if s.c.CAdvance? then q == [Holds(s.c.slot)] + q' else q' == q
  {
    var s' := ConsumerStep(s);
    QueueIsUnread(s);
    QueueIsUnread(s');
    ConsumerMovesUnread(s);
    if s.c.CAdvance? {
      LoadsOldest(s);
      var rest := s'.sent[|s'.taken|..];
      assert s.sent[|s.taken|..] == [s.c.slot] + rest;
      HeldCons(s.c.slot, rest);
    }
  }

  /** A step in terms of the queue: the producer's index update appends its
      record to a queue that is not full, the consumer's removes the front of one
      that is not empty and hands exactly that record on, and every other step
      leaves the queue alone. */
  lemma {:induction false} RefinesBoundedQueue(dir: seq<Entry>, schedule: seq<Process>, who: Process)
    requires Reachable(dir, schedule) && Enabled(At(dir, schedule), who)
    ensures var s := At(dir, schedule);
            var q, q' := Queue(s), Queue(Step(s, who));
            if who == Producer && s.p.PAdvance? then |q| < MAX_FILES && q' == q + [Holds(s.p.slot)]
            else if who == Consumer && s.c.CAdvance? then q == [Holds(s.c.slot)] + q'
            else q' == q
  {
    var s := At(dir, schedule);
    InitialInv(dir);
    Always(dir, SharedRing.Initial(dir), schedule);
    StepKeepsInv(dir, s, who);
    match who
    case Producer => ProducerStepOnQueue(s);
    case Consumer => ConsumerStepOnQueue(s);
  }

  /** No unread record is in the slot a store begins to overwrite, and a load
      begins only on a complete record that stays put until the load is over. */
  lemma SlotsAreSafe(dir: seq<Entry>, schedule: seq<Process>)
    requires Reachable(dir, schedule)
    ensures var s := At(dir, schedule);
            && (s.p.PStoreBegin? || s.p.PStoreEnd? ==>
                  forall i | |s.taken| <= i < |s.sent| :: Idx(i) != s.writeIdx)
            && (s.c.CLoadBegin? ==> s.cells[s.readIdx].Holds?)
            && (s.c.CLoadEnd? ==> s.cells[s.readIdx] == s.c.begun && s.c.begun.Holds?)
            && !(ProducerCritical(s) && ConsumerCritical(s))
  {
    InitialInv(dir);
    Always(dir, SharedRing.Initial(dir), schedule);
    var s := At(dir, schedule);
    if s.p.PStoreBegin? || s.p.PStoreEnd? {
      forall i | |s.taken| <= i < |s.sent|
        ensures Idx(i) != s.writeIdx
      {
        IdxApart(i, |s.sent|);
      }
    }
    if s.c.CLoadBegin? || s.c.CLoadEnd? {
      assert s.cells[Idx(|s.taken|)] == Holds(s.sent[|s.taken|]);
    }
  }

  /** Eight tokens, and one turn in the critical section. */
  lemma SemaphoresAreConserved(dir: seq<Entry>, schedule: seq<Process>)
    requires Reachable(dir, schedule)
    ensures var s := At(dir, schedule);
            && s.empty + s.full + B(ProducerHolds(s)) + B(ConsumerHolds(s)) == MAX_FILES
            && s.mutex + B(ProducerCritical(s)) + B(ConsumerCritical(s)) == 1
  {
    InitialInv(dir);
    Always(dir, SharedRing.Initial(dir), schedule);
  }

  // Delivery ----------------------------------------------------------------------------

  lemma HandledIsPrefix(dir: seq<Entry>, s: State)
    requires Inv(dir, s)
    ensures Handled(s) <= Plan(dir)[..|Plan(dir)| - 1]
    ensures s.c.CDone? ==> Handled(s) == Plan(dir)[..|Plan(dir)| - 1] && s.p.PDone? && s.taken == Plan(dir)
  {
    PlanEndsOnce(dir);
    var plan := Plan(dir);
    assert s.taken <= plan && Handled(s) <= plan;
    if s.c.CDone? {
      assert plan[|s.taken| - 1].eof;
      assert |s.taken| == |plan| && s.sent == plan;
      assert Count(s) == 0 && ToSend(s) == [];
    }
  }

  /** What the consumer has written is always a prefix of the chosen files in
      directory order, each cut to its first 65536 bytes; once it has seen the
      end mark it is all of them. */
  lemma WritesExactlyTheFiles(dir: seq<Entry>, schedule: seq<Process>)
    requires Reachable(dir, schedule)
    requires forall e | e in dir :: NameFits(e)
    ensures At(dir, schedule).files <= ExpectedFiles(dir)
    ensures At(dir, schedule).c.CDone? ==> At(dir, schedule).files == ExpectedFiles(dir)
  {
    var s := At(dir, schedule);
    InitialInv(dir);
    Always(dir, SharedRing.Initial(dir), schedule);
    HandledIsPrefix(dir, s);
    PlanCarriesFiles(dir);
    var all := Plan(dir)[..|Plan(dir)| - 1];
    assert FilesOf(Handled(s)) == FilesOf(all)[..|Handled(s)|];
  }

  // Progress -----------------------------------------------------------------------------

  /** A producer that has to wait leaves the consumer free to move. */
  lemma ProducerWaits(s: State)
    requires Tokens(s) && !s.p.PDone? && !Enabled(s, Producer)
    ensures Enabled(s, Consumer) || s.c.CDone?
  {
  }

  /** Behind a producer that is done, a consumer that waits has records to take. */
  lemma ProducerIsDone(dir: seq<Entry>, s: State)
    requires Inv(dir, s) && s.p.PDone? && s.c.CWaitFull?
    ensures s.full > 0
  {
    HandledIsPrefix(dir, s);
    assert s.sent == Plan(dir);
    assert |s.taken| == |Handled(s)| < |s.sent|;
  }

  /** The end mark is only behind everything else. */
  lemma ConsumerIsDone(dir: seq<Entry>, s: State)
    requires Inv(dir, s) && s.c.CDone?
    ensures s.p.PDone?
  {
    HandledIsPrefix(dir, s);
  }

  lemma SomeoneMoves(dir: seq<Entry>, s: State)
    requires Inv(dir, s)
    ensures (s.p.PDone? && s.c.CDone?) || Enabled(s, Producer) || Enabled(s, Consumer)
  {
    if s.c.CDone? {
      ConsumerIsDone(dir, s);
    } else if !s.p.PDone? && !Enabled(s, Producer) {
      ProducerWaits(s);
    } else if s.p.PDone? && s.c.CWaitFull? {
      ProducerIsDone(dir, s);
    }
  }

  /** Unless both processes are finished, one of them can move. */
  lemma NeverDeadlocks(dir: seq<Entry>, schedule: seq<Process>)
    requires Reachable(dir, schedule)
    ensures var s := At(dir, schedule);
            (s.p.PDone? && s.c.CDone?) || Enabled(s, Producer) || Enabled(s, Consumer)
  {
    InitialInv(dir);
    Always(dir, SharedRing.Initial(dir), schedule);
    SomeoneMoves(dir, At(dir, schedule));
  }

  function ProducerWork(s: State): nat
  {
    match s.p
    case PRead => 9 * |s.dir| + 9
    case PWaitEmpty(slot) => Ahead(slot.eof, s.dir) + 7
    case PWaitMutex(slot) => Ahead(slot.eof, s.dir) + 6
    case PStoreBegin(slot) => Ahead(slot.eof, s.dir) + 5
    case PStoreEnd(slot) => Ahead(slot.eof, s.dir) + 4
    case PAdvance(slot) => Ahead(slot.eof, s.dir) + 3
    case PPostMutex(last) => Ahead(last, s.dir) + 2
    case PPostFull(last) => Ahead(last, s.dir) + 1
    case PDone => 0
  }

  function Ahead(last: bool, dir: seq<Entry>): nat
  {
    if last then 0 else 9 * |dir| + 9
  }

  function ConsumerRank(s: State): nat
  {
    match s.c
    case CWaitFull => 7
    case CWaitMutex => 6
    case CLoadBegin => 5
    case CLoadEnd(_) => 4
    case CAdvance(_) => 3
    case CPostMutex(_) => 10
    case CPostEmpty(_) => 9
    case CWrite(_) => 8
    case CDone => 0
  }

  /** What is left to do; `total` is the number of records of the whole run. */
  function Work(total: nat, s: State): int
  {
    ProducerWork(s) + 8 * (total - |s.taken|) + ConsumerRank(s)
  }

  lemma ProducerDoesWork(total: nat, s: State)
    requires Shaped(s) && Enabled(s, Producer)
    ensures Work(total, ProducerStep(s)) < Work(total, s)
  {
  }

  lemma ConsumerDoesWork(total: nat, s: State)
    requires Shaped(s) && Enabled(s, Consumer)
    ensures Work(total, ConsumerStep(s)) < Work(total, s)
  {
  }

  lemma WorkIsNat(dir: seq<Entry>, s: State)
    requires Inv(dir, s)
    ensures 0 <= Work(|Plan(dir)|, s)
  {
    assert |s.taken| <= |s.sent| <= |s.sent + ToSend(s)|;
  }

  lemma StepDoesWork(dir: seq<Entry>, s: State, who: Process)
    requires Inv(dir, s) && Enabled(s, who)
    ensures 0 <= Work(|Plan(dir)|, Step(s, who)) < Work(|Plan(dir)|, s)
  {
    StepKeepsInv(dir, s, who);
    WorkIsNat(dir, Step(s, who));
    match who
    case Producer => ProducerDoesWork(|Plan(dir)|, s);
    case Consumer => ConsumerDoesWork(|Plan(dir)|, s);
  }

  lemma {:induction false} RunDoesWork(dir: seq<Entry>, s: State, schedule: seq<Process>)
    requires Inv(dir, s) && Follows(s, schedule)
    ensures |schedule| + Work(|Plan(dir)|, Run(s, schedule)) <= Work(|Plan(dir)|, s)
    decreases |schedule|
  {
    if schedule != [] {
      StepDoesWork(dir, s, schedule[0]);
      StepKeepsInv(dir, s, schedule[0]);
      RunDoesWork(dir, Step(s, schedule[0]), schedule[1..]);
    }
  }

  lemma {:induction false} PlanLength(dir: seq<Entry>)
    ensures |Plan(dir)| <= |dir| + 1
  {
    if dir != [] {
      PlanLength(dir[1..]);
    }
  }

  /** Every run ends: over a directory of n entries no schedule has more than
      17 n + 24 steps. */
  lemma EveryRunEnds(dir: seq<Entry>, schedule: seq<Process>)
    requires Reachable(dir, schedule)
    ensures |schedule| <= 17 * |dir| + 24
  {
    InitialInv(dir);
    RunDoesWork(dir, SharedRing.Initial(dir), schedule);
    InitialInv(dir);
    Always(dir, SharedRing.Initial(dir), schedule);
    PlanLength(dir);
  }

  /** A run that cannot be continued has written every chosen file. */
  lemma CompleteRunsDeliverEverything(dir: seq<Entry>, schedule: seq<Process>)
    requires Reachable(dir, schedule)
    requires forall e | e in dir :: NameFits(e)
    requires forall who :: !Enabled(At(dir, schedule), who)
    ensures At(dir, schedule).files == ExpectedFiles(dir)
  {
    NeverDeadlocks(dir, schedule);
    WritesExactlyTheFiles(dir, schedule);
    assert !Enabled(At(dir, schedule), Producer) && !Enabled(At(dir, schedule), Consumer);
  }
}
