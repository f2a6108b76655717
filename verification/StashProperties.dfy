/** The head of the file is never lost. */
module StashProperties {
  import opened Bytes
  import opened Common
  import opened Stash

  /** What the disk stands for: the metadata laid over the start of the file. */
  function Overlay(d: Disk): Bytes
  {
    match d.meta
    case None => d.file
    case Some(head) => Overwrite(d.file, head)
  }

  /** The original can be had back, and the metadata is no longer than the file. */
  predicate Recoverable(orig: Bytes, d: Disk)
  {
    Overlay(d) == orig && (d.meta.Some? ==> |d.meta.value| <= |d.file|)
  }

  predicate AllRecoverable(orig: Bytes, states: seq<Disk>)
  {
    forall i | 0 <= i < |states| :: Recoverable(orig, states[i])
  }

  lemma SavedPartOfHead(orig: Bytes, n: nat, k: nat)
    requires k <= n <= |orig|
    ensures Overwrite(orig, orig[..n][..k]) == orig
  {
  }

  /** The saved head covers whatever has been zeroed. */
  lemma ZeroedPartIsSaved(orig: Bytes, n: nat, k: nat)
    requires k <= n <= |orig|
    ensures Overwrite(Overwrite(orig, Zeros(k)), orig[..n]) == orig
  {
  }

  /** Every state of a `distort` that starts on the untouched file. */
  lemma DistortKeepsRecoverable(name: Bytes, orig: Bytes, d: Disk, calls: DistortCalls)
    requires Recoverable(orig, d)
    ensures AllRecoverable(orig, Distort(name, d, calls).states)
  {
    if d.meta.None? {
      var n := HeadSize(orig);
      SavedPartOfHead(orig, n, 0);
      SavedPartOfHead(orig, n, Done(calls.metaWritten, n));
      ZeroedPartIsSaved(orig, n, Done(calls.zeroed, n));
      assert calls.metaWritten >= n ==> orig[..n][..Done(calls.metaWritten, n)] == orig[..n];
    }
  }

  lemma {:induction false} ReadMetaReadsAll(meta: Bytes, pos: nat, outcomes: seq<int>)
    requires pos <= |meta|
    ensures var r := ReadMeta(meta, pos, outcomes);
            && (r.Some? ==> r.value == meta[pos..])
            && (r.Some? <== forall i | 0 <= i < |outcomes| :: outcomes[i] >= 0)
    decreases |outcomes|, |meta| - pos
  {
    if (outcomes == [] || outcomes[0] >= 0) && pos < |meta| {
      var n := Piece(meta, pos, outcomes);
      ReadMetaReadsAll(meta, pos + n, if outcomes == [] then [] else outcomes[1..]);
      assert meta[pos..] == meta[pos..pos + n] + meta[pos + n..];
    }
  }

  /** Putting back part of the saved head changes nothing about what the disk
      stands for. */
  lemma PuttingBackPart(file: Bytes, head: Bytes, k: nat)
    requires k <= |head| <= |file|
    ensures Overwrite(Overwrite(file, head[..k]), head) == Overwrite(file, head)
  {
  }

  lemma RestoreKeepsRecoverable(name: Bytes, orig: Bytes, d: Disk, calls: RestoreCalls)
    requires Recoverable(orig, d)
    ensures AllRecoverable(orig, Restore(name, d, calls).states)
    ensures Restore(name, d, calls).code == 0 ==> Last(d, Restore(name, d, calls).states).file == orig
  {
    if d.meta.Some? {
      var head := d.meta.value;
      ReadMetaReadsAll(head, 0, calls.metaReads);
      assert head[0..] == head;
      PuttingBackPart(d.file, head, Done(calls.written, |head|));
      PuttingBackPart(d.file, head, |head|);
      assert head[..|head|] == head;
    }
  }

  // Sequences of calls -----------------------------------------------------------------------

  datatype Call = DistortCall(name: Bytes, distort: DistortCalls) | RestoreCall(name: Bytes, restore: RestoreCalls)

  function CourseOf(d: Disk, call: Call): Course
  {
    match call
    case DistortCall(name, calls) => Distort(name, d, calls)
    case RestoreCall(name, calls) => Restore(name, d, calls)
  }

  /** All states a sequence of calls takes the disk through. */
  function States(d: Disk, calls: seq<Call>): seq<Disk>
    decreases |calls|
  {
    if calls == [] then []
    else
      var states := CourseOf(d, calls[0]).states;
      states + States(Last(d, states), calls[1..])
  }

  function After(d: Disk, calls: seq<Call>): Disk
    decreases |calls|
  {
    if calls == [] then d else After(Last(d, CourseOf(d, calls[0]).states), calls[1..])
  }

  lemma CallKeepsRecoverable(orig: Bytes, d: Disk, call: Call)
    requires Recoverable(orig, d)
    ensures AllRecoverable(orig, CourseOf(d, call).states)
    ensures Recoverable(orig, Last(d, CourseOf(d, call).states))
  {
    match call
    case DistortCall(name, calls) => DistortKeepsRecoverable(name, orig, d, calls);
    case RestoreCall(name, calls) => RestoreKeepsRecoverable(name, orig, d, calls);
  }

  lemma {:induction false} EveryStateIsRecoverable(orig: Bytes, d: Disk, calls: seq<Call>)
    requires Recoverable(orig, d)
    ensures AllRecoverable(orig, States(d, calls))
    ensures Recoverable(orig, After(d, calls))
    decreases |calls|
  {
    if calls != [] {
      CallKeepsRecoverable(orig, d, calls[0]);
      EveryStateIsRecoverable(orig, Last(d, CourseOf(d, calls[0]).states), calls[1..]);
    }
  }

  /** From an untouched file, through any sequence of calls with any failures: at
      every intermediate state the metadata, laid over the start of the file,
      gives back the original, and a `restore` that reports success has put the
      original back. */
  lemma NothingIsEverLost(orig: Bytes, calls: seq<Call>, name: Bytes, last: RestoreCalls)
    ensures forall i | 0 <= i < |States(Disk(orig, None), calls)| :: Overlay(States(Disk(orig, None), calls)[i]) == orig
    ensures var d := After(Disk(orig, None), calls);
            var course := Restore(name, d, last);
            course.code == 0 ==> Last(d, course.states).file == orig
  {
    EveryStateIsRecoverable(orig, Disk(orig, None), calls);
    RestoreKeepsRecoverable(name, orig, After(Disk(orig, None), calls), last);
  }

  // Calls that succeed -------------------------------------------------------------------------

  /** A `distort` that reports success found no metadata, saved the head and left
      zeros in its place. */
  lemma DistortHides(name: Bytes, orig: Bytes, d: Disk, calls: DistortCalls)
    requires Recoverable(orig, d) && Distort(name, d, calls).code == 0
    ensures d == Disk(orig, None)
    ensures var n := HeadSize(orig);
            Last(d, Distort(name, d, calls).states) == Disk(Zeros(n) + orig[n..], Some(orig[..n]))
  {
    var n := HeadSize(orig);
    if n > 0 {
      assert orig[..n][..n] == orig[..n];
    } else {
      assert Zeros(0) + orig[0..] == orig && orig[..0][..0] == orig[..0];
    }
  }

  predicate NothingFails(calls: RestoreCalls)
  {
    && calls.metaOpened && calls.fileOpened && calls.unlinked && calls.written >= STASH_BYTES
    && forall i | 0 <= i < |calls.metaReads| :: calls.metaReads[i] >= 0
  }

  /** `restore` after a successful `distort`, with nothing failing, is the way
      back to where it started, metadata and all. */
  lemma RestoreUndoesDistort(name: Bytes, orig: Bytes, calls: DistortCalls, back: RestoreCalls)
    requires Distort(name, Disk(orig, None), calls).code == 0 && NothingFails(back)
    ensures var d := Last(Disk(orig, None), Distort(name, Disk(orig, None), calls).states);
            var course := Restore(name, d, back);
            course.code == 0 && Last(d, course.states) == Disk(orig, None)
  {
    DistortHides(name, orig, Disk(orig, None), calls);
    var d := Last(Disk(orig, None), Distort(name, Disk(orig, None), calls).states);
    ReadMetaReadsAll(d.meta.value, 0, back.metaReads);
    assert d.meta.value[0..] == d.meta.value;
    var n := HeadSize(orig);
    assert orig[..n][..n] == orig[..n];
    assert Overwrite(Zeros(n) + orig[n..], orig[..n]) == orig;
  }

  // When they succeed ------------------------------------------------------------------------

  /** Every call did all that was asked of it; reads and writes of the head only
      matter if there is one. */
  predicate AllDone(d: Disk, calls: DistortCalls)
  {
    var n := if |d.file| <= STASH_BYTES then |d.file| else STASH_BYTES;
    && calls.isFile && calls.darkMade && calls.fileOpened && calls.statted && calls.created
    && (d.file != [] ==> calls.headRead >= n && calls.metaWritten >= n && calls.zeroed >= n)
  }

  /** `distort` returns 0 exactly if the name fits, there is no metadata yet, and
      every call did all that was asked of it; 2 exactly if the name does not fit. */
  lemma DistortSucceedsIff(name: Bytes, d: Disk, calls: DistortCalls)
    ensures var code := Distort(name, d, calls).code;
            && (code == 0 <==> name != [] && SLASH !in name && d.meta.None? && AllDone(d, calls))
            && (code == 2 <==> name == [] || SLASH in name)
            && 0 <= code <= 2
  {
  }

  /** And then the head is saved and zeroed, and nothing else is touched. */
  lemma DistortDoesItsWork(name: Bytes, orig: Bytes, calls: DistortCalls)
    requires name != [] && SLASH !in name && AllDone(Disk(orig, None), calls)
    ensures var course := Distort(name, Disk(orig, None), calls);
            var n := if |orig| <= STASH_BYTES then |orig| else STASH_BYTES;
            course.code == 0
            && Last(Disk(orig, None), course.states) == Disk(Zeros(n) + orig[n..], Some(orig[..n]))
  {
    DistortSucceedsIff(name, Disk(orig, None), calls);
    assert Overwrite(orig, []) == orig;
    DistortHides(name, orig, Disk(orig, None), calls);
  }

  /** What fails before the metadata file is made leaves the disk alone; a head that
      cannot be saved whole leaves it as it was if the metadata can be removed again. */
  lemma FailedDistortLeavesNothing(name: Bytes, d: Disk, calls: DistortCalls)
    requires Distort(name, d, calls).code != 0
    ensures var n := if |d.file| <= STASH_BYTES then |d.file| else STASH_BYTES;
            var states := Distort(name, d, calls).states;
            && ((d.meta.Some? || !calls.isFile || !calls.darkMade || !calls.fileOpened || !calls.statted
                 || !calls.created || (d.file != [] && calls.headRead < n)) ==>
                  states == [])
            && (d.file != [] && calls.metaWritten < n && calls.unlinked ==> Last(d, states) == d)
  {
  }

  /** With reads that do not fail, `restore` returns 0 exactly if the name fits, the
      metadata is there and opens, the file opens, and the head is written whole; 2
      exactly if the name does not fit. */
  lemma RestoreSucceedsIff(name: Bytes, d: Disk, calls: RestoreCalls)
    requires forall i | 0 <= i < |calls.metaReads| :: calls.metaReads[i] >= 0
    ensures var code := Restore(name, d, calls).code;
            && (code == 0 <==>
                  && name != [] && SLASH !in name
                  && d.meta.Some? && calls.metaOpened && calls.fileOpened
                  && (d.meta.value != [] ==> calls.written >= |d.meta.value|))
            && (code == 2 <==> name == [] || SLASH in name)
            && 0 <= code <= 2
  {
    if d.meta.Some? {
      ReadMetaReadsAll(d.meta.value, 0, calls.metaReads);
      assert d.meta.value[0..] == d.meta.value;
    }
  }

  /** A read that fails at the start of the metadata fails the call, which then has
      touched nothing. */
  lemma FailedReadFails(name: Bytes, d: Disk, calls: RestoreCalls)
    requires calls.metaReads != [] && calls.metaReads[0] < 0
    ensures Restore(name, d, calls).code != 0 && Restore(name, d, calls).states == []
  {
  }
}
