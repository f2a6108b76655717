/** `distort` and `restore`: save the head of a file beside it, overwrite it with
    zeros, and put it back.  Every system call may fail or do part of its work. */
module Stash {
  import opened Bytes
  import opened Common

  const STASH_BYTES: nat := 4096
  const SLASH: byte := 47

  /** The file and its metadata file, if there is one. */
  datatype Disk = Disk(file: Bytes, meta: Option<Bytes>)

  /** How the system calls of one `distort` turn out.  A count below zero is an
      error; a count above what was asked for means all of it. */
  datatype DistortCalls = DistortCalls(
    isFile: bool,
    darkMade: bool,
    accessWorks: bool,
    fileOpened: bool,
    statted: bool,
    headRead: int,
    created: bool,
    metaWritten: int,
    unlinked: bool,
    zeroed: int)

  /** How the system calls of one `restore` turn out; `metaReads` are the reads of
      the metadata file in turn, the rest of them reading all that is asked. */
  datatype RestoreCalls = RestoreCalls(
    metaOpened: bool,
    metaReads: seq<int>,
    fileOpened: bool,
    written: int,
    unlinked: bool)

  /** The states the disk goes through, in order, and the exit code. */
  datatype Course = Course(states: seq<Disk>, code: nat)

  function Done(n: int, asked: nat): (k: nat)
    ensures k <= asked
  {
    if n < 0 then 0 else if n > asked then asked else n
  }

  /** `pwrite` of data at the start of a file. */
  function Overwrite(file: Bytes, data: Bytes): Bytes
  {
    if |data| <= |file| then data + file[|data|..] else data
  }

  function HeadSize(file: Bytes): nat
  {
    if |file| < STASH_BYTES then |file| else STASH_BYTES
  }

  predicate NameFits(name: Bytes) { name != [] && SLASH !in name }

  // What a call does, as a function --------------------------------------------------

  /** Everything of `distort` up to the creation of the metadata file. */
  function DistortRefused(name: Bytes, d: Disk, calls: DistortCalls): Option<nat>
  {
    if !NameFits(name) then Some(2)
    else if !calls.isFile || !calls.darkMade then Some(1)
    else if calls.accessWorks && d.meta.Some? then Some(1)
    else if !calls.fileOpened || !calls.statted then Some(1)
    else if HeadSize(d.file) > 0 && calls.headRead < HeadSize(d.file) then Some(1)
    else if !calls.created || d.meta.Some? then Some(1)
    else None
  }

  function Distort(name: Bytes, d: Disk, calls: DistortCalls): Course
  {
    var refused := DistortRefused(name, d, calls);
    if refused.Some? then Course([], refused.value)
    else
      var n := HeadSize(d.file);
      var head := d.file[..n];
      var made := d.(meta := Some([]));
      var saved := d.(meta := Some(head[..Done(calls.metaWritten, n)]));
      if n > 0 && calls.metaWritten < n then
        Course([made, saved, if calls.unlinked then d.(meta := None) else saved], 1)
      else
        var zeroed := saved.(file := Overwrite(d.file, Zeros(Done(calls.zeroed, n))));
        if n == 0 then Course([made, saved], 0)
        else Course([made, saved, zeroed], if calls.zeroed < n then 1 else 0)
  }

  /** The read loop over the metadata file: all of it, or an error. */
  function ReadMeta(meta: Bytes, pos: nat, outcomes: seq<int>): Option<Bytes>
    requires pos <= |meta|
    decreases |outcomes|, |meta| - pos
  {
    if outcomes != [] && outcomes[0] < 0 then None
    else if pos == |meta| then Some([])
    else
      var n := Piece(meta, pos, outcomes);
      var rest := ReadMeta(meta, pos + n, if outcomes == [] then [] else outcomes[1..]);
      if rest.None? then None else Some(meta[pos..pos + n] + rest.value)
  }

  /** How much the next read returns: at least one byte unless the file is at its
      end, at most a bufferful. */
  function Piece(meta: Bytes, pos: nat, outcomes: seq<int>): (n: nat)
    requires pos < |meta|
    ensures 0 < n <= |meta| - pos
  {
    var most := if |meta| - pos < STASH_BYTES then |meta| - pos else STASH_BYTES;
    if outcomes == [] || outcomes[0] > most then most else if outcomes[0] <= 0 then 1 else outcomes[0]
  }

  function Restore(name: Bytes, d: Disk, calls: RestoreCalls): Course
  {
    if !NameFits(name) then Course([], 2)
    else if d.meta.None? || !calls.metaOpened then Course([], 1)
    else
      var head := ReadMeta(d.meta.value, 0, calls.metaReads);
      if head.None? || !calls.fileOpened then Course([], 1)
      else
        var n := |head.value|;
        var written := d.(file := Overwrite(d.file, head.value[..Done(calls.written, n)]));
        if n > 0 && calls.written < n then Course([written], 1)
        else
          var back := if n > 0 then written else d;
          Course((if n > 0 then [written] else []) + (if calls.unlinked then [back.(meta := None)] else []), 0)
  }

  // The code ------------------------------------------------------------------------------

  class Stasher {
    var disk: Disk
    /** Every state the disk has been in after a system call that changed it. */
    ghost var states: seq<Disk>

    constructor (file: Bytes)
      ensures disk == Disk(file, None) && states == []
    {
      disk := Disk(file, None);
      states := [];
    }

    method Change(d: Disk)
      modifies this
      ensures disk == d && states == old(states) + [d]
    {
      disk := d;
      states := states + [d];
    }

    method DistortFile(name: Bytes, calls: DistortCalls) returns (code: nat)
      modifies this
      ensures var course := Distort(name, old(disk), calls);
              && code == course.code
              && states == old(states) + course.states
              && disk == Last(old(disk), course.states)
    {
      if name == [] || SLASH in name {
        return 2;
      }
      if !calls.isFile {
        return 1;
      }
      if !calls.darkMade {
        return 1;
      }
      if calls.accessWorks && disk.meta.Some? {
        return 1;
      }
      if !calls.fileOpened {
        return 1;
      }
      if !calls.statted {
        return 1;
      }
      var n := 0;
      if |disk.file| > 0 {
        n := if STASH_BYTES < |disk.file| then STASH_BYTES else |disk.file|;
      }
      var head := disk.file[..n];
      if n > 0 {
        if calls.headRead < n {
          return 1;
        }
      }
      if !calls.created || disk.meta.Some? {
        return 1;
      }
      Change(disk.(meta := Some([])));
      var w := if head == [] then 0 else Done(calls.metaWritten, n);
      Change(disk.(meta := Some(head[..w])));
      if head != [] && calls.metaWritten < n {
        Change(if calls.unlinked then disk.(meta := None) else disk);
        return 1;
      }
      if n > 0 {
        Change(disk.(file := Overwrite(disk.file, Zeros(Done(calls.zeroed, n)))));
        if calls.zeroed < n {
          return 1;
        }
      }
      return 0;
    }

    /** The loop that collects the metadata, read by read. */
    method CollectHead(meta: Bytes, outcomes: seq<int>) returns (head: Option<Bytes>)
      ensures head == ReadMeta(meta, 0, outcomes)
    {
      var got: Bytes := [];
      var pos, i := 0, 0;
      assert outcomes[0..] == outcomes;
      assert forall rest: Bytes :: got + rest == rest;
      while true
        invariant 0 <= pos <= |meta| && 0 <= i <= |outcomes|
        invariant ReadMeta(meta, 0, outcomes) ==
                  (match ReadMeta(meta, pos, outcomes[i..])
                   case None => None
                   case Some(rest) => Some(got + rest))
        decreases |outcomes| - i, |meta| - pos
      {
        ghost var left := outcomes[i..];
        if i < |outcomes| && outcomes[i] < 0 {
          return None;
        }
        if pos == |meta| {
          assert got + [] == got;
          return Some(got);
        }
        var n := Piece(meta, pos, outcomes[i..]);
        ghost var tail := ReadMeta(meta, pos + n, if left == [] then [] else left[1..]);
        assert tail.Some? ==> got + (meta[pos..pos + n] + tail.value) == got + meta[pos..pos + n] + tail.value;
        got := got + meta[pos..pos + n];
        pos := pos + n;
        if i < |outcomes| {
          assert left[1..] == outcomes[i + 1..];
          i := i + 1;
        }
      }
    }

    method RestoreFile(name: Bytes, calls: RestoreCalls) returns (code: nat)
      modifies this
      ensures var course := Restore(name, old(disk), calls);
              && code == course.code
              && states == old(states) + course.states
              && disk == Last(old(disk), course.states)
    {
      if name == [] || SLASH in name {
        return 2;
      }
      if disk.meta.None? || !calls.metaOpened {
        return 1;
      }
      var head := CollectHead(disk.meta.value, calls.metaReads);
      if head.None? {
        return 1;
      }
      if !calls.fileOpened {
        return 1;
      }
      var n := |head.value|;
      if n > 0 {
        Change(disk.(file := Overwrite(disk.file, head.value[..Done(calls.written, n)])));
        if calls.written < n {
          return 1;
        }
      }
      if calls.unlinked {
        Change(disk.(meta := None));
      }
      return 0;
    }
  }

  function Last(d: Disk, states: seq<Disk>): Disk
  {
    if states == [] then d else states[|states| - 1]
  }
}
