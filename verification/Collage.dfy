/** The collage service: it fetches pictures until it has twelve different ones
    and posts them as a tar archive. */
module Collage {
  import opened Bytes
  import opened Common
  import opened Tar
  import opened TarProperties
  import opened TarReader

  const NEED: nat := 12
  const PARALLELISM: nat := 12
  const MAX_ROUNDS: nat := 12

  type Hash = Bytes -> nat

  // What is collected --------------------------------------------------------------------------

  /** The first n answers of the backend, in the order in which they are looked at. */
  function Answers(fetch: nat -> Bytes, n: nat): (s: seq<Bytes>)
    ensures |s| == n
  {
    seq(n, i requires 0 <= i < n => fetch(i))
  }

  predicate Seen(cats: seq<Bytes>, hash: Hash, h: nat)
  {
    exists k :: 0 <= k < |cats| && hash(cats[k]) == h
  }

  /** The first nonempty answer of every hash. */
  function Kept(answers: seq<Bytes>, hash: Hash): (cats: seq<Bytes>)
    ensures |cats| <= |answers|
  {
    if answers == [] then []
    else Next(Kept(answers[..|answers| - 1], hash), answers[|answers| - 1], hash)
  }

  function Next(cats: seq<Bytes>, answer: Bytes, hash: Hash): (cats': seq<Bytes>)
    ensures cats <= cats' && |cats'| <= |cats| + 1
  {
    if answer == [] || Seen(cats, hash, hash(answer)) then cats else cats + [answer]
  }

  /** The set in the code holds the hashes of the pictures. */
  ghost predicate Records(seen: set<nat>, cats: seq<Bytes>, hash: Hash)
  {
    forall h :: h in seen <==> Seen(cats, hash, h)
  }

  function Cut(cats: seq<Bytes>): seq<Bytes>
  {
    if |cats| <= NEED then cats else cats[..NEED]
  }

  /** "cat_01.jpg" to "cat_12.jpg". */
  function CatName(i: nat): Bytes
    requires i < NEED
  {
    var n := i + 1;
    [99, 97, 116, 95] + (if n < 10 then [48, 48 + n] else [49, 38 + n]) + [46, 106, 112, 103]
  }

  function Files(cats: seq<Bytes>): (files: seq<File>)
    requires |cats| <= NEED
    ensures |files| == |cats|
  {
    seq(|cats|, i requires 0 <= i < |cats| => File(CatName(i), cats[i]))
  }

  // The code -------------------------------------------------------------------------------------

  /** The two nested loops; `seen` holds the hashes of `cats`. */
  method Collect(fetch: nat -> Bytes, hash: Hash) returns (cats: seq<Bytes>)
    ensures cats == Cut(Kept(Answers(fetch, MAX_ROUNDS * PARALLELISM), hash))
  {
    cats := [];
    var seen: set<nat> := {};
    var round := 0;
    ghost var used := 0;
    while round < MAX_ROUNDS && |cats| < NEED
      invariant round <= MAX_ROUNDS && |cats| <= NEED
      invariant Records(seen, cats, hash)
      invariant used <= round * PARALLELISM && (|cats| < NEED ==> used == round * PARALLELISM)
      invariant cats == Kept(Answers(fetch, used), hash)
    {
      var i := 0;
      while i < PARALLELISM
        invariant i <= PARALLELISM && |cats| < NEED
        invariant Records(seen, cats, hash)
        invariant used == round * PARALLELISM + i
        invariant cats == Kept(Answers(fetch, used), hash)
      {
        var bytes := fetch(round * PARALLELISM + i);
        KeptStep(fetch, used, hash);
        used := used + 1;
        i := i + 1;
        if bytes == [] { continue; }
        var h := hash(bytes);
        if h !in seen {
          seen := seen + {h};
          SeenStep(cats, bytes, hash);
          cats := cats + [bytes];
          if |cats| >= NEED { break; }
        }
      }
      round := round + 1;
    }
    KeptGrows(fetch, used, MAX_ROUNDS * PARALLELISM, hash);
  }

  datatype Reply = Reply(status: nat, posted: Bytes)

  /** The answer to GET /make; `accepts` says what the backend does with the archive. */
  method Make(fetch: nat -> Bytes, hash: Hash, accepts: Bytes -> bool) returns (r: Reply)
    ensures var cats := Cut(Kept(Answers(fetch, MAX_ROUNDS * PARALLELISM), hash));
      r == if |cats| < NEED then Reply(503, [])
           else Reply(if accepts(Archive(Files(cats))) then 200 else 502, Archive(Files(cats)))
  {
    var cats := Collect(fetch, hash);
    if |cats| < NEED {
      return Reply(503, []);
    }
    var tar := [];
    ghost var files := Files(cats);
    assert files[0..] == files;
    for i := 0 to NEED
      invariant tar + Members(files[i..]) == Members(files)
    {
      MembersFront(tar, files, i);
      tar := TarAppendFile(tar, CatName(i), cats[i]);
    }
    assert tar == Members(files);
    tar := TarFinish(tar);
    r := Reply(if accepts(tar) then 200 else 502, tar);
  }

  // What it guarantees -----------------------------------------------------------------------------

  lemma KeptStep(fetch: nat -> Bytes, n: nat, hash: Hash)
    ensures Kept(Answers(fetch, n + 1), hash) == Next(Kept(Answers(fetch, n), hash), fetch(n), hash)
  {
    assert Answers(fetch, n + 1)[..n] == Answers(fetch, n);
  }

  lemma SeenStep(cats: seq<Bytes>, cat: Bytes, hash: Hash)
    ensures forall h :: Seen(cats + [cat], hash, h) <==> Seen(cats, hash, h) || h == hash(cat)
  {
    var more := cats + [cat];
    forall h
      ensures Seen(more, hash, h) <==> Seen(cats, hash, h) || h == hash(cat)
    {
      assert more[|cats|] == cat;
      if k :| 0 <= k < |cats| && hash(cats[k]) == h {
        assert more[k] == cats[k];
      }
    }
  }

  lemma {:induction false} KeptGrows(fetch: nat -> Bytes, m: nat, n: nat, hash: Hash)
    requires m <= n
    ensures Kept(Answers(fetch, m), hash) <= Kept(Answers(fetch, n), hash)
    decreases n
  {
    if m < n {
      KeptGrows(fetch, m, n - 1, hash);
      KeptStep(fetch, n - 1, hash);
      var some := Kept(Answers(fetch, n - 1), hash);
      FrontOfFront(Kept(Answers(fetch, m), hash), some, Kept(Answers(fetch, n), hash));
    }
  }

  lemma FrontOfFront(a: seq<Bytes>, b: seq<Bytes>, c: seq<Bytes>)
    requires a <= b <= c
    ensures a <= c
  {
  }

  /** The hashes of the nonempty answers. */
  function HashesOf(answers: seq<Bytes>, hash: Hash): set<nat>
  {
    set i | 0 <= i < |answers| && answers[i] != [] :: hash(answers[i])
  }

  lemma HashesStep(answers: seq<Bytes>, last: Bytes, hash: Hash)
    ensures HashesOf(answers + [last], hash)
         == HashesOf(answers, hash) + (if last == [] then {} else {hash(last)})
  {
    var all := answers + [last];
    forall i | 0 <= i < |answers|
      ensures all[i] == answers[i]
    {
    }
    assert all[|answers|] == last;
    forall h | h in HashesOf(answers, hash)
      ensures h in HashesOf(all, hash)
    {
      var i :| 0 <= i < |answers| && answers[i] != [] && hash(answers[i]) == h;
      assert all[i] != [] && hash(all[i]) == h;
    }
  }

  /** Every picture is a nonempty answer, no two have the same hash, and there is
      one for every hash that occurred. */
  ghost predicate OnePerHash(cats: seq<Bytes>, answers: seq<Bytes>, hash: Hash)
  {
    && (forall k | 0 <= k < |cats| :: cats[k] != [] && cats[k] in answers)
    && (forall j, k | 0 <= j < k < |cats| :: hash(cats[j]) != hash(cats[k]))
    && |cats| == |HashesOf(answers, hash)|
    && (forall h :: h in HashesOf(answers, hash) <==> Seen(cats, hash, h))
  }

  /** A picture of a new hash: it is added, and so is its hash. */
  lemma OnePerHashMore(cats: seq<Bytes>, answers: seq<Bytes>, cat: Bytes, hash: Hash)
    requires OnePerHash(cats, answers, hash) && cat != [] && !Seen(cats, hash, hash(cat))
    ensures OnePerHash(cats + [cat], answers + [cat], hash)
  {
    var more, all := cats + [cat], answers + [cat];
    HashesStep(answers, cat, hash);
    SeenStep(cats, cat, hash);
    assert HashesOf(all, hash) == HashesOf(answers, hash) + {hash(cat)} && hash(cat) !in HashesOf(answers, hash);
    forall k | 0 <= k < |more|
      ensures more[k] != [] && more[k] in all
    {
      assert k < |cats| ==> more[k] == cats[k] && cats[k] in answers;
    }
    forall j, k | 0 <= j < k < |more|
      ensures hash(more[j]) != hash(more[k])
    {
      assert more[j] == cats[j];
    }
  }

  /** An empty answer, or one of a known hash, changes neither. */
  lemma OnePerHashSame(cats: seq<Bytes>, answers: seq<Bytes>, last: Bytes, hash: Hash)
    requires OnePerHash(cats, answers, hash) && (last == [] || Seen(cats, hash, hash(last)))
    ensures OnePerHash(cats, answers + [last], hash)
  {
    HashesStep(answers, last, hash);
    assert HashesOf(answers + [last], hash) == HashesOf(answers, hash);
    forall k | 0 <= k < |cats|
      ensures cats[k] in answers + [last]
    {
      assert cats[k] in answers;
    }
  }

  lemma OnePerHashNext(cats: seq<Bytes>, answers: seq<Bytes>, last: Bytes, hash: Hash)
    requires OnePerHash(cats, answers, hash)
    ensures OnePerHash(Next(cats, last, hash), answers + [last], hash)
  {
    if last == [] || Seen(cats, hash, hash(last)) {
      OnePerHashSame(cats, answers, last, hash);
    } else {
      OnePerHashMore(cats, answers, last, hash);
    }
  }

  lemma {:induction false} KeptAreTheHashes(answers: seq<Bytes>, hash: Hash)
    ensures OnePerHash(Kept(answers, hash), answers, hash)
  {
    if answers == [] {
      assert HashesOf(answers, hash) == {};
    } else {
      var front, last := answers[..|answers| - 1], answers[|answers| - 1];
      assert front + [last] == answers;
      KeptAreTheHashes(front, hash);
      OnePerHashNext(Kept(front, hash), front, last, hash);
    }
  }

  /** The service gives up exactly when the 144 answers it may look at hold fewer
      than twelve hashes. */
  lemma GivesUpIffTooFew(fetch: nat -> Bytes, hash: Hash)
    ensures |Cut(Kept(Answers(fetch, MAX_ROUNDS * PARALLELISM), hash))| < NEED
       <==> |HashesOf(Answers(fetch, MAX_ROUNDS * PARALLELISM), hash)| < NEED
  {
    KeptAreTheHashes(Answers(fetch, MAX_ROUNDS * PARALLELISM), hash);
  }

  lemma CatNameFits(i: nat)
    requires i < NEED
    ensures |CatName(i)| <= 99 && 0 !in CatName(i)
  {
  }

  lemma CatNamesDiffer(i: nat, j: nat)
    requires i < j < NEED
    ensures CatName(i) != CatName(j)
  {
    assert CatName(i)[4] != CatName(j)[4] || CatName(i)[5] != CatName(j)[5];
  }

  /** What is posted reads back as twelve files with different names and different,
      nonempty contents, each an answer of the backend, exactly when no picture
      is too large for the size field. */
  lemma PostedArchiveReadsBack(fetch: nat -> Bytes, hash: Hash)
    requires |Kept(Answers(fetch, MAX_ROUNDS * PARALLELISM), hash)| >= NEED
    ensures var answers := Answers(fetch, MAX_ROUNDS * PARALLELISM);
      var files := Files(Cut(Kept(answers, hash)));
      && |files| == NEED
      && (ReadArchive(Archive(files)) == Some(files) <==> forall k | 0 <= k < NEED :: |files[k].data| < Power(8, 11))
      && (forall k | 0 <= k < NEED :: files[k].data != [] && files[k].data in answers)
      && (forall j, k | 0 <= j < k < NEED :: files[j].name != files[k].name && files[j].data != files[k].data)
  {
    var answers := Answers(fetch, MAX_ROUNDS * PARALLELISM);
    var all := Kept(answers, hash);
    var cats := Cut(all);
    var files := Files(cats);
    KeptAreTheHashes(answers, hash);
    CutIsFront(all);
    forall j, k | 0 <= j < k < NEED
      ensures files[j].name != files[k].name && files[j].data != files[k].data
    {
      CatNamesDiffer(j, k);
      assert hash(all[j]) != hash(all[k]);
    }
    StorableIffSmall(cats);
    ReadBackIffStorable(files);
  }

  lemma CutIsFront(cats: seq<Bytes>)
    requires |cats| >= NEED
    ensures |Cut(cats)| == NEED
    ensures forall k | 0 <= k < NEED :: Cut(cats)[k] == cats[k]
  {
  }

  lemma StorableIffSmall(cats: seq<Bytes>)
    requires |cats| == NEED
    ensures var files := Files(cats);
      (forall f | f in files :: Storable(f)) <==> (forall k | 0 <= k < NEED :: |files[k].data| < Power(8, 11))
  {
    var files := Files(cats);
    forall k | 0 <= k < NEED
      ensures Storable(files[k]) <==> |files[k].data| < Power(8, 11)
    {
      CatNameFits(k);
    }
    forall k | 0 <= k < NEED
      ensures files[k] in files
    {
    }
  }
}
