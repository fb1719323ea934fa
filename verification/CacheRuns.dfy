/** Any number of requests over the two stores, interleaved in any way.  One step
    of a request is one access to one store; choosing and rendering are local.
    An image of a batch request takes the same steps: a batch only waits for its
    own images between them, which rules interleavings out, never in. */
module CacheRuns {
  import opened Basics
  import opened ImageCache
  import opened VersionKeys
  import opened Answers

  datatype Request = Request(desc: Descriptor, inBatch: bool)

  /** How far a request has come. */
  datatype Local =
    | Start
    | Chosen(image: Image, choice: Choice)
    | WritingBlob(image: Image, version: Version, bytes: Blob, answer: Result)
    | WritingMeta(image: Image, answer: Result)
    | Finished(result: Result)

  datatype World = World(store: Store, locals: seq<Local>)

  /** The next step of one request. */
  function Move(env: Env, r: Request, s: Store, l: Local): (Store, Local) {
    match l
    case Start =>
      if r.desc.imageKey !in s.meta then (s, Finished(NoSuchImage))
      else
        var image := s.meta[r.desc.imageKey];
        (s, Chosen(image, Choose(image.versions, r.desc)))
    case Chosen(image, Undefined) => (s, Finished(Crash))
    case Chosen(image, NoOriginal) => (s, Finished(OriginalMissing))
    case Chosen(image, Serve(src, extension)) =>
      if src.key !in s.blobs then (s, Finished(NoSuchBlob))
      else (s, Finished(Done(MakeResult(env, r.desc, s.blobs[src.key], extension))))
    case Chosen(image, RenderFrom(src, extension)) =>
      if src.key !in s.blobs then (s, Finished(NoSuchBlob))
      else
        var data := Rendered(env, src, s.blobs[src.key], r.desc, extension);
        var answer := Done(MakeResult(env, r.desc, data, extension));
        if r.desc.save then
          var v := NewVersion(env, image.key, src, r.desc, extension, |data|);
          (s, WritingBlob(image, v, StoredBytes(r.inBatch, data), answer))
        else (s, Finished(answer))
    case WritingBlob(image, v, bytes, answer) =>
      (s.(blobs := s.blobs[v.key := bytes]), WritingMeta(AddVersion(image, v), answer))
    case WritingMeta(image, answer) =>
      (s.(meta := s.meta[image.key := image]), Finished(answer))
    case Finished(_) => (s, l)
  }

  function Begin(s: Store, n: nat): World {
    World(s, seq(n, _ => Start))
  }

  function Step(env: Env, requests: seq<Request>, w: World, i: nat): World
    requires |w.locals| == |requests| && i < |requests|
  {
    var (s, l) := Move(env, requests[i], w.store, w.locals[i]);
    World(s, w.locals[i := l])
  }

  /** The world after a schedule: which request moves, step by step. */
  ghost function Run(env: Env, requests: seq<Request>, w: World, schedule: seq<nat>): (w': World)
    requires |w.locals| == |requests|
    requires forall k :: 0 <= k < |schedule| ==> schedule[k] < |requests|
    ensures |w'.locals| == |requests|
    decreases |schedule|
  {
    if schedule == [] then w else Run(env, requests, Step(env, requests, w, schedule[0]), schedule[1..])
  }

  // ----- What every step keeps -----

  ghost predicate LocalInvariant(env: Env, init: Store, r: Request, l: Local, blobs: map<string, Blob>)
    requires WellFormed(init)
  {
    var k := r.desc.imageKey;
    match l
    case Start => true
    case Chosen(image, choice) =>
      k in init.meta && Faithful(env, init, k, image, blobs) && choice == Choose(image.versions, r.desc)
    case WritingBlob(image, v, bytes, answer) =>
      && k in init.meta && Faithful(env, init, k, image, blobs)
      && !v.original && v.key == VersionKey(k, v.width, v.height, v.extension)
      && bytes == Ideal(env, init, k, v.width, v.height, v.extension)
      && answer == Baseline(env, init, r.desc)
    case WritingMeta(image, answer) =>
      k in init.meta && Faithful(env, init, k, image, blobs) && answer == Baseline(env, init, r.desc)
    case Finished(result) => result == Baseline(env, init, r.desc)
  }

  ghost predicate StoreInvariant(env: Env, init: Store, s: Store)
    requires WellFormed(init)
  {
    && s.meta.Keys == init.meta.Keys
    && forall k :: k in init.meta ==> Faithful(env, init, k, s.meta[k], s.blobs)
  }

  ghost predicate Invariant(env: Env, init: Store, requests: seq<Request>, w: World)
    requires WellFormed(init)
  {
    && |w.locals| == |requests|
    && StoreInvariant(env, init, w.store)
    && forall i :: 0 <= i < |requests| ==> LocalInvariant(env, init, requests[i], w.locals[i], w.store.blobs)
  }

  lemma ChosenKeeps(env: Env, init: Store, r: Request, s: Store, l: Local)
    requires WellFormed(init) && Fits(env, init, r.desc, r.inBatch)
    requires l.Chosen? && LocalInvariant(env, init, r, l, s.blobs)
    ensures Move(env, r, s, l).0 == s && LocalInvariant(env, init, r, Move(env, r, s, l).1, s.blobs)
  {
    hide Choose, Ideal, Baseline, WellFormed, Faithful, VersionKey, MakeResult, Rendered, StoredBytes;
    FaithfulChoice(env, init, l.image, s.blobs, r.desc);
    FaithfulKey(env, init, r.desc.imageKey, l.image, s.blobs);
    var c := l.choice;
    if c.RenderFrom? && r.desc.save {
      StoredWhole(r.inBatch, Rendered(env, c.src, s.blobs[c.src.key], r.desc, c.extension));
    }
  }

  lemma StoredWhole(inBatch: bool, data: Blob)
    requires inBatch || |data| < TWO32
    ensures StoredBytes(inBatch, data) == data
  {
  }

  lemma FaithfulKey(env: Env, init: Store, k: string, image: Image, blobs: map<string, Blob>)
    requires WellFormed(init) && k in init.meta && Faithful(env, init, k, image, blobs)
    ensures image.key == k
  {
  }

  /** Writing the bytes of a version keeps every stored image faithful. */
  lemma WriteKeepsStore(env: Env, init: Store, s: Store, k: string, w: nat, h: nat, e: string)
    requires WellFormed(init) && k in init.meta && StoreInvariant(env, init, s)
    ensures StoreInvariant(env, init, s.(blobs := s.blobs[VersionKey(k, w, h, e) := Ideal(env, init, k, w, h, e)]))
  {
    hide WellFormed, Faithful, VersionKey, Ideal;
    forall j | j in init.meta
      ensures Faithful(env, init, j, s.meta[j], s.blobs[VersionKey(k, w, h, e) := Ideal(env, init, k, w, h, e)])
    {
      WriteKeepsFaithful(env, init, j, s.meta[j], s.blobs, k, w, h, e);
    }
  }

  lemma WritingBlobKeeps(env: Env, init: Store, r: Request, s: Store, l: Local)
    requires WellFormed(init) && StoreInvariant(env, init, s)
    requires l.WritingBlob? && LocalInvariant(env, init, r, l, s.blobs)
    ensures StoreInvariant(env, init, Move(env, r, s, l).0)
    ensures LocalInvariant(env, init, r, Move(env, r, s, l).1, Move(env, r, s, l).0.blobs)
  {
    hide WellFormed, Faithful, VersionKey, Ideal, Baseline, AddVersion;
    var k, v := r.desc.imageKey, l.version;
    WriteKeepsStore(env, init, s, k, v.width, v.height, v.extension);
    WriteKeepsFaithful(env, init, k, l.image, s.blobs, k, v.width, v.height, v.extension);
    RecordKeepsFaithful(env, init, k, l.image, s.blobs[v.key := l.bytes], v);
  }

  lemma WritingMetaKeeps(env: Env, init: Store, r: Request, s: Store, l: Local)
    requires WellFormed(init) && StoreInvariant(env, init, s)
    requires l.WritingMeta? && LocalInvariant(env, init, r, l, s.blobs)
    ensures StoreInvariant(env, init, Move(env, r, s, l).0)
    ensures LocalInvariant(env, init, r, Move(env, r, s, l).1, Move(env, r, s, l).0.blobs)
  {
    hide WellFormed, Faithful, Baseline, Choose, Ideal, VersionKey;
    FaithfulKey(env, init, r.desc.imageKey, l.image, s.blobs);
  }

  /** The step of the request that moves. */
  lemma MoveKeeps(env: Env, init: Store, r: Request, s: Store, l: Local)
    requires WellFormed(init) && Fits(env, init, r.desc, r.inBatch)
    requires StoreInvariant(env, init, s) && LocalInvariant(env, init, r, l, s.blobs)
    ensures StoreInvariant(env, init, Move(env, r, s, l).0)
    ensures LocalInvariant(env, init, r, Move(env, r, s, l).1, Move(env, r, s, l).0.blobs)
  {
    hide WellFormed, Faithful, VersionKey, Ideal, Choose, MakeResult, Rendered, Fits;
    match l
    case Chosen(_, _) => ChosenKeeps(env, init, r, s, l);
    case WritingBlob(_, _, _, _) => WritingBlobKeeps(env, init, r, s, l);
    case WritingMeta(_, _) => WritingMetaKeeps(env, init, r, s, l);
    case _ =>
  }

  /** The step of another request. */
  lemma OthersKeep(env: Env, init: Store, r: Request, s: Store, l: Local, other: Request, m: Local)
    requires WellFormed(init)
    requires LocalInvariant(env, init, r, l, s.blobs) && LocalInvariant(env, init, other, m, s.blobs)
    ensures LocalInvariant(env, init, other, m, Move(env, r, s, l).0.blobs)
  {
    hide WellFormed, Faithful, VersionKey, Ideal, Choose, Baseline, MakeResult, Rendered;
    if l.WritingBlob? && !m.Start? && !m.Finished? {
      var v := l.version;
      WriteKeepsFaithful(env, init, other.desc.imageKey, m.image, s.blobs, r.desc.imageKey, v.width, v.height, v.extension);
    }
  }

  lemma StepKeepsInvariant(env: Env, init: Store, requests: seq<Request>, w: World, i: nat)
    requires WellFormed(init) && Invariant(env, init, requests, w)
    requires i < |requests| && Fits(env, init, requests[i].desc, requests[i].inBatch)
    ensures Invariant(env, init, requests, Step(env, requests, w, i))
  {
    MoveKeeps(env, init, requests[i], w.store, w.locals[i]);
    var w' := Step(env, requests, w, i);
    forall j | 0 <= j < |requests|
      ensures LocalInvariant(env, init, requests[j], w'.locals[j], w'.store.blobs)
    {
      if j != i {
        OthersKeep(env, init, requests[i], w.store, w.locals[i], requests[j], w.locals[j]);
      }
    }
  }

  lemma BeginInvariant(env: Env, init: Store, requests: seq<Request>)
    requires WellFormed(init)
    ensures Invariant(env, init, requests, Begin(init, |requests|))
  {
    hide WellFormed, Faithful;
    forall k | k in init.meta
      ensures Faithful(env, init, k, init.meta[k], init.blobs)
    {
      StartsFaithful(env, init, k);
    }
  }

  ghost predicate AllFit(env: Env, init: Store, requests: seq<Request>) {
    forall i :: 0 <= i < |requests| ==> Fits(env, init, requests[i].desc, requests[i].inBatch)
  }

  ghost predicate Schedules(requests: seq<Request>, schedule: seq<nat>) {
    forall k :: 0 <= k < |schedule| ==> schedule[k] < |requests|
  }

  lemma {:induction false} RunKeepsInvariant(env: Env, init: Store, requests: seq<Request>, w: World, schedule: seq<nat>)
    requires WellFormed(init) && AllFit(env, init, requests)
    requires Invariant(env, init, requests, w) && Schedules(requests, schedule)
    ensures Invariant(env, init, requests, Run(env, requests, w, schedule))
    decreases |schedule|
  {
    hide WellFormed, Fits, Invariant;
    assert |w.locals| == |requests| by { InvariantCounts(env, init, requests, w); }
    if schedule != [] {
      StepKeepsInvariant(env, init, requests, w, schedule[0]);
      RunKeepsInvariant(env, init, requests, Step(env, requests, w, schedule[0]), schedule[1..]);
    }
  }

  lemma InvariantCounts(env: Env, init: Store, requests: seq<Request>, w: World)
    requires WellFormed(init) && Invariant(env, init, requests, w)
    ensures |w.locals| == |requests|
  {
  }

  /** The cache cannot be noticed: whatever requests run, save or do not save and
      interleave, each one that finishes gets the answer it would have got from
      the initial stores if no request ever saved anything. */
  lemma CacheIsTransparent(env: Env, init: Store, requests: seq<Request>, schedule: seq<nat>, i: nat)
    requires WellFormed(init) && AllFit(env, init, requests) && Schedules(requests, schedule)
    requires i < |requests|
    ensures var w := Run(env, requests, Begin(init, |requests|), schedule);
            w.locals[i].Finished? ==> w.locals[i].result == Baseline(env, init, requests[i].desc)
  {
    hide WellFormed, Fits, Run, Baseline, StoreInvariant, Faithful, Ideal;
    BeginInvariant(env, init, requests);
    RunKeepsInvariant(env, init, requests, Begin(init, |requests|), schedule);
    var w := Run(env, requests, Begin(init, |requests|), schedule);
    assert LocalInvariant(env, init, requests[i], w.locals[i], w.store.blobs);
  }

  /** What that answer is, read off the initial stores: for a request for the
      original its bytes; else those of the first version of the wanted size and
      format; else, if there is none, the original rendered to that size and format.
      `o` is the original and `e` the format. */
  lemma FinishedAnswer(env: Env, init: Store, requests: seq<Request>, schedule: seq<nat>, i: nat, o: int, e: string)
    requires WellFormed(init) && AllFit(env, init, requests) && Schedules(requests, schedule)
    requires i < |requests| && Run(env, requests, Begin(init, |requests|), schedule).locals[i].Finished?
    requires requests[i].desc.imageKey in init.meta && FirstOriginal(init.meta[requests[i].desc.imageKey].versions, o)
    requires var desc := requests[i].desc;
             e == if desc.extension == "" then init.meta[desc.imageKey].versions[o].extension else desc.extension
    ensures var desc, result := requests[i].desc, Run(env, requests, Begin(init, |requests|), schedule).locals[i].result;
            var versions := init.meta[desc.imageKey].versions;
            && versions[o].key in init.blobs && result.Done?
            && (desc.original ==> Delivers(env, desc, e, init.blobs[versions[o].key], result.answer))
            && (!desc.original ==> forall j :: FirstExact(versions, desc, e, j) ==>
                  versions[j].key in init.blobs && Delivers(env, desc, e, init.blobs[versions[j].key], result.answer))
            && (!desc.original && HasNoExact(versions, desc, e) ==>
                  Delivers(env, desc, e, env.render(versions[o].width, versions[o].height, init.blobs[versions[o].key],
                                                    desc.width, desc.height, e), result.answer))
  {
    CacheIsTransparent(env, init, requests, schedule, i);
    hide Run, AllFit;
    BaselineDelivers(env, init, requests[i].desc, o, e);
  }

  lemma BaselineDelivers(env: Env, s: Store, desc: Descriptor, o: int, e: string)
    requires WellFormed(s) && desc.imageKey in s.meta && FirstOriginal(s.meta[desc.imageKey].versions, o)
    requires e == if desc.extension == "" then s.meta[desc.imageKey].versions[o].extension else desc.extension
    ensures var versions, result := s.meta[desc.imageKey].versions, Baseline(env, s, desc);
            && versions[o].key in s.blobs && result.Done?
            && (desc.original ==> Delivers(env, desc, e, s.blobs[versions[o].key], result.answer))
            && (!desc.original ==> forall j :: FirstExact(versions, desc, e, j) ==>
                  versions[j].key in s.blobs && Delivers(env, desc, e, s.blobs[versions[j].key], result.answer))
            && (!desc.original && HasNoExact(versions, desc, e) ==>
                  Delivers(env, desc, e, env.render(versions[o].width, versions[o].height, s.blobs[versions[o].key],
                                                    desc.width, desc.height, e), result.answer))
  {
    var versions, plain := s.meta[desc.imageKey].versions, desc.(save := false);
    AnswerWithOriginal(env, s, plain, false, o, e);
    BaselineByChoice(env, s, desc);
    forall j | 0 <= j < |versions| ensures versions[j].key in s.blobs {
      assert versions[j] in versions;
    }
    forall j | FirstExact(versions, desc, e, j) ensures FirstExact(versions, plain, e, j) {}
    forall bytes, answer | Delivers(env, plain, e, bytes, answer) ensures Delivers(env, desc, e, bytes, answer) {}
    hide Answered, Choose, Delivers, WellFormed, MakeResult;
  }

  /** Metadata never promises what is not there: at every moment of every run the
      images are the initial ones, the original stays the original, and each
      listed version is stored with the bytes that belong to it, even when
      updates of the same image overwrite each other. */
  lemma ListedVersionsAreStored(env: Env, init: Store, requests: seq<Request>, schedule: seq<nat>, k: string)
    requires WellFormed(init) && AllFit(env, init, requests) && Schedules(requests, schedule)
    requires k in init.meta
    ensures var s := Run(env, requests, Begin(init, |requests|), schedule).store;
            && s.meta.Keys == init.meta.Keys
            && s.meta[k].key == k && init.meta[k].versions <= s.meta[k].versions
            && forall v :: v in s.meta[k].versions ==>
                 v.key in s.blobs && s.blobs[v.key] == Ideal(env, init, k, v.width, v.height, v.extension)
  {
    hide WellFormed, Fits, Run, Ideal, LocalInvariant;
    BeginInvariant(env, init, requests);
    RunKeepsInvariant(env, init, requests, Begin(init, |requests|), schedule);
    var s := Run(env, requests, Begin(init, |requests|), schedule).store;
    assert Faithful(env, init, k, s.meta[k], s.blobs);
  }

  // ----- A request alone -----

  function MoveOn(env: Env, r: Request, s: Store, l: Local, n: nat): (Store, Local)
    decreases n
  {
    if n == 0 then (s, l) else var (s', l') := Move(env, r, s, l); MoveOn(env, r, s', l', n - 1)
  }

  /** Without interference the steps add up to the sequential meaning of the request. */
  lemma AloneIsAnswered(env: Env, r: Request, s: Store)
    ensures var (result, s') := Answered(env, s, r.desc, r.inBatch);
            MoveOn(env, r, s, Start, 4) == (s', Finished(result))
  {
    hide Choose, MakeResult, Rendered, StoredBytes, VersionKey;
    var (s1, l1) := Move(env, r, s, Start);
    var (s2, l2) := Move(env, r, s1, l1);
    var (s3, l3) := Move(env, r, s2, l2);
    assert MoveOn(env, r, s3, l3, 1) == MoveOn(env, r, Move(env, r, s3, l3).0, Move(env, r, s3, l3).1, 0);
    assert MoveOn(env, r, s2, l2, 2) == MoveOn(env, r, s3, l3, 1);
    assert MoveOn(env, r, s1, l1, 3) == MoveOn(env, r, s2, l2, 2);
  }
}
