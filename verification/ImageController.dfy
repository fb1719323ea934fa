/** The request handlers and the repository they use, as they change the stores
    (src/image_controller/ImageController.cpp, src/repos/ImageStore.cpp), and the
    proof that a batch does what its requests would do one by one. */
module ImageController {
  import opened Basics
  import opened ImageCache
  import opened VersionKeys
  import opened Answers

  class ImageStore {
    var meta: map<string, Image>
    var blobs: map<string, Blob>

    constructor (s: Store)
      ensures Contents() == s
    {
      meta, blobs := s.meta, s.blobs;
    }

    function Contents(): Store
      reads this
    {
      Store(meta, blobs)
    }

    /** None stands for the exception of a missing entry. */
    method FindImage(key: string) returns (image: Option<Image>)
      ensures image == if key in meta then Some(meta[key]) else None
    {
      image := if key in meta then Some(meta[key]) else None;
    }

    method FindImages(keys: seq<string>) returns (images: map<string, Image>)
      ensures images == map k | k in keys && k in meta :: meta[k]
    {
      images := map[];
      for i := 0 to |keys|
        invariant images == map k | k in keys[..i] && k in meta :: meta[k]
      {
        if keys[i] in meta {
          images := images[keys[i] := meta[keys[i]]];
        }
      }
    }

    /** The entries of those keys that are stored. */
    method FindEntries(keys: seq<string>) returns (entries: map<string, Blob>)
      ensures entries == map k | k in keys && k in blobs :: blobs[k]
    {
      entries := map[];
      for i := 0 to |keys|
        invariant entries == map k | k in keys[..i] && k in blobs :: blobs[k]
      {
        if keys[i] in blobs {
          entries := entries[keys[i] := blobs[keys[i]]];
        }
      }
    }

    /** First the blob, then the metadata. */
    method SaveImageInstance(image: Image, instance: Version, data: Blob)
      requires instance.sizeBytes <= |data|
      modifies this
      ensures Contents() == Store(old(meta)[image.key := AddVersion(image, instance)],
                                  old(blobs)[instance.key := data[..instance.sizeBytes]])
    {
      blobs := blobs[instance.key := data[..instance.sizeBytes]];
      var copy := AddVersion(image, instance);
      meta := meta[copy.key := copy];
    }
  }

  method GetImage(env: Env, store: ImageStore, desc: Descriptor) returns (result: Result)
    modifies store
    ensures (result, store.Contents()) == Answered(env, old(store.Contents()), desc, false)
  {
    var found := store.FindImage(desc.imageKey);
    if found.None? { return NoSuchImage; }
    var image := found.value;
    match Choose(image.versions, desc)
    case Undefined => return Crash;
    case NoOriginal => return OriginalMissing;
    case Serve(src, extension) =>
      if src.key !in store.blobs { return NoSuchBlob; }
      return Done(MakeResult(env, desc, store.blobs[src.key], extension));
    case RenderFrom(src, extension) =>
      if src.key !in store.blobs { return NoSuchBlob; }
      var data := Rendered(env, src, store.blobs[src.key], desc, extension);
      if desc.save {
        var version := Keyed(env, image.key, Template(env, src, desc, extension, |data|));
        assert version.sizeBytes <= |data|;
        store.SaveImageInstance(image, version, data);
      }
      return Done(MakeResult(env, desc, data, extension));
  }

  // ----- What a batch does, from the stores it starts with -----

  ghost predicate Distinct(descs: seq<Descriptor>) {
    forall i, j :: 0 <= i < j < |descs| ==> descs[i].imageKey != descs[j].imageKey
  }

  ghost predicate Known(s: Store, descs: seq<Descriptor>) {
    forall i :: 0 <= i < |descs| ==> descs[i].imageKey in s.meta
  }

  predicate Saves(s: Store, d: Descriptor) {
    && d.save && d.imageKey in s.meta
    && Choose(s.meta[d.imageKey].versions, d).RenderFrom?
    && Choose(s.meta[d.imageKey].versions, d).src.key in s.blobs
  }

  function SavedBytes(env: Env, s: Store, d: Descriptor): Blob
    requires Saves(s, d)
  {
    var c := Choose(s.meta[d.imageKey].versions, d);
    Rendered(env, c.src, s.blobs[c.src.key], d, c.extension)
  }

  function SavedVersion(env: Env, s: Store, d: Descriptor): Version
    requires Saves(s, d)
  {
    var image := s.meta[d.imageKey];
    var c := Choose(image.versions, d);
    NewVersion(env, image.key, c.src, d, c.extension, |SavedBytes(env, s, d)|)
  }

  function Put(env: Env, s: Store, d: Descriptor, t: Store): Store {
    if Saves(s, d) then
      var v := SavedVersion(env, s, d);
      Store(t.meta[s.meta[d.imageKey].key := AddVersion(s.meta[d.imageKey], v)], t.blobs[v.key := SavedBytes(env, s, d)])
    else t
  }

  /** The stores after a batch; every change is computed from the stores before it. */
  function AfterBatch(env: Env, s: Store, descs: seq<Descriptor>): Store {
    if descs == [] then s else Put(env, s, descs[|descs| - 1], AfterBatch(env, s, descs[..|descs| - 1]))
  }

  // ----- The same requests one by one -----

  function Singles(env: Env, s: Store, descs: seq<Descriptor>): (r: (seq<Result>, Store))
    ensures |r.0| == |descs|
  {
    if descs == [] then ([], s)
    else
      var (results, t) := Singles(env, s, descs[..|descs| - 1]);
      var (result, t') := Answered(env, t, descs[|descs| - 1], false);
      (results + [result], t')
  }

  /** t differs from s in exactly what the given requests save. */
  ghost predicate ChangedBy(env: Env, s: Store, descs: seq<Descriptor>, t: Store) {
    MetaChangedBy(env, s, descs, t.meta) && BlobsChangedBy(env, s, descs, t.blobs)
  }

  ghost predicate MetaChangedBy(env: Env, s: Store, descs: seq<Descriptor>, meta: map<string, Image>) {
    && meta.Keys == s.meta.Keys
    && (forall d :: d in descs && Saves(s, d) ==>
          meta[d.imageKey] == AddVersion(s.meta[d.imageKey], SavedVersion(env, s, d)))
    && (forall k :: k in s.meta && Unsaved(s, descs, k) ==> meta[k] == s.meta[k])
  }

  ghost predicate BlobsChangedBy(env: Env, s: Store, descs: seq<Descriptor>, blobs: map<string, Blob>) {
    && (forall d :: d in descs && Saves(s, d) ==>
          SavedVersion(env, s, d).key in blobs && blobs[SavedVersion(env, s, d).key] == SavedBytes(env, s, d))
    && (forall b :: Unwritten(env, s, descs, b) ==>
          (b in blobs <==> b in s.blobs) && (b in s.blobs ==> blobs[b] == s.blobs[b]))
  }

  ghost predicate Unsaved(s: Store, descs: seq<Descriptor>, k: string) {
    forall d :: d in descs && Saves(s, d) ==> d.imageKey != k
  }

  ghost predicate Unwritten(env: Env, s: Store, descs: seq<Descriptor>, b: string) {
    forall d :: d in descs && Saves(s, d) ==> SavedVersion(env, s, d).key != b
  }

  /** The changes determine the stores, so their order does not matter. */
  lemma ChangesDetermine(env: Env, s: Store, descs: seq<Descriptor>, order: seq<Descriptor>, t: Store, t': Store)
    requires forall d :: d in descs <==> d in order
    requires ChangedBy(env, s, descs, t) && ChangedBy(env, s, order, t')
    ensures t == t'
  {
    hide Saves, SavedVersion, SavedBytes;
    forall k | k in s.meta
      ensures t.meta[k] == t'.meta[k]
    {
      if Unsaved(s, descs, k) { assert Unsaved(s, order, k); }
    }
    forall b
      ensures (b in t.blobs <==> b in t'.blobs) && (b in t.blobs ==> t.blobs[b] == t'.blobs[b])
    {
      if Unwritten(env, s, descs, b) { assert Unwritten(env, s, order, b); }
    }
  }

  lemma DifferentImagesDifferentKeys(env: Env, s: Store, d: Descriptor, d': Descriptor)
    requires WellFormed(s) && Saves(s, d) && Saves(s, d') && d.imageKey != d'.imageKey
    ensures SavedVersion(env, s, d).key != SavedVersion(env, s, d').key
    ensures s.meta[d.imageKey].key == d.imageKey
  {
    var v, v' := SavedVersion(env, s, d), SavedVersion(env, s, d');
    if v.key == v'.key {
      KeysInjective(d.imageKey, v.width, v.height, v.extension, d'.imageKey, v'.width, v'.height, v'.extension);
    }
  }

  lemma SavedUnderItsKey(s: Store, d: Descriptor)
    requires WellFormed(s) && Saves(s, d)
    ensures s.meta[d.imageKey].key == d.imageKey
  {
  }

  lemma PutChangesMeta(env: Env, s: Store, descs: seq<Descriptor>, d: Descriptor, t: Store)
    requires WellFormed(s) && MetaChangedBy(env, s, descs, t.meta)
    requires forall d' :: d' in descs ==> d'.imageKey != d.imageKey
    ensures MetaChangedBy(env, s, descs + [d], Put(env, s, d, t).meta)
  {
    hide SavedVersion, SavedBytes, WellFormed;
    if Saves(s, d) { SavedUnderItsKey(s, d); }
    forall k | k in s.meta && Unsaved(s, descs + [d], k)
      ensures Put(env, s, d, t).meta[k] == s.meta[k]
    {
      assert Unsaved(s, descs, k);
      assert d in descs + [d];
    }
  }

  lemma PutChangesBlobs(env: Env, s: Store, descs: seq<Descriptor>, d: Descriptor, t: Store)
    requires WellFormed(s) && BlobsChangedBy(env, s, descs, t.blobs)
    requires forall d' :: d' in descs ==> d'.imageKey != d.imageKey
    ensures BlobsChangedBy(env, s, descs + [d], Put(env, s, d, t).blobs)
  {
    hide SavedVersion, SavedBytes, WellFormed, Saves;
    var all, blobs := descs + [d], Put(env, s, d, t).blobs;
    forall d' | d' in all && Saves(s, d')
      ensures SavedVersion(env, s, d').key in blobs && blobs[SavedVersion(env, s, d').key] == SavedBytes(env, s, d')
    {
      if d' in descs && Saves(s, d) { DifferentImagesDifferentKeys(env, s, d', d); }
    }
    forall b | Unwritten(env, s, all, b)
      ensures (b in blobs <==> b in s.blobs) && (b in s.blobs ==> blobs[b] == s.blobs[b])
    {
      assert Unwritten(env, s, descs, b);
      assert d in all;
    }
  }

  lemma {:induction false} BatchChanges(env: Env, s: Store, descs: seq<Descriptor>)
    requires WellFormed(s) && Distinct(descs)
    ensures ChangedBy(env, s, descs, AfterBatch(env, s, descs))
  {
    if descs != [] {
      var front, d := descs[..|descs| - 1], descs[|descs| - 1];
      BatchChanges(env, s, front);
      hide MetaChangedBy, BlobsChangedBy, WellFormed, Put;
      PutChangesMeta(env, s, front, d, AfterBatch(env, s, front));
      PutChangesBlobs(env, s, front, d, AfterBatch(env, s, front));
      assert front + [d] == descs;
    }
  }

  // ----- A batch refines its requests -----

  ghost predicate AllFit(env: Env, s: Store, descs: seq<Descriptor>) {
    forall i :: 0 <= i < |descs| ==> Fits(env, s, descs[i], false)
  }

  /** What a request reads is untouched by requests for other images. */
  lemma OthersDoNotMatter(env: Env, s: Store, descs: seq<Descriptor>, d: Descriptor, t: Store)
    requires WellFormed(s) && ChangedBy(env, s, descs, t) && d.imageKey in s.meta
    requires forall d' :: d' in descs ==> d'.imageKey != d.imageKey
    ensures t.meta[d.imageKey] == s.meta[d.imageKey]
    ensures var c := Choose(s.meta[d.imageKey].versions, d);
            (c.Serve? || c.RenderFrom?) && c.src.key in s.blobs && c.src.key in t.blobs && t.blobs[c.src.key] == s.blobs[c.src.key]
  {
    BaselineByChoice(env, s, d);
    var c := Choose(s.meta[d.imageKey].versions, d);
    assert Unsaved(s, descs, d.imageKey);
    forall d' | d' in descs && Saves(s, d')
      ensures SavedVersion(env, s, d').key != c.src.key
    {
      KeyOfOther(env, s, d', d.imageKey, c.src);
    }
    assert Unwritten(env, s, descs, c.src.key);
  }

  lemma KeyOfOther(env: Env, s: Store, d: Descriptor, k: string, v: Version)
    requires WellFormed(s) && Saves(s, d) && k in s.meta && d.imageKey != k && v in s.meta[k].versions
    ensures SavedVersion(env, s, d).key != v.key
  {
    var w := SavedVersion(env, s, d);
    if w.key == v.key {
      KeysInjective(d.imageKey, w.width, w.height, w.extension, k, v.width, v.height, v.extension);
    }
  }

  lemma OneAfterOthers(env: Env, s: Store, descs: seq<Descriptor>, d: Descriptor, t: Store)
    requires WellFormed(s) && ChangedBy(env, s, descs, t) && d.imageKey in s.meta && Fits(env, s, d, false)
    requires forall d' :: d' in descs ==> d'.imageKey != d.imageKey
    ensures Answered(env, t, d, false) == (Answered(env, s, d, true).0, Put(env, s, d, t))
  {
    OthersDoNotMatter(env, s, descs, d, t);
    hide WellFormed, ChangedBy, Choose, Rendered, MakeResult, NewVersion;
    if Saves(s, d) { StoredWholeOnly(SavedBytes(env, s, d)); }
  }

  lemma {:induction false} SinglesAreBatch(env: Env, s: Store, descs: seq<Descriptor>)
    requires WellFormed(s) && Distinct(descs) && Known(s, descs) && AllFit(env, s, descs)
    ensures Singles(env, s, descs).1 == AfterBatch(env, s, descs)
    ensures forall i :: 0 <= i < |descs| ==> Singles(env, s, descs).0[i] == Answered(env, s, descs[i], true).0
  {
    hide WellFormed, ChangedBy, Put, Answered, Fits;
    if descs != [] {
      var front, d := descs[..|descs| - 1], descs[|descs| - 1];
      SinglesAreBatch(env, s, front);
      BatchChanges(env, s, front);
      OneAfterOthers(env, s, front, d, AfterBatch(env, s, front));
    }
  }

  /** A batch for different images leaves the stores, and gives every image the
      answer, that the single requests would, in whatever order they are made. */
  lemma BatchRefinesSingles(env: Env, s: Store, descs: seq<Descriptor>, order: seq<Descriptor>)
    requires WellFormed(s) && Distinct(descs) && Distinct(order)
    requires forall d :: d in descs <==> d in order
    requires Known(s, descs) && AllFit(env, s, descs)
    ensures Singles(env, s, order).1 == AfterBatch(env, s, descs)
    ensures forall i :: 0 <= i < |order| ==> Singles(env, s, order).0[i] == Answered(env, s, order[i], true).0
  {
    hide WellFormed, Fits, AfterBatch, Singles, Answered, ChangedBy;
    forall i | 0 <= i < |order|
      ensures order[i].imageKey in s.meta && Fits(env, s, order[i], false)
    {
      assert order[i] in descs;
    }
    SinglesAreBatch(env, s, order);
    BatchChanges(env, s, descs);
    BatchChanges(env, s, order);
    ChangesDetermine(env, s, descs, order, AfterBatch(env, s, descs), AfterBatch(env, s, order));
  }

  // ----- The batch handler -----

  /** What the batch makes of a descriptor: the version to read, the format, and
      whether its bytes are the answer as they are; or how it fails. */
  datatype Resolution =
    | VersionRequest(src: Version, extension: string, isExact: bool)
    | Failure(error: Result)

  function Lookup<V>(m: map<string, V>, key: string): Option<V> {
    if key in m then Some(m[key]) else None
  }

  /** An image that was not found is a null pointer, which the handler reads through. */
  function Resolve(image: Option<Image>, desc: Descriptor): Resolution {
    if image.None? then Failure(Crash)
    else
      match Choose(image.value.versions, desc)
      case Serve(src, extension) => VersionRequest(src, extension, true)
      case RenderFrom(src, extension) => VersionRequest(src, extension, false)
      case NoOriginal => Failure(OriginalMissing)
      case Undefined => Failure(Crash)
  }

  function Resolved(s: Store, desc: Descriptor): Resolution {
    Resolve(Lookup(s.meta, desc.imageKey), desc)
  }

  /** A blob that was not found is a null pointer as well; it is only passed on when
      the bytes are wanted as they are. */
  predicate Readable(s: Store, desc: Descriptor) {
    var r := Resolved(s, desc);
    r.VersionRequest? && (r.src.key in s.blobs || (r.isExact && !desc.base64))
  }

  /** The resolution of a descriptor, by the positions in the list of versions. */
  lemma ResolvedExactly(s: Store, desc: Descriptor, o: int, e: string)
    requires desc.imageKey in s.meta && FirstOriginal(s.meta[desc.imageKey].versions, o)
    requires e == if desc.extension == "" then s.meta[desc.imageKey].versions[o].extension else desc.extension
    ensures var versions, r := s.meta[desc.imageKey].versions, Resolved(s, desc);
            && (desc.original ==> r == VersionRequest(versions[o], e, true))
            && (forall i :: !desc.original && FirstExact(versions, desc, e, i) ==> r == VersionRequest(versions[i], e, true))
            && (!desc.original && HasNoExact(versions, desc, e) ==> r == VersionRequest(versions[o], e, false))
  {
    ChoiceWithOriginal(s.meta[desc.imageKey].versions, desc, o, e);
    hide Choose, FirstOriginal, FirstExact, HasNoExact;
  }

  lemma ResolvedWithoutOriginal(s: Store, desc: Descriptor)
    ensures desc.imageKey !in s.meta ==> Resolved(s, desc) == Failure(Crash)
    ensures desc.imageKey in s.meta && HasNoOriginal(s.meta[desc.imageKey].versions) ==>
              var versions, r := s.meta[desc.imageKey].versions, Resolved(s, desc);
              && (desc.extension == "" ==> r == Failure(Crash))
              && (desc.extension != "" && (desc.original || HasNoExact(versions, desc, desc.extension)) ==> r == Failure(OriginalMissing))
              && (forall i :: desc.extension != "" && !desc.original && FirstExact(versions, desc, desc.extension, i) ==>
                    r == VersionRequest(versions[i], desc.extension, true))
  {
    if desc.imageKey in s.meta && HasNoOriginal(s.meta[desc.imageKey].versions) {
      ChoiceWithoutOriginal(s.meta[desc.imageKey].versions, desc);
    }
    hide Choose, HasNoOriginal, FirstExact, HasNoExact;
  }

  /** When the bytes are at hand, and when the missing pointer is passed on: only for
      a version that is handed out as it is. */
  lemma ReadableExactly(s: Store, desc: Descriptor, o: int, e: string)
    requires desc.imageKey in s.meta && FirstOriginal(s.meta[desc.imageKey].versions, o)
    requires e == if desc.extension == "" then s.meta[desc.imageKey].versions[o].extension else desc.extension
    ensures var versions := s.meta[desc.imageKey].versions;
            && (desc.original ==> (Readable(s, desc) <==> versions[o].key in s.blobs || !desc.base64))
            && (forall i :: !desc.original && FirstExact(versions, desc, e, i) ==>
                  (Readable(s, desc) <==> versions[i].key in s.blobs || !desc.base64))
            && (!desc.original && HasNoExact(versions, desc, e) ==> (Readable(s, desc) <==> versions[o].key in s.blobs))
  {
    ResolvedExactly(s, desc, o, e);
    hide Resolved, FirstOriginal, FirstExact, HasNoExact;
  }

  /** The entry for one image of the output; None is a null pointer. */
  type Entry = Option<Answer>

  datatype BatchResult = Output(answers: map<string, Entry>) | Failed(error: Result)

  /** The batch answers as a single request would, and with nothing where that fails. */
  predicate AnswersAs(env: Env, s: Store, desc: Descriptor, entry: Entry) {
    var single := Answered(env, s, desc, true).0;
    entry == if single.Done? then Some(single.answer) else None
  }

  /** The output of a batch for its first n descriptors. */
  ghost predicate Produced(env: Env, s: Store, descs: seq<Descriptor>, n: nat, output: map<string, Entry>)
    requires n <= |descs|
  {
    && (forall k :: k in output <==> exists j :: 0 <= j < n && descs[j].imageKey == k)
    && (forall j :: 0 <= j < n ==> descs[j].imageKey in output && AnswersAs(env, s, descs[j], output[descs[j].imageKey]))
  }

  /** How a batch fails: at its first unresolvable descriptor, or else at one whose
      blob is missing. */
  ghost predicate FailsWith(s: Store, descs: seq<Descriptor>, error: Result) {
    || (exists i :: FirstFailure(s, descs, i) && Resolved(s, descs[i]) == Failure(error))
    || (error == Crash && (forall i :: 0 <= i < |descs| ==> Resolved(s, descs[i]).VersionRequest?)
        && exists i :: 0 <= i < |descs| && !Readable(s, descs[i]))
  }

  ghost predicate FirstFailure(s: Store, descs: seq<Descriptor>, i: int) {
    && 0 <= i < |descs| && Resolved(s, descs[i]).Failure?
    && forall j :: 0 <= j < i ==> Resolved(s, descs[j]).VersionRequest?
  }

  lemma RequestSucceeds(env: Env, s: Store, desc: Descriptor)
    requires WellFormed(s) && desc.imageKey in s.meta
    ensures Readable(s, desc) && Answered(env, s, desc, true).0.Done?
  {
    var versions := s.meta[desc.imageKey].versions;
    ChooseFromLonger(versions, [], desc);
    assert versions + [] == versions;
  }

  /** With well-formed stores and known images no batch fails. */
  lemma KnownBatchSucceeds(env: Env, s: Store, descs: seq<Descriptor>, error: Result)
    requires WellFormed(s) && Known(s, descs)
    ensures !FailsWith(s, descs, error)
    ensures forall i :: 0 <= i < |descs| ==> Answered(env, s, descs[i], true).0.Done?
  {
    hide WellFormed, Resolved, Answered;
    forall i | 0 <= i < |descs|
      ensures Readable(s, descs[i]) && Answered(env, s, descs[i], true).0.Done?
    {
      RequestSucceeds(env, s, descs[i]);
    }
  }

  method FetchImages(store: ImageStore, descs: seq<Descriptor>) returns (images: map<string, Image>)
    ensures forall j :: 0 <= j < |descs| ==> Lookup(images, descs[j].imageKey) == Lookup(store.meta, descs[j].imageKey)
  {
    var metaKeys := [];
    for i := 0 to |descs|
      invariant |metaKeys| == i && forall j :: 0 <= j < i ==> metaKeys[j] == descs[j].imageKey
    {
      metaKeys := metaKeys + [descs[i].imageKey];
    }
    images := store.FindImages(metaKeys);
    forall j | 0 <= j < |descs|
      ensures Lookup(images, descs[j].imageKey) == Lookup(store.meta, descs[j].imageKey)
    {
      assert metaKeys[j] in metaKeys;
    }
  }

  /** The requests of a batch after n turns of its first loop. */
  ghost predicate ResolvedFirst(s: Store, descs: seq<Descriptor>, n: nat, versionRequests: map<string, Resolution>)
    requires n <= |descs|
  {
    && (forall j :: 0 <= j < n ==>
          && Resolved(s, descs[j]).VersionRequest?
          && descs[j].imageKey in versionRequests && versionRequests[descs[j].imageKey] == Resolved(s, descs[j]))
    && (forall k :: k in versionRequests ==> versionRequests[k].VersionRequest? && exists j :: 0 <= j < n && descs[j].imageKey == k)
  }

  lemma ResolvedMore(s: Store, descs: seq<Descriptor>, n: nat, m: map<string, Resolution>)
    requires n < |descs| && Distinct(descs) && ResolvedFirst(s, descs, n, m) && Resolved(s, descs[n]).VersionRequest?
    ensures descs[n].imageKey !in m
    ensures ResolvedFirst(s, descs, n + 1, m[descs[n].imageKey := Resolved(s, descs[n])])
  {
    hide Resolved;
    var m' := m[descs[n].imageKey := Resolved(s, descs[n])];
    forall k | k in m' ensures exists j :: 0 <= j < n + 1 && descs[j].imageKey == k {
      if k != descs[n].imageKey {
        var j :| 0 <= j < n && descs[j].imageKey == k;
      }
    }
  }

  method ResolveAll(store: ImageStore, descs: seq<Descriptor>, images: map<string, Image>)
    returns (error: Option<Result>, versionRequests: map<string, Resolution>, rawDataKeys: seq<string>)
    requires Distinct(descs)
    requires forall j :: 0 <= j < |descs| ==> Lookup(images, descs[j].imageKey) == Lookup(store.meta, descs[j].imageKey)
    ensures if error.Some? then exists i :: FirstFailure(store.Contents(), descs, i) && Resolved(store.Contents(), descs[i]) == Failure(error.value)
            else ResolvedFirst(store.Contents(), descs, |descs|, versionRequests)
    ensures forall k :: k in versionRequests ==> versionRequests[k].VersionRequest? && versionRequests[k].src.key in rawDataKeys
  {
    hide Resolve, Lookup;
    ghost var s := store.Contents();
    error, versionRequests, rawDataKeys := None, map[], [];
    for i := 0 to |descs|
      invariant error.None? && ResolvedFirst(s, descs, i, versionRequests)
      invariant forall k :: k in versionRequests ==> versionRequests[k].VersionRequest? && versionRequests[k].src.key in rawDataKeys
    {
      var desc := descs[i];
      var request := Resolve(Lookup(images, desc.imageKey), desc);
      assert request == Resolved(s, desc);
      if request.Failure? {
        error := Some(request.error);
        assert FirstFailure(s, descs, i);
        return;
      }
      ResolvedMore(s, descs, i, versionRequests);
      if desc.imageKey !in versionRequests {
        versionRequests := versionRequests[desc.imageKey := request];
      }
      rawDataKeys := rawDataKeys + [versionRequests[desc.imageKey].src.key];
    }
  }

  /** What the answer and the saved version of a resolved request are. */
  lemma AnswerOfRequest(env: Env, s: Store, desc: Descriptor, r: Resolution)
    requires Resolved(s, desc) == r && r.VersionRequest?
    ensures desc.imageKey in s.meta
    ensures r.src.key !in s.blobs ==> !Answered(env, s, desc, true).0.Done? && !Saves(s, desc)
    ensures r.src.key in s.blobs ==>
              && Answered(env, s, desc, true).0 == Done(MakeResult(env, desc,
                   if r.isExact then s.blobs[r.src.key] else Rendered(env, r.src, s.blobs[r.src.key], desc, r.extension), r.extension))
              && (Saves(s, desc) <==> desc.save && !r.isExact)
    ensures Saves(s, desc) ==>
              var data := Rendered(env, r.src, s.blobs[r.src.key], desc, r.extension);
              && SavedBytes(env, s, desc) == data
              && SavedVersion(env, s, desc) ==
                   Keyed(env, s.meta[desc.imageKey].key, Template(env, r.src, desc, r.extension, |data|))
  {
    hide Choose, Rendered, MakeResult, Keyed, Template;
  }

  lemma ProducedMore(env: Env, s: Store, descs: seq<Descriptor>, n: nat, output: map<string, Entry>, entry: Entry)
    requires n < |descs| && Distinct(descs) && Produced(env, s, descs, n, output)
    requires AnswersAs(env, s, descs[n], entry)
    ensures Produced(env, s, descs, n + 1, output[descs[n].imageKey := entry])
  {
    hide AnswersAs;
    var output' := output[descs[n].imageKey := entry];
    forall k | k in output' ensures exists j :: 0 <= j < n + 1 && descs[j].imageKey == k {
      if k != descs[n].imageKey {
        var j :| 0 <= j < n && descs[j].imageKey == k;
      }
    }
  }

  lemma AfterOneMore(env: Env, s: Store, descs: seq<Descriptor>, n: nat)
    requires n < |descs|
    ensures AfterBatch(env, s, descs[..n + 1]) == Put(env, s, descs[n], AfterBatch(env, s, descs[..n]))
    ensures AfterBatch(env, s, descs[..0]) == s
  {
    hide Put;
    assert descs[..n + 1][..n] == descs[..n];
  }

  /** The collected updates, on top of s, are what the first n requests save. */
  ghost predicate Collected(env: Env, s: Store, descs: seq<Descriptor>, n: nat, meta: map<string, Image>, data: map<string, Blob>)
    requires n <= |descs|
  {
    Store(s.meta + meta, s.blobs + data) == AfterBatch(env, s, descs[..n])
  }

  lemma CollectedMore(env: Env, s: Store, descs: seq<Descriptor>, n: nat, meta: map<string, Image>, data: map<string, Blob>)
    requires n < |descs| && Collected(env, s, descs, n, meta, data)
    ensures !Saves(s, descs[n]) ==> Collected(env, s, descs, n + 1, meta, data)
    ensures Saves(s, descs[n]) ==>
              var image, v := s.meta[descs[n].imageKey], SavedVersion(env, s, descs[n]);
              Collected(env, s, descs, n + 1, meta[image.key := AddVersion(image, v)], data[v.key := SavedBytes(env, s, descs[n])])
  {
    hide SavedVersion, SavedBytes, AddVersion, AfterBatch;
    AfterOneMore(env, s, descs, n);
    if Saves(s, descs[n]) {
      var image, v := s.meta[descs[n].imageKey], SavedVersion(env, s, descs[n]);
      PutOnTop(s.meta, meta, image.key, AddVersion(image, v));
      PutOnTop(s.blobs, data, v.key, SavedBytes(env, s, descs[n]));
    }
  }

  lemma PutOnTop<V>(m: map<string, V>, more: map<string, V>, key: string, value: V)
    ensures m + more[key := value] == (m + more)[key := value]
  {
  }

  /** One turn of the batch's second loop: the answer, and what is to be saved;
      `ok` is false when it reads through a null pointer. */
  method HandleOne(env: Env, ghost s: Store, desc: Descriptor, image: Image, request: Resolution, origData: Option<Blob>)
    returns (ok: bool, answer: Entry, saved: Option<(Version, Blob)>)
    requires desc.imageKey in s.meta && image == s.meta[desc.imageKey]
    requires request.VersionRequest? && request == Resolved(s, desc) && origData == Lookup(s.blobs, request.src.key)
    ensures ok <==> Readable(s, desc)
    ensures ok ==> AnswersAs(env, s, desc, answer) && (saved.Some? <==> Saves(s, desc))
    ensures ok && saved.Some? ==> saved.value == (SavedVersion(env, s, desc), SavedBytes(env, s, desc))
  {
    AnswerOfRequest(env, s, desc, request);
    hide Resolved, Answered, Saves, SavedVersion, SavedBytes, Rendered, MakeResult, Template, Keyed;
    if origData.None? {
      return request.isExact && !desc.base64, None, None;
    }
    if request.isExact {
      return true, Some(MakeResult(env, desc, origData.value, request.extension)), None;
    }
    var newData := Rendered(env, request.src, origData.value, desc, request.extension);
    saved := None;
    if desc.save {
      var version := Keyed(env, image.key, Template(env, request.src, desc, request.extension, |newData|));
      saved := Some((version, newData));
    }
    ok, answer := true, Some(MakeResult(env, desc, newData, request.extension));
  }

  /** The batch handler: read all metadata, resolve, read all blobs, answer and
      collect what is to be saved, write all blobs, write all metadata.  Nothing is
      written if it fails. */
  method GetImagesData(env: Env, store: ImageStore, descs: seq<Descriptor>) returns (result: BatchResult)
    requires Distinct(descs)
    modifies store
    ensures result.Output? ==>
              && (forall i :: 0 <= i < |descs| ==> Readable(old(store.Contents()), descs[i]))
              && Produced(env, old(store.Contents()), descs, |descs|, result.answers)
              && store.Contents() == AfterBatch(env, old(store.Contents()), descs)
    ensures result.Failed? ==>
              FailsWith(old(store.Contents()), descs, result.error) && store.Contents() == old(store.Contents())
  {
    hide Resolve, Resolved, Readable, Saves, SavedVersion, SavedBytes, AfterBatch, Produced, Collected, AnswersAs;
    ghost var s := store.Contents();
    var images := FetchImages(store, descs);
    var error, versionRequests, rawDataKeys := ResolveAll(store, descs, images);
    if error.Some? { return Failed(error.value); }
    var rawDataMap := store.FindEntries(rawDataKeys);
    var output: map<string, Entry> := map[];
    var updatedImagesMeta: map<string, Image>, updatedImagesData: map<string, Blob> := map[], map[];
    BatchBegins(env, s, descs);
    for i := 0 to |descs|
      invariant store.Contents() == s && forall j :: 0 <= j < i ==> Readable(s, descs[j])
      invariant Produced(env, s, descs, i, output)
      invariant Collected(env, s, descs, i, updatedImagesMeta, updatedImagesData)
    {
      var desc := descs[i];
      var request := versionRequests[desc.imageKey];
      ResolvedIsFound(s, desc);
      var image := images[desc.imageKey];
      var ok, answer, saved := HandleOne(env, s, desc, image, request, Lookup(rawDataMap, request.src.key));
      if !ok { return Failed(Crash); }
      CollectedMore(env, s, descs, i, updatedImagesMeta, updatedImagesData);
      if saved.Some? {
        var (version, bytes) := saved.value;
        image := AddVersion(image, version);
        updatedImagesData := updatedImagesData[version.key := bytes];
        updatedImagesMeta := updatedImagesMeta[image.key := image];
      }
      ProducedMore(env, s, descs, i, output, answer);
      output := output[desc.imageKey := answer];
    }
    store.blobs := store.blobs + updatedImagesData;
    store.meta := store.meta + updatedImagesMeta;
    BatchEnds(env, s, descs, updatedImagesMeta, updatedImagesData);
    result := Output(output);
  }

  lemma ResolvedIsFound(s: Store, desc: Descriptor)
    requires Resolved(s, desc).VersionRequest?
    ensures desc.imageKey in s.meta
  {
  }

  lemma BatchBegins(env: Env, s: Store, descs: seq<Descriptor>)
    ensures Produced(env, s, descs, 0, map[]) && Collected(env, s, descs, 0, map[], map[])
  {
    assert s.meta + map[] == s.meta && s.blobs + map[] == s.blobs && descs[..0] == [];
  }

  lemma BatchEnds(env: Env, s: Store, descs: seq<Descriptor>, meta: map<string, Image>, data: map<string, Blob>)
    requires Collected(env, s, descs, |descs|, meta, data)
    ensures Store(s.meta + meta, s.blobs + data) == AfterBatch(env, s, descs)
  {
    assert descs[..|descs|] == descs;
  }
}
