/** Stored images, version selection and the sequential meaning of a request
    (src/model/Image.cpp, src/repos/ImageStore.cpp,
    src/image_controller/ImageController.cpp). */
module ImageCache {
  import opened Basics
  import opened VersionKeys
  import Base64

  type Blob = b: seq<Base64.byte> | |b| < TWO64

  datatype Version = Version(
    key: string, width: nat, height: nat, original: bool,
    mimeType: string, fileName: string, extension: string, sizeBytes: nat, md5: string)

  datatype Image = Image(key: string, versions: seq<Version>, created: nat, updated: nat)

  /** The two key-value stores: metadata (an image's JSON) and blobs. */
  datatype Store = Store(meta: map<string, Image>, blobs: map<string, Blob>)

  datatype Descriptor = Descriptor(
    imageKey: string, width: nat, height: nat, extension: string, save: bool, original: bool, base64: bool)

  /** What the cache does not compute itself: the renderer (size and bytes of the
      original, box, format), the MIME type of a format and a version's file name. */
  datatype Env = Env(
    render: (nat, nat, Blob, nat, nat, string) -> Blob,
    mime: string -> string,
    rename: (string, string) -> string)

  // ----- Choosing a version -----

  function FindOriginal(versions: seq<Version>): (r: Option<Version>)
    ensures r.Some? ==> r.value in versions && r.value.original
  {
    if versions == [] then None
    else if versions[0].original then Some(versions[0])
    else FindOriginal(versions[1..])
  }

  predicate Matches(v: Version, width: nat, height: nat, extension: string) {
    v.width == width && v.height == height && v.extension == extension
  }

  function FindExact(versions: seq<Version>, width: nat, height: nat, extension: string): (r: Option<Version>)
    ensures r.Some? ==> r.value in versions && Matches(r.value, width, height, extension)
  {
    if versions == [] then None
    else if Matches(versions[0], width, height, extension) then Some(versions[0])
    else FindExact(versions[1..], width, height, extension)
  }

  /** How a request is going to be answered.  `Undefined` is the read through the
      end iterator when there is neither a format nor an original. */
  datatype Choice =
    | Serve(src: Version, extension: string)
    | RenderFrom(src: Version, extension: string)
    | NoOriginal
    | Undefined

  function Choose(versions: seq<Version>, desc: Descriptor): Choice {
    var original := FindOriginal(versions);
    if desc.extension == "" && original.None? then Undefined
    else
      var extension := if desc.extension == "" then original.value.extension else desc.extension;
      var exact := FindExact(versions, desc.width, desc.height, extension);
      if !desc.original && exact.Some? then Serve(exact.value, extension)
      else if original.None? then NoOriginal
      else if desc.original then Serve(original.value, extension)
      else RenderFrom(original.value, extension)
  }

  // ----- Answers -----

  datatype Answer = Raw(bytes: Blob) | DataUri(uri: string)

  function Chars(text: seq<Base64.byte>): (s: string)
    ensures |s| == |text|
  {
    seq(|text|, i requires 0 <= i < |text| => text[i] as char)
  }

  function MakeResult(env: Env, desc: Descriptor, bytes: Blob, extension: string): Answer {
    if desc.base64 then DataUri("data:" + env.mime(extension) + ";base64, " + Chars(Base64.Encoded(bytes))) else Raw(bytes)
  }

  datatype Result = Done(answer: Answer) | NoSuchImage | NoSuchBlob | OriginalMissing | Crash

  // ----- Saving a version -----

  /** The fields of a new version that the request fills in. */
  function Template(env: Env, src: Version, desc: Descriptor, extension: string, size: nat): Version {
    Version("", desc.width, desc.height, false, env.mime(extension), src.fileName, extension, size % TWO32, "")
  }

  /** The storage key and the file name, derived when the version is added. */
  function Keyed(env: Env, imageKey: string, v: Version): Version {
    v.(key := VersionKey(imageKey, v.width, v.height, v.extension),
       fileName := if v.extension == "" then v.fileName else env.rename(v.fileName, v.extension))
  }

  function NewVersion(env: Env, imageKey: string, src: Version, desc: Descriptor, extension: string, size: nat): Version {
    Keyed(env, imageKey, Template(env, src, desc, extension, size))
  }

  function AddVersion(image: Image, v: Version): Image {
    image.(versions := image.versions + [v])
  }

  /** A single request writes the first `sizeBytes` bytes; a batch writes them all. */
  function StoredBytes(inBatch: bool, data: Blob): Blob {
    if inBatch then data else data[..|data| % TWO32]
  }

  function Rendered(env: Env, src: Version, data: Blob, desc: Descriptor, extension: string): Blob {
    env.render(src.width, src.height, data, desc.width, desc.height, extension)
  }

  function Save(env: Env, s: Store, image: Image, src: Version, desc: Descriptor, extension: string, data: Blob, inBatch: bool): Store {
    var v := NewVersion(env, image.key, src, desc, extension, |data|);
    Store(s.meta[image.key := AddVersion(image, v)], s.blobs[v.key := StoredBytes(inBatch, data)])
  }

  // ----- One request, alone -----

  /** The answer to a request that nobody interferes with, and the stores afterwards. */
  function Answered(env: Env, s: Store, desc: Descriptor, inBatch: bool): (Result, Store) {
    if desc.imageKey !in s.meta then (NoSuchImage, s)
    else
      var image := s.meta[desc.imageKey];
      match Choose(image.versions, desc)
      case Undefined => (Crash, s)
      case NoOriginal => (OriginalMissing, s)
      case Serve(src, extension) =>
        if src.key !in s.blobs then (NoSuchBlob, s)
        else (Done(MakeResult(env, desc, s.blobs[src.key], extension)), s)
      case RenderFrom(src, extension) =>
        if src.key !in s.blobs then (NoSuchBlob, s)
        else
          var data := Rendered(env, src, s.blobs[src.key], desc, extension);
          (Done(MakeResult(env, desc, data, extension)),
           if desc.save then Save(env, s, image, src, desc, extension, data, inBatch) else s)
  }

  /** What the request would be answered if no request ever saved anything. */
  function Baseline(env: Env, s: Store, desc: Descriptor): Result {
    Answered(env, s, desc.(save := false), false).0
  }

  // ----- Well-formed stores -----

  /** A listed version can be found under the key derived from its properties. */
  ghost predicate Listed(image: Image, blobs: map<string, Blob>) {
    forall v :: v in image.versions ==>
      v.key == VersionKey(image.key, v.width, v.height, v.extension) && v.key in blobs
  }

  ghost predicate WellFormed(s: Store) {
    && (forall k :: k in s.meta ==>
          && s.meta[k].key == k
          && FindOriginal(s.meta[k].versions).Some?
          && Listed(s.meta[k], s.blobs))
    && (forall k, l :: k in s.meta && l in s.meta ==> Separate(k, l))
  }

  // ----- What a key stands for -----

  /** The bytes that belong to a size and a format of an image: those of the first
      stored version of that kind, or else a rendering of the original. */
  function Ideal(env: Env, s: Store, k: string, width: nat, height: nat, extension: string): Blob
    requires WellFormed(s) && k in s.meta
  {
    var versions := s.meta[k].versions;
    var exact := FindExact(versions, width, height, extension);
    if exact.Some? then s.blobs[exact.value.key]
    else
      var original := FindOriginal(versions).value;
      env.render(original.width, original.height, s.blobs[original.key], width, height, extension)
  }

  /** `image` is what `k` was in s, plus any number of saved versions; every
      version it lists is stored, with the bytes that belong to it. */
  ghost predicate Faithful(env: Env, s: Store, k: string, image: Image, blobs: map<string, Blob>)
    requires WellFormed(s) && k in s.meta
  {
    && image.key == k
    && s.meta[k].versions <= image.versions
    && (forall j :: |s.meta[k].versions| <= j < |image.versions| ==> !image.versions[j].original)
    && forall v :: v in image.versions ==>
         && v.key == VersionKey(k, v.width, v.height, v.extension)
         && v.key in blobs && blobs[v.key] == Ideal(env, s, k, v.width, v.height, v.extension)
  }

  lemma {:induction false} OriginalOfPrefix(versions: seq<Version>, more: seq<Version>)
    requires FindOriginal(versions).Some?
    ensures FindOriginal(versions + more) == FindOriginal(versions)
  {
    if !versions[0].original {
      assert (versions + more)[1..] == versions[1..] + more;
      OriginalOfPrefix(versions[1..], more);
    }
  }

  lemma {:induction false} ExactOfPrefix(versions: seq<Version>, more: seq<Version>, w: nat, h: nat, e: string)
    ensures FindExact(versions + more, w, h, e) ==
            if FindExact(versions, w, h, e).Some? then FindExact(versions, w, h, e) else FindExact(more, w, h, e)
  {
    if versions == [] {
      assert versions + more == more;
    } else {
      assert (versions + more)[1..] == versions[1..] + more;
      ExactOfPrefix(versions[1..], more, w, h, e);
    }
  }

  lemma {:induction false} ExactOfMember(versions: seq<Version>, v: Version)
    requires v in versions
    ensures FindExact(versions, v.width, v.height, v.extension).Some?
  {
    if v != versions[0] {
      ExactOfMember(versions[1..], v);
    }
  }

  /** A well-formed image is faithful to itself. */
  lemma StartsFaithful(env: Env, s: Store, k: string)
    requires WellFormed(s) && k in s.meta
    ensures Faithful(env, s, k, s.meta[k], s.blobs)
  {
    var versions := s.meta[k].versions;
    forall v | v in versions
      ensures s.blobs[v.key] == Ideal(env, s, k, v.width, v.height, v.extension)
    {
      ExactOfMember(versions, v);
    }
  }

  /** Writing the bytes that belong to any key of any image harms no faithful image. */
  lemma WriteKeepsFaithful(env: Env, s: Store, k: string, image: Image, blobs: map<string, Blob>,
                           l: string, w: nat, h: nat, e: string)
    requires WellFormed(s) && k in s.meta && l in s.meta
    requires Faithful(env, s, k, image, blobs)
    ensures Faithful(env, s, k, image, blobs[VersionKey(l, w, h, e) := Ideal(env, s, l, w, h, e)])
  {
    forall v | v in image.versions && v.key == VersionKey(l, w, h, e)
      ensures Ideal(env, s, k, v.width, v.height, v.extension) == Ideal(env, s, l, w, h, e)
    {
      KeysInjective(k, v.width, v.height, v.extension, l, w, h, e);
    }
  }

  /** Later versions change neither the original nor the first exact match. */
  lemma ChooseFromLonger(versions: seq<Version>, more: seq<Version>, desc: Descriptor)
    requires FindOriginal(versions).Some?
    ensures var c, c' := Choose(versions, desc), Choose(versions + more, desc);
            && (c.Serve? || c.RenderFrom?) && c.src in versions
            && (c.Serve? ==> c' == c)
            && (c.RenderFrom? ==>
                  && FindOriginal(versions) == Some(c.src)
                  && FindExact(versions, desc.width, desc.height, c.extension).None?
                  && var exact := FindExact(more, desc.width, desc.height, c.extension);
                     c' == if exact.Some? then Serve(exact.value, c.extension) else c)
  {
    OriginalOfPrefix(versions, more);
    var extension := if desc.extension == "" then FindOriginal(versions).value.extension else desc.extension;
    ExactOfPrefix(versions, more, desc.width, desc.height, extension);
  }

  /** The choice can be carried out, and leads to the answer without saving. */
  ghost predicate LeadsToBaseline(env: Env, s: Store, blobs: map<string, Blob>, desc: Descriptor, c: Choice)
    requires WellFormed(s) && desc.imageKey in s.meta
  {
    && (c.Serve? || c.RenderFrom?)
    && c.src.key in blobs
    && (c.Serve? ==> Baseline(env, s, desc) == Done(MakeResult(env, desc, blobs[c.src.key], c.extension)))
    && (c.RenderFrom? ==>
          && c == Choose(s.meta[desc.imageKey].versions, desc)
          && c.src.key in s.blobs && blobs[c.src.key] == s.blobs[c.src.key]
          && var data := Rendered(env, c.src, blobs[c.src.key], desc, c.extension);
             && data == Ideal(env, s, desc.imageKey, desc.width, desc.height, c.extension)
             && Baseline(env, s, desc) == Done(MakeResult(env, desc, data, c.extension)))
  }

  lemma HasOriginal(s: Store, k: string)
    requires WellFormed(s) && k in s.meta
    ensures s.meta[k].key == k && FindOriginal(s.meta[k].versions).Some?
  {
  }

  /** The answer without saving, by the choice made. */
  lemma BaselineByChoice(env: Env, s: Store, desc: Descriptor)
    requires WellFormed(s) && desc.imageKey in s.meta
    ensures var versions := s.meta[desc.imageKey].versions;
            var c := Choose(versions, desc);
            && (c.Serve? || c.RenderFrom?) && c.src in versions && c.src.key in s.blobs
            && Baseline(env, s, desc) == Done(MakeResult(env, desc,
                 if c.Serve? then s.blobs[c.src.key] else Rendered(env, c.src, s.blobs[c.src.key], desc, c.extension), c.extension))
  {
    var versions := s.meta[desc.imageKey].versions;
    ChooseFromLonger(versions, [], desc);
    assert versions + [] == versions;
    assert Choose(versions, desc.(save := false)) == Choose(versions, desc);
    hide Choose, FindOriginal, FindExact;
  }

  lemma FaithfulChoice(env: Env, s: Store, image: Image, blobs: map<string, Blob>, desc: Descriptor)
    requires WellFormed(s) && desc.imageKey in s.meta
    requires Faithful(env, s, desc.imageKey, image, blobs)
    ensures LeadsToBaseline(env, s, blobs, desc, Choose(image.versions, desc))
  {
    hide Choose, FindOriginal, FindExact, Baseline, MakeResult, WellFormed;
    var k, versions := desc.imageKey, s.meta[desc.imageKey].versions;
    var more := image.versions[|versions|..];
    assert image.versions == versions + more;
    BaselineByChoice(env, s, desc);
    assert FindOriginal(versions).Some? by { HasOriginal(s, k); }
    ChooseFromLonger(versions, more, desc);
    var c, c' := Choose(versions, desc), Choose(image.versions, desc);
    SameBlob(env, s, k, image, blobs, c.src);
    if c.RenderFrom? && c'.Serve? {
      assert c'.src in more;
      assert c'.src in image.versions;
    }
  }

  /** The versions an image began with keep their bytes. */
  lemma SameBlob(env: Env, s: Store, k: string, image: Image, blobs: map<string, Blob>, v: Version)
    requires WellFormed(s) && k in s.meta && Faithful(env, s, k, image, blobs)
    requires v in s.meta[k].versions
    ensures v in image.versions && v.key in blobs && blobs[v.key] == s.blobs[v.key]
  {
    StartsFaithful(env, s, k);
    var j :| 0 <= j < |s.meta[k].versions| && s.meta[k].versions[j] == v;
    assert image.versions[j] == v;
  }

  /** A version that is recorded once its bytes are in place leaves the image faithful. */
  lemma RecordKeepsFaithful(env: Env, s: Store, k: string, image: Image, blobs: map<string, Blob>, v: Version)
    requires WellFormed(s) && k in s.meta && Faithful(env, s, k, image, blobs)
    requires !v.original && v.key == VersionKey(k, v.width, v.height, v.extension)
    requires v.key in blobs && blobs[v.key] == Ideal(env, s, k, v.width, v.height, v.extension)
    ensures Faithful(env, s, k, AddVersion(image, v), blobs)
  {
  }

  /** The saving request's rendering fits the size it is recorded with. */
  ghost predicate Fits(env: Env, s: Store, desc: Descriptor, inBatch: bool) {
    desc.save && !inBatch && desc.imageKey in s.meta ==>
      var c := Choose(s.meta[desc.imageKey].versions, desc);
      c.RenderFrom? && c.src.key in s.blobs ==> |Rendered(env, c.src, s.blobs[c.src.key], desc, c.extension)| < TWO32
  }

  /** Why `Fits` is needed: a single request that saves a new version is followed
      by the same answer exactly when the rendering has fewer than 2^32 bytes;
      beyond that only the first `sizeBytes` bytes were stored. */
  lemma SavedAnswerExact(env: Env, s: Store, desc: Descriptor)
    requires WellFormed(s) && desc.imageKey in s.meta && desc.save
    requires Choose(s.meta[desc.imageKey].versions, desc).RenderFrom?
    ensures var c := Choose(s.meta[desc.imageKey].versions, desc);
            var (first, s') := Answered(env, s, desc, false);
            c.src.key in s.blobs &&
            (Answered(env, s', desc, false).0 == first <==>
             |Rendered(env, c.src, s.blobs[c.src.key], desc, c.extension)| < TWO32)
  {
    hide Choose, FindOriginal, Rendered, VersionKey, WellFormed, Baseline;
    var image := s.meta[desc.imageKey];
    var c := Choose(image.versions, desc);
    HasOriginal(s, desc.imageKey);
    BaselineByChoice(env, s, desc);
    var data := Rendered(env, c.src, s.blobs[c.src.key], desc, c.extension);
    var v := NewVersion(env, image.key, c.src, desc, c.extension, |data|);
    ChooseFromLonger(image.versions, [v], desc);
    assert FindExact([v], desc.width, desc.height, c.extension) == Some(v);
    assert Choose(AddVersion(image, v).versions, desc) == Serve(v, c.extension);
    AnswerTellsWhole(env, desc, data, c.extension);
    hide MakeResult, StoredBytes;
  }

  lemma AnswerTellsWhole(env: Env, desc: Descriptor, data: Blob, extension: string)
    ensures MakeResult(env, desc, StoredBytes(false, data), extension) == MakeResult(env, desc, data, extension) <==> |data| < TWO32
  {
    StoredWholeOnly(data);
    if |data| >= TWO32 {
      var short := StoredBytes(false, data);
      Base64.EncodedInjective(short, data);
      SameTail("data:" + env.mime(extension) + ";base64, ", Base64.Encoded(short), Base64.Encoded(data));
      hide StoredBytes;
    }
  }

  lemma SameTail(head: string, x: seq<Base64.byte>, y: seq<Base64.byte>)
    ensures head + Chars(x) == head + Chars(y) ==> x == y
  {
    if head + Chars(x) == head + Chars(y) { SameChars(head, x, y); }
  }

  lemma SameChars(head: string, x: seq<Base64.byte>, y: seq<Base64.byte>)
    requires head + Chars(x) == head + Chars(y)
    ensures x == y
  {
    var s, t := Chars(x), Chars(y);
    assert s == (head + s)[|head|..] && t == (head + t)[|head|..];
    forall i | 0 <= i < |x| ensures x[i] == y[i] {
      assert s[i] == x[i] as char && t[i] == y[i] as char;
    }
  }

  lemma StoredWholeOnly(data: Blob)
    ensures StoredBytes(false, data) == data <==> |data| < TWO32
  {
    assert |data| >= TWO32 ==> |data| % TWO32 != |data|;
  }
}
