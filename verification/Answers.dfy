/** What a request is answered, and what it leaves in the stores, said of the list
    of versions itself: by position, without the functions that search it. */
module Answers {
  import opened Basics
  import opened VersionKeys
  import opened ImageCache
  import Base64

  ghost predicate FirstOriginal(versions: seq<Version>, o: int) {
    0 <= o < |versions| && versions[o].original && forall j :: 0 <= j < o ==> !versions[j].original
  }

  ghost predicate HasNoOriginal(versions: seq<Version>) {
    forall j :: 0 <= j < |versions| ==> !versions[j].original
  }

  /** The first version with that size and format. */
  ghost predicate FirstExact(versions: seq<Version>, desc: Descriptor, e: string, i: int) {
    && 0 <= i < |versions|
    && versions[i].width == desc.width && versions[i].height == desc.height && versions[i].extension == e
    && forall j :: 0 <= j < i ==>
         !(versions[j].width == desc.width && versions[j].height == desc.height && versions[j].extension == e)
  }

  ghost predicate HasNoExact(versions: seq<Version>, desc: Descriptor, e: string) {
    forall j :: 0 <= j < |versions| ==>
      !(versions[j].width == desc.width && versions[j].height == desc.height && versions[j].extension == e)
  }

  /** The form of an answer: the bytes themselves, or a data URI of the format's MIME
      type whose text decodes to them. */
  ghost predicate Delivers(env: Env, desc: Descriptor, e: string, bytes: Blob, answer: Answer) {
    if !desc.base64 then answer == Raw(bytes)
    else exists text :: answer == DataUri("data:" + env.mime(e) + ";base64, " + Chars(text)) && Carries(text, bytes)
  }

  /** Base64 of the bytes, which is empty when they are too many. */
  ghost predicate Carries(text: seq<Base64.byte>, bytes: Blob) {
    if |bytes| < Base64.TWO62 then Base64.Decoded(text) == bytes + Base64.Zeros(Base64.PadCount(|bytes|)) else text == []
  }

  lemma FormOfAnswer(env: Env, desc: Descriptor, bytes: Blob, e: string)
    ensures Delivers(env, desc, e, bytes, MakeResult(env, desc, bytes, e))
    ensures MakeResult(env, desc, bytes, e).Raw? <==> !desc.base64
  {
    var text := Base64.Encoded(bytes);
    if |bytes| < Base64.TWO62 { Base64.RoundTrip(bytes, text); }
    assert Carries(text, bytes) by { hide Base64.Decoded; }
    hide Carries;
  }

  /** A stored version is delivered, or its blob is missing. */
  ghost predicate ServedFrom(env: Env, s: Store, desc: Descriptor, e: string, key: string, result: Result) {
    if key in s.blobs then result.Done? && Delivers(env, desc, e, s.blobs[key], result.answer) else result == NoSuchBlob
  }

  /** The stores after a rendering of `original` was saved. */
  ghost predicate Saved(env: Env, s: Store, desc: Descriptor, e: string, original: Version, data: Blob, inBatch: bool, s': Store)
    requires desc.imageKey in s.meta
  {
    var image := s.meta[desc.imageKey];
    exists v: Version ::
      && v.key == VersionKey(image.key, desc.width, desc.height, e)
      && v.width == desc.width && v.height == desc.height && v.extension == e && !v.original
      && v.mimeType == env.mime(e) && v.fileName == (if e == "" then original.fileName else env.rename(original.fileName, e))
      && v.sizeBytes == |data| % TWO32 && v.md5 == ""
      && s'.meta == s.meta[image.key := image.(versions := image.versions + [v])]
      && s'.blobs == s.blobs[v.key := if inBatch then data else data[..v.sizeBytes]]
  }

  // ----- The searches -----

  lemma {:induction false} OriginalIsFirst(versions: seq<Version>, o: int)
    ensures FirstOriginal(versions, o) ==> FindOriginal(versions) == Some(versions[o])
    ensures FindOriginal(versions).None? <==> HasNoOriginal(versions)
  {
    if versions != [] && !versions[0].original {
      OriginalIsFirst(versions[1..], o - 1);
      assert HasNoOriginal(versions[1..]) ==> HasNoOriginal(versions);
    }
  }

  lemma {:induction false} ExactIsFirst(versions: seq<Version>, desc: Descriptor, e: string, i: int)
    ensures FirstExact(versions, desc, e, i) ==> FindExact(versions, desc.width, desc.height, e) == Some(versions[i])
    ensures FindExact(versions, desc.width, desc.height, e).None? <==> HasNoExact(versions, desc, e)
  {
    if versions != [] && !Matches(versions[0], desc.width, desc.height, e) {
      ExactIsFirst(versions[1..], desc, e, i - 1);
      assert HasNoExact(versions[1..], desc, e) ==> HasNoExact(versions, desc, e);
    }
  }

  lemma {:induction false} SomeExact(versions: seq<Version>, desc: Descriptor, e: string) returns (i: nat)
    requires !HasNoExact(versions, desc, e)
    ensures FirstExact(versions, desc, e, i)
  {
    if Matches(versions[0], desc.width, desc.height, e) {
      i := 0;
    } else {
      assert !HasNoExact(versions[1..], desc, e) by {
        var k :| 0 <= k < |versions| && Matches(versions[k], desc.width, desc.height, e);
        assert versions[1..][k - 1] == versions[k];
      }
      i := SomeExact(versions[1..], desc, e);
      assert forall k :: 0 < k <= i + 1 ==> versions[k] == versions[1..][k - 1];
      i := i + 1;
    }
  }

  lemma {:induction false} SomeOriginal(versions: seq<Version>) returns (o: nat)
    requires !HasNoOriginal(versions)
    ensures FirstOriginal(versions, o)
  {
    if versions[0].original {
      o := 0;
    } else {
      assert !HasNoOriginal(versions[1..]) by {
        var k :| 0 <= k < |versions| && versions[k].original;
        assert versions[1..][k - 1] == versions[k];
      }
      o := SomeOriginal(versions[1..]);
      assert forall k :: 0 < k <= o + 1 ==> versions[k] == versions[1..][k - 1];
      o := o + 1;
    }
  }

  lemma ChoiceWithOriginal(versions: seq<Version>, desc: Descriptor, o: int, e: string)
    requires FirstOriginal(versions, o) && e == if desc.extension == "" then versions[o].extension else desc.extension
    ensures desc.original ==> Choose(versions, desc) == Serve(versions[o], e)
    ensures forall i :: !desc.original && FirstExact(versions, desc, e, i) ==> Choose(versions, desc) == Serve(versions[i], e)
    ensures !desc.original && HasNoExact(versions, desc, e) ==> Choose(versions, desc) == RenderFrom(versions[o], e)
  {
    OriginalIsFirst(versions, o);
    forall i | FirstExact(versions, desc, e, i)
      ensures FindExact(versions, desc.width, desc.height, e) == Some(versions[i])
    {
      ExactIsFirst(versions, desc, e, i);
    }
    ExactIsFirst(versions, desc, e, 0);
    hide FindOriginal, FindExact;
  }

  lemma ChoiceWithoutOriginal(versions: seq<Version>, desc: Descriptor)
    requires HasNoOriginal(versions)
    ensures desc.extension == "" ==> Choose(versions, desc) == Undefined
    ensures desc.extension != "" && (desc.original || HasNoExact(versions, desc, desc.extension)) ==> Choose(versions, desc) == NoOriginal
    ensures forall i :: desc.extension != "" && !desc.original && FirstExact(versions, desc, desc.extension, i) ==>
              Choose(versions, desc) == Serve(versions[i], desc.extension)
  {
    var e := desc.extension;
    OriginalIsFirst(versions, 0);
    forall i | FirstExact(versions, desc, e, i)
      ensures FindExact(versions, desc.width, desc.height, e) == Some(versions[i])
    {
      ExactIsFirst(versions, desc, e, i);
    }
    ExactIsFirst(versions, desc, e, 0);
    hide FindOriginal, FindExact;
  }

  // ----- The answer -----

  /** An image with an original: a request for the original gets it, in its own
      format unless it names another one; any other request gets the first stored
      version of the wanted size and format or, if there is none, a rendering of the
      original, which is saved if the request says so.  Nothing else is written. */
  lemma AnswerWithOriginal(env: Env, s: Store, desc: Descriptor, inBatch: bool, o: int, e: string)
    requires desc.imageKey in s.meta && FirstOriginal(s.meta[desc.imageKey].versions, o)
    requires e == if desc.extension == "" then s.meta[desc.imageKey].versions[o].extension else desc.extension
    ensures var versions, (result, s') := s.meta[desc.imageKey].versions, Answered(env, s, desc, inBatch);
            && (desc.original ==> ServedFrom(env, s, desc, e, versions[o].key, result) && s' == s)
            && (!desc.original ==> forall i :: FirstExact(versions, desc, e, i) ==>
                  ServedFrom(env, s, desc, e, versions[i].key, result) && s' == s)
            && (!desc.original && HasNoExact(versions, desc, e) ==>
                  if versions[o].key !in s.blobs then result == NoSuchBlob && s' == s
                  else
                    var data := env.render(versions[o].width, versions[o].height, s.blobs[versions[o].key], desc.width, desc.height, e);
                    && result.Done? && Delivers(env, desc, e, data, result.answer)
                    && if desc.save then Saved(env, s, desc, e, versions[o], data, inBatch, s') else s' == s)
  {
    var image := s.meta[desc.imageKey];
    ChoiceWithOriginal(image.versions, desc, o, e);
    hide Choose, FirstOriginal, FirstExact, HasNoExact, Delivers, MakeResult, Saved;
    forall bytes ensures Delivers(env, desc, e, bytes, MakeResult(env, desc, bytes, e)) {
      FormOfAnswer(env, desc, bytes, e);
    }
    if !desc.original && HasNoExact(image.versions, desc, e) && image.versions[o].key in s.blobs && desc.save {
      var data := Rendered(env, image.versions[o], s.blobs[image.versions[o].key], desc, e);
      SaveIsSaved(env, s, desc, e, image.versions[o], data, inBatch);
    }
  }

  lemma SaveIsSaved(env: Env, s: Store, desc: Descriptor, e: string, original: Version, data: Blob, inBatch: bool)
    requires desc.imageKey in s.meta
    ensures Saved(env, s, desc, e, original, data, inBatch, Save(env, s, s.meta[desc.imageKey], original, desc, e, data, inBatch))
  {
    var v := NewVersion(env, s.meta[desc.imageKey].key, original, desc, e, |data|);
    assert v.sizeBytes == |data| % TWO32;
  }

  /** Without an original only a stored version of the wanted size and format can be
      served, and only if the request names the format. */
  lemma AnswerWithoutOriginal(env: Env, s: Store, desc: Descriptor, inBatch: bool)
    requires desc.imageKey in s.meta && HasNoOriginal(s.meta[desc.imageKey].versions)
    ensures var versions, (result, s') := s.meta[desc.imageKey].versions, Answered(env, s, desc, inBatch);
            && s' == s
            && if desc.extension == "" then result == Crash
               else if desc.original || HasNoExact(versions, desc, desc.extension) then result == OriginalMissing
               else exists i :: FirstExact(versions, desc, desc.extension, i)
                                && ServedFrom(env, s, desc, desc.extension, versions[i].key, result)
  {
    var versions, e := s.meta[desc.imageKey].versions, desc.extension;
    ChoiceWithoutOriginal(versions, desc);
    hide Choose, Delivers, MakeResult, FirstExact, HasNoExact, HasNoOriginal;
    if e != "" && !desc.original && !HasNoExact(versions, desc, e) {
      var i := SomeExact(versions, desc, e);
      var key := versions[i].key;
      if key in s.blobs { FormOfAnswer(env, desc, s.blobs[key], e); }
      assert ServedFrom(env, s, desc, e, key, Answered(env, s, desc, inBatch).0);
    }
  }

  lemma AnswerWithoutImage(env: Env, s: Store, desc: Descriptor, inBatch: bool)
    requires desc.imageKey !in s.meta
    ensures Answered(env, s, desc, inBatch) == (NoSuchImage, s)
  {
  }
}
