/** The video catalog: the Video record and the store that holds the records
    in insertion order. A lookup by field returns the first record that
    matches, and a record changed through the reference a lookup returned
    is changed in the store itself. */
module Catalog {
  import opened JsText

  /** apps/server/src/data/video.model.ts. */
  datatype Video = Video(
    uuid: string,
    path: string,
    baseName: string,
    fileName: string,
    friendlyName: string,
    description: string,
    mimeType: string,
    fileSize: nat,
    tags: seq<string>,
    subtitles: seq<string>)

  /** Index of the first record with this file name. */
  function FindByFileName(vs: seq<Video>, fileName: string): (r: Option<nat>)
    ensures r.Some? ==> r.value < |vs| && vs[r.value].fileName == fileName
    ensures r.Some? ==> forall k :: 0 <= k < r.value ==> vs[k].fileName != fileName
    ensures r.None? <==> forall k :: 0 <= k < |vs| ==> vs[k].fileName != fileName
  {
    FindIndex(vs, (v: Video) => v.fileName, fileName)
  }

  /** Index of the first record with this uuid. */
  function FindByUuid(vs: seq<Video>, uuid: string): (r: Option<nat>)
    ensures r.Some? ==> r.value < |vs| && vs[r.value].uuid == uuid
    ensures r.Some? ==> forall k :: 0 <= k < r.value ==> vs[k].uuid != uuid
    ensures r.None? <==> forall k :: 0 <= k < |vs| ==> vs[k].uuid != uuid
  {
    FindIndex(vs, (v: Video) => v.uuid, uuid)
  }

  /** No two records share a file name. */
  predicate FileNamesUnique(vs: seq<Video>) {
    forall i, j :: 0 <= i < j < |vs| ==> vs[i].fileName != vs[j].fileName
  }

  /** With unique file names the lookup finds the one record with that name. */
  lemma FindUniqueFileName(vs: seq<Video>, k: nat)
    requires FileNamesUnique(vs) && k < |vs|
    ensures FindByFileName(vs, vs[k].fileName) == Some(k)
  {
  }

  /** The LokiJS collection of videos. */
  class VideoStore {
    var videos: seq<Video>

    constructor (vs: seq<Video>)
      ensures videos == vs
    {
      videos := vs;
    }

    /** collection.insert: the record is added after all others. */
    method Insert(v: Video)
      modifies this
      ensures videos == old(videos) + [v]
    {
      videos := videos + [v];
    }

    /** A change made through the reference a lookup returned. */
    method Replace(i: nat, v: Video)
      requires i < |videos|
      modifies this
      ensures videos == old(videos)[i := v]
    {
      videos := videos[i := v];
    }
  }
}
