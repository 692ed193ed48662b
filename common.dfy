/** Values shared by the gallery page, the lightbox previewer and the file table. */
module Common {

  datatype Option<+T> = None | Some(value: T)

  /** A file identifier as the backend issues it. */
  type Id = string

  /** A listed image as the gallery receives it: the backend's FileWithPresignedThumbnailUrl. */
  datatype FileSummary = FileSummary(id: Id, name: string, presignedThumbnailUrl: string)

  /** A file resolved to its full-resolution pre-signed URL: the backend's FileWithPresignedUrl. */
  datatype ResolvedFile = ResolvedFile(id: Id, name: string, presignedUrl: string)

  /** The gallery's fetchedFiles record, from file id to resolved file. */
  type Cache = map<Id, ResolvedFile>

  /** Every entry is stored under the id of the file it holds. */
  ghost predicate KeysMatch(cache: Cache) {
    forall k :: k in cache ==> cache[k].id == k
  }

  /** `later` keeps every entry of `earlier`, with the same value. */
  ghost predicate Extends(earlier: Cache, later: Cache) {
    forall k :: k in earlier ==> k in later && later[k] == earlier[k]
  }

  /** No id occurs twice in the sequence. */
  ghost predicate Distinct(ids: seq<Id>) {
    forall i, j :: 0 <= i < j < |ids| ==> ids[i] != ids[j]
  }

  /** The ids of listed files, position by position. */
  function SummaryIds(files: seq<FileSummary>): (ids: seq<Id>)
    ensures |ids| == |files|
    ensures forall i :: 0 <= i < |files| ==> ids[i] == files[i].id
  {
    seq(|files|, i requires 0 <= i < |files| => files[i].id)
  }

  /** JavaScript truthiness of a `string | null` selection: null and "" are falsy. */
  predicate Truthy(sel: Option<Id>) {
    sel.Some? && sel.value != ""
  }
}
