/**
 * The lightbox previewer (ImagePreviewer and AllImagesPreviewer): a pure
 * function from the listed files, the resolved-file cache and the selected id
 * to what is on screen, plus the value its effect writes to the body's
 * overflow style and what a click inside it does.
 */
module ImagePreviewer {
  import opened Common

  /** The value of document.body.style.overflow; the initial empty style scrolls like Auto. */
  datatype Overflow = Auto | Hidden

  /** One thumbnail of the strip under the full image. */
  datatype StripThumb = StripThumb(file: FileSummary, highlight: bool)

  /** The full-screen overlay: the full image and the thumbnail strip. */
  datatype Lightbox = Lightbox(src: string, alt: string, strip: seq<StripThumb>)

  /** What one render produces: the overlay (None when the component returns null) and the overflow its effect writes. */
  datatype Output = Output(view: Option<Lightbox>, overflow: Overflow)

  /** Where a click lands while the overlay is shown. */
  datatype Click =
    | Backdrop                  // the dimmed overlay outside the image and the strip
    | Image                     // the full image
    | StripBackground           // the strip container, between thumbnails
    | StripThumbnail(index: nat) // a thumbnail of the strip

  /** Some listed file has this id. */
  ghost predicate Listed(files: seq<FileSummary>, id: Id) {
    exists i :: 0 <= i < |files| && files[i].id == id
  }

  /** The effect's write: overflow is hidden exactly when the selected id is truthy. */
  function OverflowFor(sel: Id): (o: Overflow)
    ensures o == Hidden <==> sel != ""
  {
    if sel != "" then Hidden else Auto
  }

  /** AllImagesPreviewer: one thumbnail per listed file, in order, highlighted when its id is the selection. */
  function Strip(files: seq<FileSummary>, sel: Id): (strip: seq<StripThumb>)
    ensures |strip| == |files|
    ensures forall i :: 0 <= i < |files| ==> strip[i].file == files[i]
    ensures forall i :: 0 <= i < |files| ==> (strip[i].highlight <==> files[i].id == sel)
  {
    if files == [] then []
    else [StripThumb(files[0], files[0].id == sel)] + Strip(files[1..], sel)
  }

  /** The number of highlighted thumbnails in a strip. */
  function HighlightCount(strip: seq<StripThumb>): nat {
    if strip == [] then 0
    else (if strip[0].highlight then 1 else 0) + HighlightCount(strip[1..])
  }

  /** The strip's highlight count splits into the first thumbnail's and the rest's. */
  lemma HighlightCountStep(files: seq<FileSummary>, sel: Id)
    requires files != []
    ensures HighlightCount(Strip(files, sel)) == (if files[0].id == sel then 1 else 0) + HighlightCount(Strip(files[1..], sel))
  {
    assert Strip(files, sel)[1..] == Strip(files[1..], sel);
  }

  /** Dropping the first file keeps the ids distinct. */
  lemma DistinctTail(files: seq<FileSummary>)
    requires files != [] && Distinct(SummaryIds(files))
    ensures Distinct(SummaryIds(files[1..]))
  {
    var rest := files[1..];
    forall i, j | 0 <= i < j < |rest| ensures SummaryIds(rest)[i] != SummaryIds(rest)[j] {
      assert SummaryIds(files)[i + 1] != SummaryIds(files)[j + 1];
    }
  }

  /** An id is listed when it is the first file's, or listed among the rest; with distinct ids, never both. */
  lemma ListedStep(files: seq<FileSummary>, sel: Id)
    requires files != [] && Distinct(SummaryIds(files))
    ensures Listed(files, sel) <==> files[0].id == sel || Listed(files[1..], sel)
    ensures files[0].id == sel ==> !Listed(files[1..], sel)
  {
    var rest := files[1..];
    if Listed(files, sel) && files[0].id != sel {
      var i :| 0 <= i < |files| && files[i].id == sel;
      assert rest[i - 1].id == sel;
    }
    if Listed(rest, sel) {
      var i :| 0 <= i < |rest| && rest[i].id == sel;
      assert files[i + 1].id == sel;
      assert SummaryIds(files)[0] != SummaryIds(files)[i + 1];
    }
  }

  /** With unique ids, exactly one thumbnail is highlighted when the selection is listed, and none otherwise. */
  lemma {:induction false} StripHighlightsOnce(files: seq<FileSummary>, sel: Id)
    requires Distinct(SummaryIds(files))
    ensures HighlightCount(Strip(files, sel)) == if Listed(files, sel) then 1 else 0
  {
    if files != [] {
      HighlightCountStep(files, sel);
      DistinctTail(files);
      ListedStep(files, sel);
      StripHighlightsOnce(files[1..], sel);
    }
  }

  /**
   * ImagePreviewer: nothing is shown unless the selected id is a key of the
   * cache; otherwise the cached file's URL with its name as alt text, over
   * the strip of the listed files. The overflow write happens in both cases.
   */
  function Render(files: seq<FileSummary>, cache: Cache, sel: Id): (out: Output)
    ensures out.overflow == OverflowFor(sel)
    ensures out.view.None? <==> sel !in cache
    ensures sel in cache ==> out.view.value.src == cache[sel].presignedUrl && out.view.value.alt == cache[sel].name
    ensures sel in cache ==> out.view.value.strip == Strip(files, sel)
  {
    var view := if sel in cache then Some(Lightbox(cache[sel].presignedUrl, cache[sel].name, Strip(files, sel))) else None;
    Output(view, OverflowFor(sel))
  }

  /** Once shown, the view stays the same however the cache grows around the selected entry. */
  lemma RenderStableUnderGrowth(files: seq<FileSummary>, cache: Cache, grown: Cache, sel: Id)
    requires Extends(cache, grown)
    requires sel in cache
    ensures Render(files, grown, sel) == Render(files, cache, sel)
  {
  }

  /**
   * How many times handleClose runs for a click. It is bound to the backdrop;
   * the image and every strip thumbnail stop propagation; a click on the strip
   * container bubbles up to the backdrop. Nothing can be clicked when nothing is shown.
   */
  function CloseCalls(out: Output, click: Click): (n: nat)
    ensures n <= 1
    ensures n == 1 <==> out.view.Some? && (click == Backdrop || click == StripBackground)
  {
    if out.view.None? then 0
    else match click
      case Backdrop => 1
      case StripBackground => 1
      case Image => 0
      case StripThumbnail(_) => 0
  }

  /** The id whose full-resolution file a click fetches: only a strip thumbnail fetches, and it fetches its own file. */
  function FetchRequested(out: Output, click: Click): (r: Option<Id>)
    ensures r.Some? <==> out.view.Some? && click.StripThumbnail? && click.index < |out.view.value.strip|
    ensures r.Some? ==> r.value == out.view.value.strip[click.index].file.id
  {
    if out.view.Some? && click.StripThumbnail? && click.index < |out.view.value.strip|
    then Some(out.view.value.strip[click.index].file.id)
    else None
  }

  /** Clicking the i-th strip thumbnail fetches the i-th listed file and does not close the overlay. */
  lemma StripClickFetchesListedFile(files: seq<FileSummary>, cache: Cache, sel: Id, i: nat)
    requires sel in cache && i < |files|
    ensures FetchRequested(Render(files, cache, sel), StripThumbnail(i)) == Some(files[i].id)
    ensures CloseCalls(Render(files, cache, sel), StripThumbnail(i)) == 0
  {
  }
}
