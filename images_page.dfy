/**
 * The gallery page (Images): a page cursor advanced by infinite scroll, a
 * cache of resolved files written insert-if-absent, the file being previewed,
 * and the overlay slot the page fills with a previewer. The page listing and
 * the full-resolution fetch are network calls; they enter as method inputs.
 */
module ImagesPage {
  import opened Common
  import ImagePreviewer

  /** The page size the gallery requests. */
  const PageSize: nat := 20

  /** The number of skeleton placeholders shown while a page loads. */
  const SkeletonCount: nat := 10

  /** The listing the page query returns for the current page. */
  datatype Listing = Listing(data: seq<FileSummary>, hasMore: bool)

  /** What the page pushes into the overlay slot: a previewer over these props. */
  datatype PreviewerProps = PreviewerProps(files: seq<FileSummary>, fetched: Cache, sel: Id)

  /** The page grid: one thumbnail per file, the skeletons, and whether the sentinel is rendered. */
  datatype Grid = Grid(thumbnails: seq<FileSummary>, skeletons: nat, sentinel: bool)

  /** `files`: the current page's data, or [] while there is none. */
  function Files(listing: Option<Listing>): (files: seq<FileSummary>)
    ensures listing.None? ==> files == []
    ensures listing.Some? ==> files == listing.value.data
  {
    if listing.Some? then listing.value.data else []
  }

  /** `hasMore`: the listing's flag, or false while there is none. */
  predicate HasMore(listing: Option<Listing>): (b: bool)
    ensures b ==> listing.Some?
    ensures listing.Some? ==> (b <==> listing.value.hasMore)
  {
    listing.Some? && listing.value.hasMore
  }

  /** The effect attaches an observer to the sentinel only when more pages remain and none is loading. */
  predicate ObserverAttached(listing: Option<Listing>, isLoading: bool): (b: bool)
    ensures b <==> listing.Some? && listing.value.hasMore && !isLoading
  {
    HasMore(listing) && !isLoading
  }

  /** The grid the page renders for the current query state. */
  function GridView(listing: Option<Listing>, isLoading: bool): (g: Grid)
    ensures g.thumbnails == Files(listing)
    ensures g.sentinel <==> HasMore(listing)
    ensures g.skeletons == if isLoading then SkeletonCount else 0
  {
    Grid(Files(listing), if isLoading then SkeletonCount else 0, HasMore(listing))
  }

  /** The scroll trigger needs a rendered sentinel, and never fires before any listing has arrived. */
  lemma ObserverNeedsSentinel(listing: Option<Listing>, isLoading: bool)
    ensures ObserverAttached(listing, isLoading) ==> GridView(listing, isLoading).sentinel && !isLoading
    ensures listing.None? ==> !ObserverAttached(listing, isLoading) && GridView(listing, isLoading).thumbnails == []
  {
  }

  /** The update inside addFetchedFile: an existing entry is kept, otherwise the file is added under its id. */
  function InsertIfAbsent(cache: Cache, file: ResolvedFile): (r: Cache)
    ensures Extends(cache, r)
    ensures r.Keys == cache.Keys + {file.id}
    ensures r[file.id] == if file.id in cache then cache[file.id] else file
  {
    if file.id in cache then cache else cache[file.id := file]
  }

  /** Inserting keeps every entry stored under the id of the file it holds. */
  lemma InsertKeepsKeysMatching(cache: Cache, file: ResolvedFile)
    requires KeysMatch(cache)
    ensures KeysMatch(InsertIfAbsent(cache, file))
  {
  }

  /** A second insert for an id already present changes nothing: the first stored value wins. */
  lemma InsertFirstWins(cache: Cache, first: ResolvedFile, later: ResolvedFile)
    requires later.id == first.id
    ensures InsertIfAbsent(InsertIfAbsent(cache, first), later) == InsertIfAbsent(cache, first)
  {
  }

  /** The cache after a run of fetch results, applied in order. */
  function InsertAll(cache: Cache, files: seq<ResolvedFile>): Cache
    decreases |files|
  {
    if files == [] then cache else InsertAll(InsertIfAbsent(cache, files[0]), files[1..])
  }

  /** The entry stored under `id`, if any. */
  function Lookup(cache: Cache, id: Id): Option<ResolvedFile> {
    if id in cache then Some(cache[id]) else None
  }

  /** The first file of the run with this id, if any. */
  function FirstWithId(files: seq<ResolvedFile>, id: Id): Option<ResolvedFile> {
    if files == [] then None
    else if files[0].id == id then Some(files[0])
    else FirstWithId(files[1..], id)
  }

  /**
   * After any run of fetch results, each id maps to the entry it already had,
   * else to the first file of the run with that id, else to nothing.
   */
  lemma {:induction false} InsertAllKeepsEarliest(cache: Cache, files: seq<ResolvedFile>, id: Id)
    ensures Lookup(InsertAll(cache, files), id) == if id in cache then Some(cache[id]) else FirstWithId(files, id)
    decreases |files|
  {
    if files != [] {
      InsertAllKeepsEarliest(InsertIfAbsent(cache, files[0]), files[1..], id);
    }
  }

  /** The content of the overlay slot for a selection: a previewer while the selection is truthy, else undefined. */
  function OverlayFor(preview: Option<Id>, files: seq<FileSummary>, fetched: Cache): (slot: Option<PreviewerProps>)
    ensures slot.Some? <==> Truthy(preview)
    ensures slot.Some? ==> slot.value == PreviewerProps(files, fetched, preview.value)
  {
    if Truthy(preview) then Some(PreviewerProps(files, fetched, preview.value)) else None
  }

  /** What the overlay slot shows on screen. */
  function SlotView(slot: Option<PreviewerProps>): (view: Option<ImagePreviewer.Lightbox>)
    ensures view.Some? <==> slot.Some? && slot.value.sel in slot.value.fetched
    ensures view.Some? ==> var p := slot.value;
              view.value == ImagePreviewer.Lightbox(p.fetched[p.sel].presignedUrl, p.fetched[p.sel].name, ImagePreviewer.Strip(p.files, p.sel))
  {
    if slot.None? then None else ImagePreviewer.Render(slot.value.files, slot.value.fetched, slot.value.sel).view
  }

  /**
   * Once a fetch for `file` has been added and the overlay recomputed, the
   * slot shows the lightbox for that id: the entry that was already cached,
   * or else the file just fetched, over the current page's strip.
   */
  lemma FetchedFileIsShown(files: seq<FileSummary>, fetched: Cache, file: ResolvedFile)
    requires file.id != ""
    ensures var shown := if file.id in fetched then fetched[file.id] else file;
            SlotView(OverlayFor(Some(file.id), files, InsertIfAbsent(fetched, file)))
              == Some(ImagePreviewer.Lightbox(shown.presignedUrl, shown.name, ImagePreviewer.Strip(files, file.id)))
  {
  }

  /**
   * The body overflow after the overlay slot changes, as the code is written:
   * a previewer that mounts writes its value; when the slot is emptied the
   * previewer unmounts with no cleanup and the last value stays.
   */
  function NextOverflow(prev: ImagePreviewer.Overflow, slot: Option<PreviewerProps>): (o: ImagePreviewer.Overflow)
    ensures slot.Some? ==> o == ImagePreviewer.OverflowFor(slot.value.sel)
    ensures slot.None? ==> o == prev
  {
    if slot.Some? then ImagePreviewer.OverflowFor(slot.value.sel) else prev
  }

  /** Opening a preview and then closing it leaves the page unable to scroll. */
  lemma ScrollStaysLockedAfterClose(files: seq<FileSummary>, fetched: Cache, id: Id)
    requires id != ""
    ensures var locked := NextOverflow(ImagePreviewer.Auto, OverlayFor(Some(id), files, fetched));
            NextOverflow(locked, OverlayFor(None, files, fetched)) == ImagePreviewer.Hidden
  {
  }

  /** The body overflow with a cleanup that restores scrolling when the previewer unmounts. */
  function NextOverflowWithCleanup(prev: ImagePreviewer.Overflow, slot: Option<PreviewerProps>): (o: ImagePreviewer.Overflow)
    ensures o == ImagePreviewer.Hidden <==> slot.Some? && slot.value.sel != ""
  {
    if slot.Some? then ImagePreviewer.OverflowFor(slot.value.sel) else ImagePreviewer.Auto
  }

  /** With the cleanup, scrolling is locked exactly while a previewer is in the slot, whatever came before. */
  lemma CleanupTracksOverlay(prev: ImagePreviewer.Overflow, preview: Option<Id>, files: seq<FileSummary>, fetched: Cache)
    ensures NextOverflowWithCleanup(prev, OverlayFor(preview, files, fetched)) == ImagePreviewer.Hidden <==> Truthy(preview)
  {
  }

  /** The state of one mounted gallery page. */
  class Gallery {
    var page: int
    var fetched: Cache
    var preview: Option<Id>
    var overlay: Option<PreviewerProps>
    var bodyOverflow: ImagePreviewer.Overflow

    /** The cursor is 1-based, every cached file sits under its own id, and a selection is always a cached id. */
    ghost predicate Valid()
      reads this
    {
      page >= 1 && KeysMatch(fetched) && (preview.Some? ==> preview.value in fetched)
    }

    /** A freshly mounted page: page 1, an empty cache, no preview, an empty slot. */
    constructor ()
      ensures Valid()
      ensures page == 1 && fetched == map[] && preview == None
      ensures overlay == None && bodyOverflow == ImagePreviewer.Auto
    {
      page := 1;
      fetched := map[];
      preview := None;
      overlay := None;
      bodyOverflow := ImagePreviewer.Auto;
    }

    /** addFetchedFile: insert the file if its id is new, and select it either way. */
    method AddFetchedFile(file: ResolvedFile)
      requires Valid()
      modifies this
      ensures Valid()
      ensures fetched == InsertIfAbsent(old(fetched), file)
      ensures preview == Some(file.id)
      ensures page == old(page) && overlay == old(overlay) && bodyOverflow == old(bodyOverflow)
    {
      InsertKeepsKeysMatching(fetched, file);
      fetched := InsertIfAbsent(fetched, file);
      preview := Some(file.id);
    }

    /** A thumbnail's fetch settled: a returned file is added, an empty result changes nothing. */
    method FetchReturned(result: Option<ResolvedFile>)
      requires Valid()
      modifies this
      ensures Valid()
      ensures result.None? ==> fetched == old(fetched) && preview == old(preview)
      ensures result.Some? ==> fetched == InsertIfAbsent(old(fetched), result.value) && preview == Some(result.value.id)
      ensures page == old(page) && overlay == old(overlay) && bodyOverflow == old(bodyOverflow)
    {
      if result.Some? {
        AddFetchedFile(result.value);
      }
    }

    /** handleClose: clear the selection; the cache and the cursor are untouched. */
    method Close()
      requires Valid()
      modifies this
      ensures Valid()
      ensures preview == None
      ensures fetched == old(fetched) && page == old(page)
      ensures overlay == old(overlay) && bodyOverflow == old(bodyOverflow)
    {
      preview := None;
    }

    /** The sentinel intersects: the cursor moves forward by one if the observer is attached, else nothing happens. */
    method SentinelIntersects(listing: Option<Listing>, isLoading: bool)
      requires Valid()
      modifies this
      ensures Valid()
      ensures page == if ObserverAttached(listing, isLoading) then old(page) + 1 else old(page)
      ensures fetched == old(fetched) && preview == old(preview)
      ensures overlay == old(overlay) && bodyOverflow == old(bodyOverflow)
    {
      if ObserverAttached(listing, isLoading) {
        page := page + 1;
      }
    }

    /** The overlay effect: fill the slot from the selection, and let a mounted previewer write the body overflow. */
    method RecomputeOverlay(listing: Option<Listing>)
      requires Valid()
      modifies this
      ensures Valid()
      ensures overlay == OverlayFor(preview, Files(listing), fetched)
      ensures overlay.Some? ==> SlotView(overlay).Some?
      ensures bodyOverflow == NextOverflow(old(bodyOverflow), overlay)
      ensures fetched == old(fetched) && preview == old(preview) && page == old(page)
    {
      overlay := OverlayFor(preview, Files(listing), fetched);
      bodyOverflow := NextOverflow(bodyOverflow, overlay);
    }
  }

  /** The click-to-preview round trip and the scroll trigger, as a client of the Gallery contracts. */
  method GalleryScenario()
  {
    var g := new Gallery();
    var thumb := FileSummary("abc", "abc.png", "https://cdn/abc-thumb.png");
    var page1 := Some(Listing([thumb], true));

    g.FetchReturned(None);
    assert g.preview == None && g.fetched == map[];

    var abc := ResolvedFile("abc", "abc.png", "https://cdn/abc-full.png");
    g.FetchReturned(Some(abc));
    g.RecomputeOverlay(page1);
    assert g.fetched == map["abc" := abc];
    assert SlotView(g.overlay) == Some(ImagePreviewer.Lightbox("https://cdn/abc-full.png", "abc.png", ImagePreviewer.Strip([thumb], "abc")));
    assert g.bodyOverflow == ImagePreviewer.Hidden;

    var stale := ResolvedFile("abc", "abc.png", "https://cdn/abc-stale.png");
    g.FetchReturned(Some(stale));
    assert g.fetched == map["abc" := abc];

    g.Close();
    g.RecomputeOverlay(page1);
    assert g.overlay == None && g.fetched == map["abc" := abc];
    assert g.bodyOverflow == ImagePreviewer.Hidden;

    g.SentinelIntersects(page1, true);
    assert g.page == 1;
    g.SentinelIntersects(page1, false);
    assert g.page == 2;
    g.SentinelIntersects(Some(Listing([], false)), false);
    assert g.page == 2;
  }
}
