/**
 * The file table page (Home and FilesTable): bounded previous/next paging,
 * the page links, the row selection with its tri-state header checkbox, and
 * the delete dialog. The listing, the delete call, uploads and downloads are
 * network calls; they enter as method inputs or are left out.
 */
module Home {
  import opened Common

  /** The page size the table requests. */
  const PageSize: nat := 20

  /** A row of the table: the backend's File, with the fields the logic reads. */
  datatype FileRow = FileRow(id: Id, name: string)

  /** The listing the page query returns: the current page's rows and the total number of files. */
  datatype Listing = Listing(data: seq<FileRow>, total: nat)

  /** One link of the pagination bar. */
  datatype PageLink = PageLink(number: int, active: bool)

  /** The header checkbox's `checked` value. */
  datatype CheckState = Checked | Indeterminate | Unchecked

  function MaxReal(a: real, b: real): real {
    if a >= b then a else b
  }

  function MaxInt(a: int, b: int): int {
    if a >= b then a else b
  }

  /** `files`: the current page's rows, or [] while there is none (before the first response and while a new page loads). */
  function Rows(listing: Option<Listing>): (rows: seq<FileRow>)
    ensures listing.None? ==> rows == []
    ensures listing.Some? ==> rows == listing.value.data
  {
    if listing.Some? then listing.value.data else []
  }

  // ---------------------------------------------------------------- paging

  /** totalPages: total / size as an exact quotient, at least 1; 1 while there is no data. */
  function TotalPages(listing: Option<Listing>): (t: real)
    ensures t >= 1.0
    ensures listing.None? ==> t == 1.0
    ensures listing.Some? ==> t * PageSize as real >= listing.value.total as real
  {
    if listing.None? then 1.0 else MaxReal(listing.value.total as real / PageSize as real, 1.0)
  }

  /** handlePreviousPage moves only from a page above the first; from page 1 or above, it is blocked on page 1 alone. */
  predicate CanGoPrevious(page: int): (b: bool)
    ensures b ==> page - 1 >= 1
    ensures page >= 1 ==> (!b <==> page == 1)
  {
    page > 1
  }

  /**
   * handleNextPage moves only while the page is below totalPages: from every
   * page below its integer part, and from the integer part itself exactly
   * when totalPages has a fractional part.
   */
  predicate CanGoNext(page: int, totalPages: real): (b: bool)
    ensures b <==> page < totalPages.Floor || (page == totalPages.Floor && totalPages.Floor as real != totalPages)
  {
    (page as real) < totalPages
  }

  /** From a page at or above the first, Next moves exactly when rows lie beyond the current page. */
  lemma NextIffMoreRows(page: int, listing: Listing)
    requires page >= 1
    ensures CanGoNext(page, TotalPages(Some(listing))) <==> page * PageSize < listing.total
  {
    var t := listing.total as real;
    var q := t / 20.0;
    assert q * 20.0 == t;
    if page as real < q {
      assert (page as real) * 20.0 < q * 20.0;
    }
    if page * PageSize < listing.total {
      assert (page as real) * 20.0 < t;
    }
  }

  /** With no data there is a single page, and Next never moves. */
  lemma NoDataSinglePage(page: int)
    requires page >= 1
    ensures TotalPages(None) == 1.0 && !CanGoNext(page, TotalPages(None))
  {
  }

  /** The number of links `Array.from({ length: totalPages })` makes: the integer part. */
  function LinkCount(totalPages: real): (n: nat)
    requires totalPages >= 1.0
    ensures n >= 1
    ensures n as real <= totalPages < n as real + 1.0
  {
    totalPages.Floor
  }

  /** The link count is the integer quotient total div size, and at least 1. */
  lemma LinkCountIsQuotient(listing: Listing)
    ensures LinkCount(TotalPages(Some(listing))) == MaxInt(listing.total / PageSize, 1)
  {
    var t := listing.total;
    var q := t / 20;
    var r := t % 20;
    assert t == q * 20 + r && 0 <= r < 20;
    var x := t as real / 20.0;
    assert x == q as real + r as real / 20.0;
    if q >= 1 {
      assert q as real <= x < q as real + 1.0;
      assert x.Floor == q;
    } else {
      assert x < 1.0;
    }
  }

  /** Links 1..n, the one numbered `page` marked active. */
  function LinksUpTo(page: int, n: nat): (links: seq<PageLink>)
    ensures |links| == n
    ensures forall i :: 0 <= i < n ==> links[i].number == i + 1
    ensures forall i :: 0 <= i < n ==> (links[i].active <==> page == i + 1)
  {
    if n == 0 then [] else LinksUpTo(page, n - 1) + [PageLink(n, page == n)]
  }

  /** The pagination links as rendered: one per whole page of totalPages. */
  function PageLinks(page: int, totalPages: real): (links: seq<PageLink>)
    requires totalPages >= 1.0
    ensures |links| == LinkCount(totalPages)
    ensures forall i :: 0 <= i < |links| ==> links[i].number == i + 1 && (links[i].active <==> page == i + 1)
  {
    LinksUpTo(page, LinkCount(totalPages))
  }

  /** The number of active links. */
  function ActiveCount(links: seq<PageLink>): nat {
    if links == [] then 0
    else ActiveCount(links[..|links| - 1]) + (if links[|links| - 1].active then 1 else 0)
  }

  /** Exactly one link is active when the page is among 1..n, and none otherwise. */
  lemma {:induction false} OneActiveLink(page: int, n: nat)
    ensures ActiveCount(LinksUpTo(page, n)) == if 1 <= page <= n then 1 else 0
  {
    if n > 0 {
      var links := LinksUpTo(page, n);
      assert links[..n - 1] == LinksUpTo(page, n - 1);
      OneActiveLink(page, n - 1);
    }
  }

  /** The pagination bar is shown, with its links, only when the page has loaded and has rows. */
  function PaginationView(isLoading: bool, rows: seq<FileRow>, page: int, totalPages: real): (bar: Option<seq<PageLink>>)
    requires totalPages >= 1.0
    ensures bar.Some? <==> !isLoading && |rows| > 0
    ensures bar.Some? ==> bar.value == PageLinks(page, totalPages)
  {
    if !isLoading && |rows| > 0 then Some(PageLinks(page, totalPages)) else None
  }

  /** With 45 files, Next reaches page 3, yet the bar links pages 1 and 2 only and none is active on page 3. */
  lemma LastPartialPageHasNoLink()
    ensures var tp := TotalPages(Some(Listing([], 45)));
            CanGoNext(2, tp) && !CanGoNext(3, tp) && |PageLinks(3, tp)| == 2 && ActiveCount(PageLinks(3, tp)) == 0
  {
    var tp := TotalPages(Some(Listing([], 45)));
    assert tp == 2.25;
    assert tp.Floor == 2;
    OneActiveLink(3, 2);
  }

  /** The page count rounded up: every page holding at least one row, and at least 1. */
  function CeilPageCount(total: nat): nat {
    MaxInt((total + PageSize - 1) / PageSize, 1)
  }

  /** The links with the page count rounded up. */
  function PageLinksCeil(page: int, listing: Listing): seq<PageLink> {
    LinksUpTo(page, CeilPageCount(listing.total))
  }

  /** With the count rounded up, page 1 and every page Next can reach have a link, and no other page does. */
  lemma EveryReachablePageHasLink(page: int, listing: Listing)
    requires page >= 1
    ensures page <= |PageLinksCeil(page, listing)| <==> page == 1 || CanGoNext(page - 1, TotalPages(Some(listing)))
  {
    var t := listing.total;
    var c := CeilPageCount(t);
    if page >= 2 {
      NextIffMoreRows(page - 1, listing);
      var d := (t + 19) / 20;
      assert t + 19 == d * 20 + (t + 19) % 20;
      if (page - 1) * 20 < t {
        assert page * 20 <= t + 19;
        assert page <= d;
      }
      if page <= c {
        assert page <= d;
        assert page * 20 <= d * 20;
      }
    }
  }

  // ------------------------------------------------------------- selection

  /** Every selected index names a row of the page. */
  predicate InRange(sel: set<nat>, n: nat) {
    forall k :: k in sel ==> k < n
  }

  /** The selected indices below n, in ascending order (the order Object.keys gives integer keys). */
  function SelectedIndices(sel: set<nat>, n: nat): (idx: seq<nat>)
    ensures forall j :: 0 <= j < |idx| ==> idx[j] < n && idx[j] in sel
    ensures forall j, j' :: 0 <= j < j' < |idx| ==> idx[j] < idx[j']
    ensures forall k :: k in sel && k < n ==> k in idx
  {
    if n == 0 then [] else SelectedIndices(sel, n - 1) + (if n - 1 in sel then [n - 1] else [])
  }

  /** The selected indices below n. */
  function Below(sel: set<nat>, n: nat): set<nat> {
    set k | k in sel && k < n
  }

  /** The enumeration has one entry per selected index below n. */
  lemma {:induction false} SelectedIndicesCount(sel: set<nat>, n: nat)
    ensures |SelectedIndices(sel, n)| == |Below(sel, n)|
  {
    if n > 0 {
      SelectedIndicesCount(sel, n - 1);
      BelowStep(sel, n);
    }
  }

  /** Raising the bound by one adds the index n - 1 exactly when it is selected. */
  lemma BelowStep(sel: set<nat>, n: nat)
    requires n > 0
    ensures |Below(sel, n)| == |Below(sel, n - 1)| + (if n - 1 in sel then 1 else 0)
  {
    if n - 1 in sel {
      assert Below(sel, n) == Below(sel, n - 1) + {n - 1};
      assert n - 1 !in Below(sel, n - 1);
    } else {
      assert Below(sel, n) == Below(sel, n - 1);
    }
  }

  /** The ids of the rows at the given indices. */
  function IdsAt(rows: seq<FileRow>, idx: seq<nat>): (ids: seq<Id>)
    requires forall j :: 0 <= j < |idx| ==> idx[j] < |rows|
    ensures |ids| == |idx|
    ensures forall j :: 0 <= j < |idx| ==> ids[j] == rows[idx[j]].id
  {
    seq(|idx|, j requires 0 <= j < |idx| => rows[idx[j]].id)
  }

  /**
   * selectedFiles: the ids of the selected rows in ascending row order, one
   * per selected index. None when a selected index has no row on the page:
   * there `files[Number(key)].id` throws and the table does not render.
   */
  function SelectedFiles(rows: seq<FileRow>, sel: set<nat>): (r: Option<seq<Id>>)
    ensures r.Some? <==> InRange(sel, |rows|)
    ensures r.Some? ==> |r.value| == |sel|
    ensures r.Some? ==> r.value == IdsAt(rows, SelectedIndices(sel, |rows|))
  {
    if InRange(sel, |rows|) then
      SelectedIndicesCount(sel, |rows|);
      assert Below(sel, |rows|) == sel;
      Some(IdsAt(rows, SelectedIndices(sel, |rows|)))
    else None
  }

  /** headerCheckboxChecked, from the number of selection keys and the number of rows. */
  function HeaderCheckbox(selectedCount: nat, rowCount: nat): (c: CheckState)
    ensures c == Checked <==> selectedCount == rowCount
    ensures c == Indeterminate <==> 0 < selectedCount != rowCount
    ensures c == Unchecked <==> selectedCount == 0 < rowCount
  {
    if selectedCount == rowCount then Checked
    else if selectedCount > 0 then Indeterminate
    else Unchecked
  }

  /** The selection handleSelectAll builds: every row index of the page. */
  function AllRows(n: nat): (all: set<nat>)
    ensures forall i: nat :: i in all <==> i < n
  {
    if n == 0 then {} else AllRows(n - 1) + {n - 1}
  }

  /** Selecting every row selects exactly n of them. */
  lemma {:induction false} AllRowsCount(n: nat)
    ensures |AllRows(n)| == n
  {
    if n > 0 {
      var prev := AllRows(n - 1);
      AllRowsCount(n - 1);
      assert n - 1 !in prev;
      assert |prev + {n - 1}| == |prev| + 1;
    }
  }

  /** handleSelectAll's reduce: the accumulator gains one key per row index. */
  method SelectAllRows(n: nat) returns (acc: set<nat>)
    ensures acc == AllRows(n)
  {
    acc := {};
    var index := 0;
    while index < n
      invariant index <= n
      invariant acc == AllRows(index)
    {
      acc := acc + {index};
      index := index + 1;
    }
  }

  /** A selection of n in-range indices on a page of n rows is every row. */
  lemma FullSelectionIsAllRows(sel: set<nat>, n: nat)
    requires InRange(sel, n) && |sel| == n
    ensures sel == AllRows(n)
  {
    AllRowsCount(n);
    var missing := AllRows(n) - sel;
    assert AllRows(n) == sel + missing && sel !! missing;
    assert |missing| == 0;
  }

  /** The bulk checkbox: select every row when the header is indeterminate, otherwise unselect every row. */
  function BulkCheckboxSelection(sel: set<nat>, n: nat): (next: set<nat>)
    ensures forall i: nat :: i in next <==> HeaderCheckbox(|sel|, n) == Indeterminate && i < n
  {
    if HeaderCheckbox(|sel|, n) == Indeterminate then AllRows(n) else {}
  }

  /**
   * While the bulk bar is shown (some row selected), its checkbox toggles
   * between everything and nothing: a partial selection becomes the whole
   * page and the header turns checked; a whole-page selection is cleared.
   */
  lemma BulkCheckboxToggles(sel: set<nat>, n: nat)
    requires InRange(sel, n) && sel != {}
    ensures HeaderCheckbox(|sel|, n) == Indeterminate ==>
              BulkCheckboxSelection(sel, n) == AllRows(n) && HeaderCheckbox(|AllRows(n)|, n) == Checked
    ensures HeaderCheckbox(|sel|, n) != Indeterminate ==>
              sel == AllRows(n) && BulkCheckboxSelection(sel, n) == {}
  {
    AllRowsCount(n);
    if HeaderCheckbox(|sel|, n) != Indeterminate {
      FullSelectionIsAllRows(sel, n);
    }
  }

  // ---------------------------------------------------------------- delete

  /** The ids a delete sends: the pending single file, else the selected rows. */
  function DeleteTargets(fileToDelete: Option<FileRow>, selected: seq<Id>): (ids: seq<Id>)
    ensures fileToDelete.Some? ==> ids == [fileToDelete.value.id]
    ensures fileToDelete.None? ==> ids == selected
  {
    if fileToDelete.Some? then [fileToDelete.value.id] else selected
  }

  /** The indices of the rows whose id is among `ids`, in ascending order. */
  function MatchingIndices(rows: seq<FileRow>, ids: seq<Id>): (idx: seq<nat>)
    ensures forall j :: 0 <= j < |idx| ==> idx[j] < |rows| && rows[idx[j]].id in ids
    ensures forall j, j' :: 0 <= j < j' < |idx| ==> idx[j] < idx[j']
    ensures forall i :: 0 <= i < |rows| && rows[i].id in ids ==> i in idx
  {
    if rows == [] then []
    else MatchingIndices(rows[..|rows| - 1], ids) + (if rows[|rows| - 1].id in ids then [|rows| - 1] else [])
  }

  /**
   * `files.filter(file => selected.includes(file.id))`: the rows at the
   * matching indices, in row order, each once.
   */
  function FilterByIds(rows: seq<FileRow>, ids: seq<Id>): (kept: seq<FileRow>)
    ensures var idx := MatchingIndices(rows, ids);
            |kept| == |idx| && forall j :: 0 <= j < |idx| ==> kept[j] == rows[idx[j]]
    ensures forall r :: r in kept <==> r in rows && r.id in ids
  {
    if rows == [] then []
    else FilterByIds(rows[..|rows| - 1], ids) + (if rows[|rows| - 1].id in ids then [rows[|rows| - 1]] else [])
  }

  /** The ids of a list of rows. */
  function RowIds(rows: seq<FileRow>): (ids: seq<Id>)
    ensures |ids| == |rows|
    ensures forall i :: 0 <= i < |rows| ==> ids[i] == rows[i].id
  {
    seq(|rows|, i requires 0 <= i < |rows| => rows[i].id)
  }

  /** The files the delete dialog lists. */
  function DialogFiles(fileToDelete: Option<FileRow>, rows: seq<FileRow>, selected: seq<Id>): (files: seq<FileRow>)
    ensures fileToDelete.Some? ==> files == [fileToDelete.value]
    ensures fileToDelete.None? ==> files == FilterByIds(rows, selected)
    ensures fileToDelete.None? ==> forall r :: r in files <==> r in rows && r.id in selected
  {
    if fileToDelete.Some? then [fileToDelete.value] else FilterByIds(rows, selected)
  }

  /** Filtering n rows is filtering the first n - 1, then the last one. */
  lemma FilterStep(rows: seq<FileRow>, ids: seq<Id>, n: nat)
    requires 0 < n <= |rows|
    ensures FilterByIds(rows[..n], ids) == FilterByIds(rows[..n - 1], ids) + (if rows[n - 1].id in ids then [rows[n - 1]] else [])
  {
    assert rows[..n][..n - 1] == rows[..n - 1];
  }

  /** The ids of rows extended by one row. */
  lemma RowIdsAppend(rows: seq<FileRow>, r: FileRow)
    ensures RowIds(rows + [r]) == RowIds(rows) + [r.id]
  {
  }

  /** The ids at indices extended by one index. */
  lemma IdsAtAppend(rows: seq<FileRow>, idx: seq<nat>, k: nat)
    requires (forall j :: 0 <= j < |idx| ==> idx[j] < |rows|) && k < |rows|
    ensures IdsAt(rows, idx + [k]) == IdsAt(rows, idx) + [rows[k].id]
  {
  }

  /** Ids that agree position by position still agree after one more row and its index. */
  lemma AppendSelectedRow(rows: seq<FileRow>, before: seq<FileRow>, earlier: seq<nat>, k: nat)
    requires k < |rows| && forall j :: 0 <= j < |earlier| ==> earlier[j] < |rows|
    requires RowIds(before) == IdsAt(rows, earlier)
    ensures RowIds(before + [rows[k]]) == IdsAt(rows, earlier + [k])
  {
    RowIdsAppend(before, rows[k]);
    IdsAtAppend(rows, earlier, k);
  }

  /** With unique ids, a row's id is among the selected ids exactly when its index is selected. */
  lemma SelectedIdIffSelectedIndex(rows: seq<FileRow>, sel: set<nat>, i: nat)
    requires Distinct(RowIds(rows)) && InRange(sel, |rows|) && i < |rows|
    ensures rows[i].id in SelectedFiles(rows, sel).value <==> i in sel
  {
    var selected := SelectedFiles(rows, sel).value;
    var all := SelectedIndices(sel, |rows|);
    if i in sel {
      var j :| 0 <= j < |all| && all[j] == i;
      assert selected[j] == rows[i].id;
    }
    if rows[i].id in selected {
      var j :| 0 <= j < |selected| && selected[j] == rows[i].id;
      assert rows[all[j]].id == rows[i].id;
      if all[j] != i {
        assert RowIds(rows)[all[j]] == RowIds(rows)[i];
      }
    }
  }

  /**
   * When a row's id is among `ids` exactly when its index is selected,
   * filtering the first n rows by `ids` keeps the selected rows among them, in row order.
   */
  lemma {:induction false} FilterSelectedPrefix(rows: seq<FileRow>, sel: set<nat>, ids: seq<Id>, n: nat)
    requires n <= |rows|
    requires forall i :: 0 <= i < |rows| ==> (rows[i].id in ids <==> i in sel)
    ensures RowIds(FilterByIds(rows[..n], ids)) == IdsAt(rows, SelectedIndices(sel, n))
  {
    if n > 0 {
      var before := FilterByIds(rows[..n - 1], ids);
      var earlier := SelectedIndices(sel, n - 1);
      FilterSelectedPrefix(rows, sel, ids, n - 1);
      FilterStep(rows, ids, n);
      if n - 1 in sel {
        assert FilterByIds(rows[..n], ids) == before + [rows[n - 1]];
        assert SelectedIndices(sel, n) == earlier + [n - 1];
        AppendSelectedRow(rows, before, earlier, n - 1);
      } else {
        assert FilterByIds(rows[..n], ids) == before + [] == before;
        assert SelectedIndices(sel, n) == earlier + [] == earlier;
      }
    }
  }

  /** With unique ids, the delete dialog lists exactly the files the delete targets, in the same order. */
  lemma DialogListsDeleteTargets(rows: seq<FileRow>, sel: set<nat>, fileToDelete: Option<FileRow>)
    requires Distinct(RowIds(rows)) && InRange(sel, |rows|)
    ensures var selected := SelectedFiles(rows, sel).value;
            RowIds(DialogFiles(fileToDelete, rows, selected)) == DeleteTargets(fileToDelete, selected)
  {
    if fileToDelete.None? {
      var selected := SelectedFiles(rows, sel).value;
      forall i | 0 <= i < |rows| ensures rows[i].id in selected <==> i in sel {
        SelectedIdIffSelectedIndex(rows, sel, i);
      }
      FilterSelectedPrefix(rows, sel, selected, |rows|);
      assert rows[..|rows|] == rows;
    }
  }

  /**
   * The row selection is not cleared when the page changes, and while the
   * next page loads there are no rows: a selection that rendered on the
   * loaded page makes `selectedFiles` throw, and the table fails to render.
   */
  lemma SelectionBreaksWhileNextPageLoads(listing: Listing, sel: set<nat>)
    requires sel != {} && InRange(sel, |Rows(Some(listing))|)
    ensures SelectedFiles(Rows(Some(listing)), sel).Some?
    ensures SelectedFiles(Rows(None), sel).None?
  {
    var k :| k in sel;
    assert !InRange(sel, |Rows(None)|) by {
      assert k in sel && !(k < 0);
    }
  }

  /** An empty selection renders over any rows, those of a page still loading included, and sends nothing. */
  lemma EmptySelectionAlwaysRenders(rows: seq<FileRow>)
    ensures SelectedFiles(rows, {}) == Some([])
  {
    SelectedIndicesCount({}, |rows|);
    assert Below({}, |rows|) == {};
  }

  // ----------------------------------------------------------------- state

  /** Home's page cursor. */
  class HomePage {
    var page: int

    ghost predicate Valid()
      reads this
    {
      page >= 1
    }

    constructor ()
      ensures Valid() && page == 1
    {
      page := 1;
    }

    /** handlePreviousPage: one page back, never below the first. */
    method PreviousPage()
      requires Valid()
      modifies this
      ensures Valid()
      ensures page == if CanGoPrevious(old(page)) then old(page) - 1 else old(page)
    {
      if page > 1 {
        page := page - 1;
      }
    }

    /** handleNextPage: one page forward while the page is below totalPages. */
    method NextPage(listing: Option<Listing>)
      requires Valid()
      modifies this
      ensures Valid()
      ensures page == if CanGoNext(old(page), TotalPages(listing)) then old(page) + 1 else old(page)
    {
      if CanGoNext(page, TotalPages(listing)) {
        page := page + 1;
      }
    }

    /** A click on the link at `index` of the rendered bar: go to its page. */
    method GoToLink(listing: Option<Listing>, index: nat)
      requires Valid()
      requires index < |PageLinks(page, TotalPages(listing))|
      modifies this
      ensures Valid()
      ensures page == old(PageLinks(page, TotalPages(listing)))[index].number
    {
      var links := PageLinks(page, TotalPages(listing));
      page := links[index].number;
    }
  }

  /** FilesTable's own state: the row selection and the delete dialog. */
  class FilesTable {
    var rowSelection: set<nat>
    var fileToDelete: Option<FileRow>
    var deleteDialogOpen: bool

    /**
     * Once effects have run, a pending single file implies an open dialog:
     * the pending file is set only together with opening the dialog, and the
     * close effect clears it, so a later bulk delete never sends a stale file.
     */
    ghost predicate Valid()
      reads this
    {
      fileToDelete.Some? ==> deleteDialogOpen
    }

    constructor ()
      ensures Valid()
      ensures rowSelection == {} && fileToDelete == None && !deleteDialogOpen
    {
      rowSelection := {};
      fileToDelete := None;
      deleteDialogOpen := false;
    }

    /** A row's checkbox changes: its index is added to or removed from the selection. */
    method ToggleRow(index: nat, value: bool)
      requires Valid()
      modifies this
      ensures Valid()
      ensures rowSelection == if value then old(rowSelection) + {index} else old(rowSelection) - {index}
      ensures fileToDelete == old(fileToDelete) && deleteDialogOpen == old(deleteDialogOpen)
    {
      if value {
        rowSelection := rowSelection + {index};
      } else {
        rowSelection := rowSelection - {index};
      }
    }

    /** handleSelectAll: every row of the page becomes selected. */
    method SelectAll(rows: seq<FileRow>)
      requires Valid()
      modifies this
      ensures Valid()
      ensures rowSelection == AllRows(|rows|)
      ensures fileToDelete == old(fileToDelete) && deleteDialogOpen == old(deleteDialogOpen)
    {
      rowSelection := SelectAllRows(|rows|);
    }

    /** handleUnselectAll: the selection becomes empty. */
    method UnselectAll()
      requires Valid()
      modifies this
      ensures Valid()
      ensures rowSelection == {}
      ensures fileToDelete == old(fileToDelete) && deleteDialogOpen == old(deleteDialogOpen)
    {
      rowSelection := {};
    }

    /** The bulk bar's checkbox changes: select all when indeterminate, else unselect all. */
    method BulkCheckboxChanged(rows: seq<FileRow>)
      requires Valid()
      modifies this
      ensures Valid()
      ensures rowSelection == BulkCheckboxSelection(old(rowSelection), |rows|)
      ensures fileToDelete == old(fileToDelete) && deleteDialogOpen == old(deleteDialogOpen)
    {
      if HeaderCheckbox(|rowSelection|, |rows|) == Indeterminate {
        SelectAll(rows);
      } else {
        UnselectAll();
      }
    }

    /** A row's Delete menu item: remember that row and open the dialog. */
    method AskDeleteRow(row: FileRow)
      requires Valid()
      modifies this
      ensures Valid()
      ensures fileToDelete == Some(row) && deleteDialogOpen
      ensures rowSelection == old(rowSelection)
    {
      fileToDelete := Some(row);
      deleteDialogOpen := true;
    }

    /** The bulk bar's Delete button: open the dialog. */
    method AskDeleteSelected()
      requires Valid()
      modifies this
      ensures Valid()
      ensures deleteDialogOpen
      ensures fileToDelete == old(fileToDelete) && rowSelection == old(rowSelection)
    {
      deleteDialogOpen := true;
    }

    /** The dialog is dismissed, then the close effect clears the pending file. */
    method CloseDialog()
      requires Valid()
      modifies this
      ensures Valid()
      ensures !deleteDialogOpen && fileToDelete == None
      ensures rowSelection == old(rowSelection)
    {
      deleteDialogOpen := false;
      // the close effect (Home.tsx:280-282) then clears the pending file
      fileToDelete := None;
    }

    /**
     * The corrected page change: the selection is cleared with it, so the
     * table renders whatever rows arrive, the empty list of a loading page included.
     */
    method PageChanged()
      requires Valid()
      modifies this
      ensures Valid()
      ensures rowSelection == {}
      ensures fileToDelete == old(fileToDelete) && deleteDialogOpen == old(deleteDialogOpen)
      ensures forall rows :: DeleteRequest(rows).Some?
    {
      rowSelection := {};
      forall rows: seq<FileRow> ensures DeleteRequest(rows).Some? {
        EmptySelectionAlwaysRenders(rows);
      }
    }

    /** The ids handleDelete sends; None when the table cannot render because a selected index has no row. */
    function DeleteRequest(rows: seq<FileRow>): (ids: Option<seq<Id>>)
      reads this
      ensures ids.None? <==> !InRange(rowSelection, |rows|)
      ensures ids.Some? && fileToDelete.Some? ==> ids.value == [fileToDelete.value.id]
      ensures ids.Some? && fileToDelete.None? ==> ids.value == SelectedFiles(rows, rowSelection).value
      ensures ids.Some? && fileToDelete.None? ==> |ids.value| == |rowSelection|
    {
      var selected := SelectedFiles(rows, rowSelection);
      if selected.None? then None else Some(DeleteTargets(fileToDelete, selected.value))
    }

    /**
     * The delete succeeded: the dialog closes, a bulk delete clears the
     * selection, and the toast counts one file or the selected ones; then the
     * close effect clears the pending file.
     */
    method DeleteSucceeded(rows: seq<FileRow>) returns (reported: nat)
      requires Valid()
      requires InRange(rowSelection, |rows|)
      modifies this
      ensures Valid()
      ensures !deleteDialogOpen && fileToDelete == None
      ensures rowSelection == if old(fileToDelete).None? then {} else old(rowSelection)
      ensures reported == if old(fileToDelete).Some? then 1 else |old(rowSelection)|
    {
      var selected := SelectedFiles(rows, rowSelection).value;
      deleteDialogOpen := false;
      if fileToDelete.None? {
        rowSelection := {};
      }
      reported := if fileToDelete.Some? then 1 else |selected|;
      // the close effect (Home.tsx:280-282) then clears the pending file
      fileToDelete := None;
    }
  }

  /** Paging over 45 files, and a selection across a page change, as a client of the HomePage and FilesTable contracts. */
  method PagingScenario()
  {
    var listing := Some(Listing([], 45));
    var home := new HomePage();
    home.PreviousPage();
    assert home.page == 1;
    NextIffMoreRows(1, listing.value);
    home.NextPage(listing);
    assert home.page == 2;
    NextIffMoreRows(2, listing.value);
    home.NextPage(listing);
    assert home.page == 3;
    NextIffMoreRows(3, listing.value);
    home.NextPage(listing);
    assert home.page == 3;

    var table := new FilesTable();
    table.ToggleRow(0, true);
    SelectionBreaksWhileNextPageLoads(Listing([FileRow("a", "a.txt")], 45), table.rowSelection);
    assert SelectedFiles(Rows(None), table.rowSelection).None?;
    table.PageChanged();
    assert table.DeleteRequest(Rows(None)).Some?;
  }

  /** A bulk delete and a single-row delete, as a client of the FilesTable contracts. */
  method DeleteScenario()
  {
    var a, b, c := FileRow("a", "a.txt"), FileRow("b", "b.txt"), FileRow("c", "c.txt");
    var rows := [a, b, c];

    var table := new FilesTable();
    table.ToggleRow(1, true);
    assert HeaderCheckbox(|table.rowSelection|, |rows|) == Indeterminate;
    table.BulkCheckboxChanged(rows);
    assert table.rowSelection == AllRows(3);
    AllRowsCount(3);
    assert HeaderCheckbox(|table.rowSelection|, |rows|) == Checked;
    assert |table.DeleteRequest(rows).value| == 3;

    table.AskDeleteSelected();
    var reported := table.DeleteSucceeded(rows);
    assert reported == 3 && table.rowSelection == {} && !table.deleteDialogOpen;

    table.ToggleRow(0, true);
    table.AskDeleteRow(c);
    assert table.DeleteRequest(rows) == Some(["c"]);
    reported := table.DeleteSucceeded(rows);
    assert reported == 1 && table.rowSelection == {0} && table.fileToDelete == None;
  }
}
