/**
 * The page store: the shared `pages` table behind the global `db` handle
 * (main.go:16) and the three operations the handlers call on it,
 * `loadPage` (main.go:84-101), `Page.save` (main.go:37-53) and `search`
 * (main.go:55-81).
 *
 * The database driver is not part of this model. Whether a statement fails
 * (connectivity, a bad scan) is an input to each operation, so every error
 * path the source has can be reached and stated.
 */
module PageStore {
  import opened Results
  import opened Pages

  /** The two kinds of failure the core tells apart. */
  datatype StoreError = NoSuchPage(title: string) | DriverFailure

  /** How the driver behaves during one save: the SELECT's scan, then the INSERT or UPDATE. */
  datatype SaveFaults = SaveFaults(lookupFails: bool, writeFails: bool)

  /**
   * How the driver behaves during one search: the query itself fails, the
   * scan of the result row at a given position fails, or the iteration
   * reports an error once the rows run out.
   */
  datatype SearchFault = NoFault | QueryFault | ScanFault(at: nat) | IterationFault

  /** A search with `hits` result rows succeeds when no fault reaches the caller. */
  predicate SearchSucceeds(fault: SearchFault, hits: nat)
  {
    fault.NoFault? || (fault.ScanFault? && hits <= fault.at)
  }

  /** A result row scanned into a page: id, title and body, no links. */
  function ScanRow(row: Row): Page
  {
    Page(row.title, row.body, row.id, [])
  }

  /**
   * A list scanned from the search rows, one page per row in order, holds a
   * page for every row whose title or body contains the text, and nothing
   * else.
   */
  lemma SearchResultsAreTheHits(rows: seq<Row>, text: string, pages: seq<Page>)
    requires |pages| == |Matching(rows, text)|
    requires forall j :: 0 <= j < |pages| ==> pages[j] == ScanRow(Matching(rows, text)[j])
    ensures forall row :: row in rows && Hit(row, text) ==> ScanRow(row) in pages
    ensures forall page :: page in pages ==>
              page.links == [] && Row(page.pageId, page.title, page.body) in rows &&
              Hit(Row(page.pageId, page.title, page.body), text)
  {
  }

  class Store {
    /** The table in its storage order. */
    var rows: seq<Row>
    /** The id the auto-increment column hands to the next inserted row. */
    var nextId: int

    ghost predicate Valid()
      reads this
    {
      WellFormed(rows, nextId)
    }

    /** An empty table whose auto-increment counter starts at 1. */
    constructor ()
      ensures Valid() && rows == [] && nextId == 1
    {
      rows := [];
      nextId := 1;
    }

    /**
     * `loadPage`: the page stored under exactly `title`. A missing row is
     * NoSuchPage; any other scan error is a DriverFailure. A loaded page
     * carries the requested title, the stored body and a zero id.
     */
    function Load(title: string, fails: bool): (r: Result<Page, StoreError>)
      reads this
      ensures r.Success? <==> !fails && HasTitle(rows, title)
      ensures r.Failure? ==> r.error == if fails then DriverFailure else NoSuchPage(title)
      ensures r.Success? ==> r.value.title == title && r.value.pageId == 0 && r.value.links == []
      ensures r.Success? ==> exists i :: 0 <= i < |rows| && rows[i] == Row(rows[i].id, title, r.value.body)
      ensures r.Success? && Valid() ==>
                forall i :: 0 <= i < |rows| && rows[i].title == title ==> rows[i].body == r.value.body
    {
      if fails then Failure(DriverFailure)
      else match Find(rows, title)
        case None => Failure(NoSuchPage(title))
        case Some(i) => Success(Page(title, rows[i].body, 0, []))
    }

    /**
     * `Page.save`: look the title up, then INSERT a new row if the lookup
     * reported no rows, and UPDATE the body by title otherwise. Any other
     * lookup error also takes the UPDATE branch. A failed write is reported
     * and changes nothing. The page passed in is a value and is not changed.
     */
    method Save(p: Page, faults: SaveFaults) returns (err: Option<StoreError>)
      requires Valid()
      modifies this
      ensures Valid()
      ensures err.Some? <==> faults.writeFails
      ensures err.Some? ==> err.value == DriverFailure
      ensures faults.writeFails ==> rows == old(rows) && nextId == old(nextId)
      ensures !faults.writeFails && !faults.lookupFails ==>
                rows == Upsert(old(rows), p.title, p.body, old(nextId)) &&
                nextId == NextIdAfter(old(rows), p.title, old(nextId))
      ensures !faults.writeFails && faults.lookupFails ==>
                rows == SetBody(old(rows), p.title, p.body) && nextId == old(nextId)
    {
      // row.Scan(...) == sql.ErrNoRows
      var noRows := !faults.lookupFails && Find(rows, p.title).None?;
      if faults.writeFails {
        err := Some(DriverFailure);
      } else if noRows {
        // INSERT INTO pages (title, body) VALUES (?, ?)
        UpsertKeepsWellFormed(rows, nextId, p.title, p.body);
        rows := rows + [Row(nextId, p.title, p.body)];
        nextId := nextId + 1;
        err := None;
      } else {
        // UPDATE pages SET body=? WHERE title=?
        SetBodyKeepsWellFormed(rows, nextId, p.title, p.body);
        rows := SetBody(rows, p.title, p.body);
        err := None;
      }
    }

    /**
     * `search`: the rows whose title or body contains `text`, in table
     * order, each scanned into a page. A failure of the query, of any scan
     * or of the iteration returns an error and no partial list.
     */
    method Search(text: string, fault: SearchFault) returns (r: Result<seq<Page>, StoreError>)
      ensures r.Success? <==> SearchSucceeds(fault, |Matching(rows, text)|)
      ensures r.Failure? ==> r.error == DriverFailure
      ensures r.Success? ==> |r.value| == |Matching(rows, text)|
      ensures r.Success? ==> forall j :: 0 <= j < |r.value| ==> r.value[j] == ScanRow(Matching(rows, text)[j])
    {
      if fault == QueryFault {
        return Failure(DriverFailure);
      }
      var hits := Matching(rows, text);
      var pages: seq<Page> := [];
      var i := 0;
      while i < |hits|
        invariant 0 <= i <= |hits|
        invariant |pages| == i
        invariant forall j :: 0 <= j < i ==> pages[j] == ScanRow(hits[j])
        invariant fault.ScanFault? ==> i <= fault.at
      {
        if fault == ScanFault(i) {
          return Failure(DriverFailure);
        }
        pages := pages + [ScanRow(hits[i])];
        i := i + 1;
      }
      if fault == IterationFault {
        return Failure(DriverFailure);
      }
      r := Success(pages);
    }
  }
}
