/**
 * The page entity and the meaning of the SQL statements the store issues
 * against the `pages` table, written as functions over the table's rows in
 * table order:
 *   SELECT * FROM pages WHERE title = ?            -- Find
 *   UPDATE pages SET body=? WHERE title=?          -- SetBody
 *   SELECT * ... WHERE title LIKE ? OR body LIKE ? -- Matching
 * and the upsert that `Page.save` performs with them (Upsert).
 */
module Pages {
  import opened Results

  /**
   * A page as the handlers see it (main.go:19-24). The body is the text the
   * save form submitted; pageId is 0 on a page that did not come from a
   * scanned row; links only carries search results to the search template.
   */
  datatype Page = Page(title: string, body: string, pageId: int, links: seq<string>)

  /** One row of the `pages` table: auto-increment id, title, body. */
  datatype Row = Row(id: int, title: string, body: string)

  /** Some row carries this title. */
  predicate HasTitle(rows: seq<Row>, title: string)
  {
    exists i :: 0 <= i < |rows| && rows[i].title == title
  }

  /** Title is a key: no two rows share one. */
  predicate UniqueTitles(rows: seq<Row>)
  {
    forall i, j :: 0 <= i < j < |rows| ==> rows[i].title != rows[j].title
  }

  /** Ids grow along the table, as an auto-increment column hands them out. */
  predicate IdsIncreasing(rows: seq<Row>)
  {
    forall i, j :: 0 <= i < j < |rows| ==> rows[i].id < rows[j].id
  }

  /**
   * The table invariant: unique titles, positive ids in insertion order, and
   * every id below the next one the counter will hand out.
   */
  predicate WellFormed(rows: seq<Row>, nextId: int)
  {
    && 0 < nextId
    && UniqueTitles(rows)
    && IdsIncreasing(rows)
    && forall i :: 0 <= i < |rows| ==> 0 < rows[i].id < nextId
  }

  /** The first row whose title equals `title` exactly (the row QueryRow scans). */
  function Find(rows: seq<Row>, title: string): (r: Option<nat>)
    ensures r.Some? ==> r.value < |rows| && rows[r.value].title == title
    ensures r.Some? ==> forall j :: 0 <= j < r.value ==> rows[j].title != title
    ensures r.None? <==> !HasTitle(rows, title)
  {
    if rows == [] then None
    else if rows[0].title == title then Some(0)
    else match Find(rows[1..], title)
      case None =>
        assert forall i :: 0 < i < |rows| ==> rows[i] == rows[1..][i - 1];
        None
      case Some(k) => Some(k + 1)
  }

  /** Under unique titles, the row Find returns is the only one with that title. */
  lemma FindIsTheRow(rows: seq<Row>, title: string, i: nat)
    requires UniqueTitles(rows)
    requires i < |rows| && rows[i].title == title
    ensures Find(rows, title) == Some(i)
  {
  }

  /**
   * `UPDATE pages SET body=? WHERE title=?`: every row with that title gets
   * the new body; ids, titles and every other row stay as they were.
   */
  function SetBody(rows: seq<Row>, title: string, body: string): (r: seq<Row>)
    ensures |r| == |rows|
    ensures forall i :: 0 <= i < |rows| ==> r[i].id == rows[i].id && r[i].title == rows[i].title
    ensures forall i :: 0 <= i < |rows| && rows[i].title == title ==> r[i].body == body
    ensures forall i :: 0 <= i < |rows| && rows[i].title != title ==> r[i] == rows[i]
  {
    if rows == [] then []
    else
      var head := if rows[0].title == title then rows[0].(body := body) else rows[0];
      [head] + SetBody(rows[1..], title, body)
  }

  /**
   * What a fault-free `save` does to the table: insert a new row with the
   * next id when the title is absent, otherwise overwrite the body of the
   * rows that carry it.
   */
  function Upsert(rows: seq<Row>, title: string, body: string, id: int): (r: seq<Row>)
    ensures !HasTitle(rows, title) ==> r == rows + [Row(id, title, body)]
    ensures HasTitle(rows, title) ==> |r| == |rows|
    ensures HasTitle(rows, title) ==> forall i :: 0 <= i < |rows| ==>
              r[i].id == rows[i].id && r[i].title == rows[i].title
    ensures HasTitle(rows, title) ==> forall i :: 0 <= i < |rows| ==>
              r[i].body == (if rows[i].title == title then body else rows[i].body)
  {
    if Find(rows, title).None? then rows + [Row(id, title, body)]
    else SetBody(rows, title, body)
  }

  /** The id counter after an upsert: one more when a row was inserted. */
  function NextIdAfter(rows: seq<Row>, title: string, nextId: int): int
  {
    if HasTitle(rows, title) then nextId else nextId + 1
  }

  /** An UPDATE keeps the table invariant. */
  lemma SetBodyKeepsWellFormed(rows: seq<Row>, nextId: int, title: string, body: string)
    requires WellFormed(rows, nextId)
    ensures WellFormed(SetBody(rows, title, body), nextId)
  {
  }

  /** A fault-free save keeps titles unique, ids fresh and increasing. */
  lemma UpsertKeepsWellFormed(rows: seq<Row>, nextId: int, title: string, body: string)
    requires WellFormed(rows, nextId)
    ensures WellFormed(Upsert(rows, title, body, nextId), NextIdAfter(rows, title, nextId))
  {
  }

  /** After a save of (title, body), every row with that title holds body, and there is one. */
  lemma UpsertRoundTrip(rows: seq<Row>, title: string, body: string, id: int)
    ensures HasTitle(Upsert(rows, title, body, id), title)
    ensures var r := Upsert(rows, title, body, id);
            forall i :: 0 <= i < |r| && r[i].title == title ==> r[i].body == body
  {
    var r := Upsert(rows, title, body, id);
    if !HasTitle(rows, title) {
      assert r[|rows|].title == title;
    }
  }

  /** Two UPDATEs of one title leave what the second one wrote. */
  lemma SetBodyTwice(rows: seq<Row>, title: string, b1: string, b2: string)
    ensures SetBody(SetBody(rows, title, b1), title, b2) == SetBody(rows, title, b2)
  {
  }

  /** An UPDATE of a row just inserted for an absent title rewrites only that row. */
  lemma SetBodyOfInserted(rows: seq<Row>, title: string, b1: string, b2: string, id: int)
    requires !HasTitle(rows, title)
    ensures SetBody(rows + [Row(id, title, b1)], title, b2) == rows + [Row(id, title, b2)]
  {
  }

  /**
   * Saving the same title twice is the same as saving it once with the
   * latest body: the second save finds the row the first one made or kept,
   * and overwrites only its body.
   */
  lemma UpsertTwice(rows: seq<Row>, title: string, b1: string, b2: string, id1: int, id2: int)
    ensures Upsert(Upsert(rows, title, b1, id1), title, b2, id2) == Upsert(rows, title, b2, id1)
  {
    UpsertRoundTrip(rows, title, b1, id1);
    if HasTitle(rows, title) {
      SetBodyTwice(rows, title, b1, b2);
    } else {
      SetBodyOfInserted(rows, title, b1, b2, id1);
    }
  }

  /** Saving one title twice on a well-formed table leaves exactly one row for it, holding the latest body. */
  lemma SavedTwiceLeavesOneRow(rows: seq<Row>, nextId: int, title: string, b1: string, b2: string)
    requires WellFormed(rows, nextId)
    ensures var r := Upsert(Upsert(rows, title, b1, nextId), title, b2, NextIdAfter(rows, title, nextId));
            exists i :: 0 <= i < |r| && r[i].title == title && r[i].body == b2 &&
              forall j :: 0 <= j < |r| && r[j].title == title ==> j == i
  {
    var id2 := NextIdAfter(rows, title, nextId);
    UpsertTwice(rows, title, b1, b2, nextId, id2);
    var r := Upsert(rows, title, b2, nextId);
    UpsertKeepsWellFormed(rows, nextId, title, b2);
    UpsertRoundTrip(rows, title, b2, nextId);
    var i :| 0 <= i < |r| && r[i].title == title;
    assert r[i].body == b2;
  }

  // ---------------------------------------------------------------------
  // Search: `title LIKE '%text%' OR body LIKE '%text%'`, read as substring
  // containment.

  predicate StartsWith(s: string, prefix: string)
  {
    |prefix| <= |s| && s[..|prefix|] == prefix
  }

  /** `t` occurs somewhere inside `s` (the empty text occurs everywhere). */
  predicate Contains(s: string, t: string)
    decreases |s|
  {
    StartsWith(s, t) || (|s| > 0 && Contains(s[1..], t))
  }

  /** `t` occurs in `s` starting at position `i`. */
  predicate OccursAt(s: string, t: string, i: nat)
  {
    i + |t| <= |s| && s[i..i + |t|] == t
  }

  /** Contains agrees with the positional definition of a substring. */
  lemma {:induction false} ContainsIff(s: string, t: string)
    ensures Contains(s, t) <==> exists i: nat :: OccursAt(s, t, i)
    decreases |s|
  {
    if Contains(s, t) {
      if StartsWith(s, t) {
        assert OccursAt(s, t, 0);
      } else {
        ContainsIff(s[1..], t);
        var i: nat :| OccursAt(s[1..], t, i);
        assert s[1..][i..i + |t|] == s[i + 1..i + 1 + |t|];
        assert OccursAt(s, t, i + 1);
      }
    }
    if exists i: nat :: OccursAt(s, t, i) {
      var i: nat :| OccursAt(s, t, i);
      if i > 0 {
        assert s[1..][i - 1..i - 1 + |t|] == s[i..i + |t|];
        assert OccursAt(s[1..], t, i - 1);
        ContainsIff(s[1..], t);
      }
    }
  }

  /** The search condition on one row. */
  predicate Hit(row: Row, text: string)
  {
    Contains(row.title, text) || Contains(row.body, text)
  }

  /** The rows the search query returns, in table order. */
  function Matching(rows: seq<Row>, text: string): (r: seq<Row>)
    ensures |r| <= |rows|
    ensures forall row :: row in r <==> row in rows && Hit(row, text)
  {
    if rows == [] then []
    else
      assert rows == [rows[0]] + rows[1..];
      (if Hit(rows[0], text) then [rows[0]] else []) + Matching(rows[1..], text)
  }

  /** The search result keeps table order: its ids still increase. */
  lemma {:induction false} MatchingInTableOrder(rows: seq<Row>, text: string)
    requires IdsIncreasing(rows)
    ensures IdsIncreasing(Matching(rows, text))
  {
    if rows != [] {
      var tail := rows[1..];
      MatchingInTableOrder(tail, text);
      var rest := Matching(tail, text);
      assert forall j :: 0 <= j < |rest| ==> rest[j] in tail;
      assert forall row :: row in tail ==> rows[0].id < row.id;
    }
  }

  /** The empty text matches every row: searching for "" returns the whole table. */
  lemma {:induction false} MatchingEverything(rows: seq<Row>)
    ensures Matching(rows, "") == rows
  {
    if rows != [] {
      assert StartsWith(rows[0].title, "");
      MatchingEverything(rows[1..]);
    }
  }
}
