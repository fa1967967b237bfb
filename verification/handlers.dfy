/**
 * The action dispatcher: the four handlers (main.go:136-211) and the
 * request path through `makeHandler` (main.go:126-133). Each handler's
 * result is the sequence of response calls it makes, in order: a redirect,
 * a template rendered with a page, a 404, or a 500.
 */
module Handlers {
  import opened Results
  import opened Router
  import opened Pages
  import opened PageStore

  /** The three templates: edit.html, view.html and search.html. */
  datatype Template = EditTemplate | ViewTemplate | SearchTemplate

  /** One response call a handler makes (http.Redirect, a render, http.NotFound, http.Error). */
  datatype Reply =
    | Redirect(location: string)
    | Render(template: Template, page: Page)
    | NotFound
    | InternalError

  /** The driver's behaviour during one request, per store operation. */
  datatype Faults = Faults(load: bool, save: SaveFaults, search: SearchFault)

  /** A request during which the database behaves. */
  const NoFaults := Faults(false, SaveFaults(false, false), NoFault)

  /**
   * `viewHandler`: render the stored page, or, on any load error (a missing
   * page or a driver failure alike), redirect to the edit page of the same
   * title.
   */
  function ViewHandler(store: Store, title: string, loadFails: bool): (r: seq<Reply>)
    reads store
    ensures loadFails || !HasTitle(store.rows, title) <==> r == [Redirect("/edit/" + title)]
    ensures !loadFails && HasTitle(store.rows, title) ==>
              exists i :: 0 <= i < |store.rows| && store.rows[i].title == title &&
                r == [Render(ViewTemplate, Page(title, store.rows[i].body, 0, []))]
  {
    match store.Load(title, loadFails)
    case Failure(_) => [Redirect("/edit/" + title)]
    case Success(p) => [Render(ViewTemplate, p)]
  }

  /**
   * `editHandler`: render the edit form with the stored page, or, on any
   * load error, with an empty page of that title.
   */
  function EditHandler(store: Store, title: string, loadFails: bool): (r: seq<Reply>)
    reads store
    ensures loadFails || !HasTitle(store.rows, title) ==>
              r == [Render(EditTemplate, Page(title, "", 0, []))]
    ensures !loadFails && HasTitle(store.rows, title) ==>
              exists i :: 0 <= i < |store.rows| && store.rows[i].title == title &&
                r == [Render(EditTemplate, Page(title, store.rows[i].body, 0, []))]
  {
    match store.Load(title, loadFails)
    case Failure(_) => [Render(EditTemplate, Page(title, "", 0, []))]
    case Success(p) => [Render(EditTemplate, p)]
  }

  /**
   * `saveHandler`: save the submitted body under the title and redirect to
   * its view page. After a failed save it calls http.Error and then still
   * calls http.Redirect, since nothing returns in between.
   */
  method SaveHandler(store: Store, title: string, form: string, faults: SaveFaults) returns (r: seq<Reply>)
    requires store.Valid()
    modifies store
    ensures store.Valid()
    ensures r == (if faults.writeFails then [InternalError] else []) + [Redirect("/view/" + title)]
    ensures faults.writeFails ==> store.rows == old(store.rows) && store.nextId == old(store.nextId)
    ensures !faults.writeFails && !faults.lookupFails ==>
              store.rows == Upsert(old(store.rows), title, form, old(store.nextId)) &&
              store.nextId == NextIdAfter(old(store.rows), title, old(store.nextId))
    ensures !faults.writeFails && faults.lookupFails ==>
              store.rows == SetBody(old(store.rows), title, form) && store.nextId == old(store.nextId)
  {
    var err := store.Save(Page(title, form, 0, []), faults);
    r := [];
    if err.Some? {
      r := r + [InternalError];
    }
    r := r + [Redirect("/view/" + title)];
  }

  /** The titles of the given rows, in order. */
  function Titles(rows: seq<Row>): (r: seq<string>)
    ensures |r| == |rows|
    ensures forall j :: 0 <= j < |rows| ==> r[j] == rows[j].title
  {
    if rows == [] then [] else [rows[0].title] + Titles(rows[1..])
  }

  /**
   * The page the search template receives: titled "search", no body, and
   * as links the titles of the matching rows in table order, or no links
   * at all when the search failed.
   */
  function SearchResultPage(rows: seq<Row>, text: string, fault: SearchFault): (p: Page)
    ensures p.title == "search" && p.body == "" && p.pageId == 0
    ensures var hits := Matching(rows, text);
            SearchSucceeds(fault, |hits|) ==>
              |p.links| == |hits| && forall j :: 0 <= j < |hits| ==> p.links[j] == hits[j].title
    ensures !SearchSucceeds(fault, |Matching(rows, text)|) ==> p.links == []
  {
    var hits := Matching(rows, text);
    Page("search", "", 0, if SearchSucceeds(fault, |hits|) then Titles(hits) else [])
  }

  /**
   * `searchHandler`: search for the submitted text and render the titles
   * found. The title from the path is ignored, and a failed search is
   * swallowed: it renders an empty list of links.
   */
  method SearchHandler(store: Store, title: string, text: string, fault: SearchFault) returns (r: seq<Reply>)
    ensures r == [Render(SearchTemplate, SearchResultPage(store.rows, text, fault))]
  {
    var results := store.Search(text, fault);
    var found := if results.Success? then results.value else [];
    var links: seq<string> := [];
    for k := 0 to |found|
      invariant |links| == k
      invariant forall j :: 0 <= j < k ==> links[j] == found[j].title
    {
      links := links + [found[k].title];
    }
    var hits := Matching(store.rows, text);
    if results.Success? {
      assert forall j :: 0 <= j < |hits| ==> links[j] == Titles(hits)[j];
      assert links == Titles(hits);
    }
    r := [Render(SearchTemplate, Page("search", "", 0, links))];
  }

  /**
   * A request: decode the path as `makeHandler` does, answer 404 when it
   * does not decode, and otherwise run the handler for its action with the
   * decoded title. The form's "body" field is the saved body or the search
   * text. Only save changes the store.
   */
  method Serve(store: Store, path: string, form: string, faults: Faults) returns (r: seq<Reply>)
    requires store.Valid()
    modifies store
    ensures store.Valid()
    ensures Route(path).None? ==> r == [NotFound]
    ensures Route(path).None? || Route(path).value.action != Save ==>
              store.rows == old(store.rows) && store.nextId == old(store.nextId)
    ensures Route(path).Some? ==>
              var t := Route(path).value.token;
              match Route(path).value.action
              case View => r == ViewHandler(store, t, faults.load)
              case Edit => r == EditHandler(store, t, faults.load)
              case Save =>
                && r == (if faults.save.writeFails then [InternalError] else []) + [Redirect("/view/" + t)]
                && (faults.save.writeFails ==>
                      store.rows == old(store.rows) && store.nextId == old(store.nextId))
                && (!faults.save.writeFails && !faults.save.lookupFails ==>
                      store.rows == Upsert(old(store.rows), t, form, old(store.nextId)) &&
                      store.nextId == NextIdAfter(old(store.rows), t, old(store.nextId)))
                && (!faults.save.writeFails && faults.save.lookupFails ==>
                      store.rows == SetBody(old(store.rows), t, form) && store.nextId == old(store.nextId))
              case Search => r == [Render(SearchTemplate, SearchResultPage(store.rows, form, faults.search))]
  {
    match Route(path)
    case None =>
      r := [NotFound];
    case Some(req) =>
      match req.action
      case View =>
        r := ViewHandler(store, req.token, faults.load);
      case Edit =>
        r := EditHandler(store, req.token, faults.load);
      case Save =>
        r := SaveHandler(store, req.token, form, faults.save);
      case Search =>
        r := SearchHandler(store, req.token, form, faults.search);
  }

  /** Viewing a title that was never saved redirects to its edit page and changes nothing. */
  method ViewUnsavedTitle(store: Store, title: string) returns (r: seq<Reply>)
    requires store.Valid() && IsToken(title) && !HasTitle(store.rows, title)
    modifies store
    ensures r == [Redirect("/edit/" + title)]
    ensures store.rows == old(store.rows) && store.nextId == old(store.nextId)
  {
    RouteComplete(Request(View, title));
    assert PathOf(Request(View, title)) == "/view/" + title;
    r := Serve(store, "/view/" + title, "", NoFaults);
  }

  /** After a successful save of (title, body), viewing the title renders that body. */
  method SaveThenView(store: Store, title: string, body: string) returns (saved: seq<Reply>, viewed: seq<Reply>)
    requires store.Valid() && IsToken(title)
    modifies store
    ensures saved == [Redirect("/view/" + title)]
    ensures viewed == [Render(ViewTemplate, Page(title, body, 0, []))]
  {
    ghost var before, next := store.rows, store.nextId;
    var savePath, viewPath := "/save/" + title, "/view/" + title;
    RouteComplete(Request(Save, title));
    assert Route(savePath) == Some(Request(Save, title)) by {
      assert PathOf(Request(Save, title)) == savePath;
    }
    saved := Serve(store, savePath, body, NoFaults);
    assert store.rows == Upsert(before, title, body, next);
    UpsertRoundTrip(before, title, body, next);
    assert store.Load(title, false) == Success(Page(title, body, 0, []));
    RouteComplete(Request(View, title));
    assert Route(viewPath) == Some(Request(View, title)) by {
      assert PathOf(Request(View, title)) == viewPath;
    }
    viewed := Serve(store, viewPath, "", NoFaults);
  }
}
