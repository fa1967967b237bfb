/**
 * The path router: the pattern `^/(edit|save|view|search)/([a-zA-Z0-9]+)$`
 * (main.go:35) as applied by `makeHandler` (main.go:127-132), written as a
 * hand-made predicate and decoder over the request path.
 *
 * Go's `$` without the multi-line flag anchors at the end of the text, so a
 * trailing newline, an extra segment or any character outside the ASCII
 * letters and digits makes the path fail to decode.
 */
module Router {
  import opened Results

  /** The four actions the server registers. */
  datatype Action = Edit | Save | View | Search

  /** A decoded request: the action and the title token handed to its handler. */
  datatype Request = Request(action: Action, token: string)

  /** The path keyword of each action. */
  function ActionName(a: Action): string
  {
    match a
    case Edit => "edit"
    case Save => "save"
    case View => "view"
    case Search => "search"
  }

  /** The action a path keyword names, if any (no case folding). */
  function ParseAction(name: string): (r: Option<Action>)
    ensures r.Some? ==> ActionName(r.value) == name
    ensures r.None? ==> forall a: Action :: ActionName(a) != name
  {
    if name == "edit" then Some(Edit)
    else if name == "save" then Some(Save)
    else if name == "view" then Some(View)
    else if name == "search" then Some(Search)
    else None
  }

  /** The character class `[a-zA-Z0-9]`. */
  predicate IsAlnum(c: char)
  {
    ('a' <= c <= 'z') || ('A' <= c <= 'Z') || ('0' <= c <= '9')
  }

  /** The group `([a-zA-Z0-9]+)`: one or more ASCII letters or digits. */
  predicate IsToken(s: string)
  {
    |s| > 0 && forall i :: 0 <= i < |s| ==> IsAlnum(s[i])
  }

  predicate NoSlash(s: string)
  {
    forall i :: 0 <= i < |s| ==> s[i] != '/'
  }

  /** The path a request is served under. */
  function PathOf(req: Request): string
  {
    "/" + ActionName(req.action) + "/" + req.token
  }

  /** The index of the first '/' in `s`, if there is one. */
  function FirstSlash(s: string): (r: Option<nat>)
    ensures r.Some? ==> r.value < |s| && s[r.value] == '/' && NoSlash(s[..r.value])
    ensures r.None? ==> NoSlash(s)
  {
    if s == [] then None
    else if s[0] == '/' then Some(0)
    else match FirstSlash(s[1..])
      case None => None
      case Some(k) =>
        assert s[..k + 1] == [s[0]] + s[1..][..k];
        Some(k + 1)
  }

  /**
   * Decodes a request path. Only a path of the exact form
   * "/" + action + "/" + token decodes; the result carries that action and
   * that token.
   */
  function Route(path: string): (r: Option<Request>)
    ensures r.Some? ==> PathOf(r.value) == path && IsToken(r.value.token)
  {
    if |path| == 0 || path[0] != '/' then None
    else
      var rest := path[1..];
      match FirstSlash(rest)
      case None => None
      case Some(k) =>
        var name, token := rest[..k], rest[k + 1..];
        match ParseAction(name)
        case None => None
        case Some(a) =>
          if IsToken(token) then
            assert path == "/" + name + "/" + token by {
              assert rest == name + "/" + token;
            }
            Some(Request(a, token))
          else None
  }

  lemma NamesHaveNoSlash(a: Action)
    ensures NoSlash(ActionName(a))
  {
  }

  /** A path built from a slash-free keyword splits back at its first slash. */
  lemma {:induction false} SplitAtKeyword(name: string, token: string)
    requires NoSlash(name)
    ensures FirstSlash(name + "/" + token) == Some(|name|)
  {
    var s := name + "/" + token;
    assert s[|name|] == '/';
    assert forall j :: 0 <= j < |name| ==> s[j] == name[j];
  }

  /** Every request with a valid token is accepted under its own path. */
  lemma {:induction false} RouteComplete(req: Request)
    requires IsToken(req.token)
    ensures Route(PathOf(req)) == Some(req)
  {
    var name := ActionName(req.action);
    var path := PathOf(req);
    NamesHaveNoSlash(req.action);
    assert path[1..] == name + "/" + req.token;
    SplitAtKeyword(name, req.token);
    assert path[1..][..|name|] == name;
    assert path[1..][|name| + 1..] == req.token;
  }

  /**
   * The decoder and the pattern agree: a path decodes to `req` exactly when
   * it is "/" + action + "/" + token with a non-empty alphanumeric token.
   */
  lemma RouteIff(path: string, req: Request)
    ensures Route(path) == Some(req) <==> path == PathOf(req) && IsToken(req.token)
  {
    if path == PathOf(req) && IsToken(req.token) {
      RouteComplete(req);
    }
  }

  /** Two keyword paths are equal only when their keywords and tokens are. */
  lemma {:induction false} SplitUnique(n1: string, t1: string, n2: string, t2: string)
    requires NoSlash(n1) && NoSlash(n2)
    requires "/" + n1 + "/" + t1 == "/" + n2 + "/" + t2
    ensures n1 == n2 && t1 == t2
  {
    var p := "/" + n1 + "/" + t1;
    assert p[1..] == n1 + "/" + t1;
    assert p[1..] == n2 + "/" + t2;
    SplitAtKeyword(n1, t1);
    SplitAtKeyword(n2, t2);
    assert (n1 + "/" + t1)[..|n1|] == n1;
    assert (n2 + "/" + t2)[..|n2|] == n2;
    assert (n1 + "/" + t1)[|n1| + 1..] == t1;
    assert (n2 + "/" + t2)[|n2| + 1..] == t2;
  }

  /** A path of the form "/" + keyword + "/" + rest names only that keyword and that rest. */
  lemma PathDetermines(name: string, t: string)
    requires NoSlash(name)
    ensures forall req: Request :: PathOf(req) == "/" + name + "/" + t ==>
              ActionName(req.action) == name && req.token == t
  {
    forall req: Request | PathOf(req) == "/" + name + "/" + t
      ensures ActionName(req.action) == name && req.token == t
    {
      NamesHaveNoSlash(req.action);
      SplitUnique(name, t, ActionName(req.action), req.token);
    }
  }

  /**
   * A known action followed by anything that is not a token (empty, with an
   * extra "/" segment, with a space or any other non-alphanumeric character)
   * does not decode.
   */
  lemma RejectsBadToken(a: Action, t: string)
    requires !IsToken(t)
    ensures Route("/" + ActionName(a) + "/" + t) == None
  {
    NamesHaveNoSlash(a);
    PathDetermines(ActionName(a), t);
  }

  /** A keyword that names no action does not decode, whatever follows it. */
  lemma RejectsUnknownAction(name: string, t: string)
    requires forall a: Action :: ActionName(a) != name
    ensures Route("/" + name + "/" + t) == None
  {
    match FirstSlash(name)
    case None =>
      PathDetermines(name, t);
    case Some(k) =>
      // the path splits at the slash inside `name`; what follows holds a slash
      var rest := name[k + 1..] + "/" + t;
      assert "/" + name + "/" + t == "/" + name[..k] + "/" + rest by {
        assert name == name[..k] + "/" + name[k + 1..];
      }
      PathDetermines(name[..k], rest);
      assert rest[|name| - k - 1] == '/';
  }

  /** `$` anchors at the end of the text: a trailing newline is never accepted. */
  lemma RejectsTrailingNewline(path: string)
    ensures Route(path + "\n") == None
  {
    forall req: Request | PathOf(req) == path + "\n"
      ensures !IsToken(req.token)
    {
      var tok := req.token;
      if |tok| > 0 {
        assert tok[|tok| - 1] == PathOf(req)[|PathOf(req)| - 1];
      }
    }
  }

  /** The example paths: one accepted, four rejected. */
  lemma AcceptsExample()
    ensures Route("/view/Abc123") == Some(Request(View, "Abc123"))
  {
    assert IsToken("Abc123");
    RouteComplete(Request(View, "Abc123"));
  }

  lemma RejectsSpaceExample()
    ensures Route("/view/Abc 123") == None
  {
    assert !IsAlnum("Abc 123"[3]);
    RejectsBadToken(View, "Abc 123");
    assert "/view/Abc 123" == "/" + ActionName(View) + "/" + "Abc 123";
  }

  lemma RejectsUnknownExample()
    ensures Route("/foo/Abc") == None
  {
    RejectsUnknownAction("foo", "Abc");
    assert "/foo/Abc" == "/" + "foo" + "/" + "Abc";
  }

  lemma RejectsEmptyExample()
    ensures Route("/view/") == None
  {
    RejectsBadToken(View, "");
    assert "/view/" == "/" + ActionName(View) + "/" + "";
  }

  lemma RejectsExtraSegmentExample()
    ensures Route("/view/Abc/extra") == None
  {
    assert !IsAlnum("Abc/extra"[3]);
    RejectsBadToken(View, "Abc/extra");
    assert "/view/Abc/extra" == "/" + ActionName(View) + "/" + "Abc/extra";
  }
}
