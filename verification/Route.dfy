/** The route pattern of wiki.go, `^/(edit|save|view|index)/([a-zA-Z0-9]+)$`.
    `Matches` is the language of the pattern written declaratively; `ParseRoute`
    is a matcher that walks the path, and the lemmas below show that the two
    agree and that the title it extracts (the second submatch) is the one the
    path was built from.
 */
module Route {
  import opened Wrappers

  /** The first group of the pattern. */
  datatype Action = Edit | Save | View | Index

  function ActionName(a: Action): string {
    match a
    case Edit => "edit"
    case Save => "save"
    case View => "view"
    case Index => "index"
  }

  /** The alternation `edit|save|view|index`: the action a path segment names, if any. */
  function ActionOf(segment: string): (r: Option<Action>)
    ensures r.Some? ==> ActionName(r.value) == segment
    ensures forall a :: ActionName(a) == segment ==> r == Some(a)
  {
    if segment == "edit" then Some(Edit)
    else if segment == "save" then Some(Save)
    else if segment == "view" then Some(View)
    else if segment == "index" then Some(Index)
    else None
  }

  /** The character class `[a-zA-Z0-9]`. */
  predicate IsAlnum(c: char) {
    'a' <= c <= 'z' || 'A' <= c <= 'Z' || '0' <= c <= '9'
  }

  /** The second group `[a-zA-Z0-9]+`: a page title. */
  predicate IsTitle(t: string) {
    |t| > 0 && forall i :: 0 <= i < |t| ==> IsAlnum(t[i])
  }

  datatype Route = Route(action: Action, title: string)

  /** The path `/<action>/<title>`. */
  function PathOf(a: Action, t: string): string {
    "/" + ActionName(a) + "/" + t
  }

  /** The paths the anchored pattern accepts. */
  ghost predicate Matches(path: string) {
    exists a, t :: path == PathOf(a, t) && IsTitle(t)
  }

  /** The position of the first `c` in `s`, or `|s|` when there is none. */
  function FindChar(s: string, c: char): (k: nat)
    ensures k <= |s|
    ensures forall i :: 0 <= i < k ==> s[i] != c
    ensures k < |s| ==> s[k] == c
  {
    if |s| == 0 || s[0] == c then 0 else 1 + FindChar(s[1..], c)
  }

  /** The pattern applied to `path` (`validPath.FindStringSubmatch`): the action
      and the title when the whole path matches, nothing otherwise. */
  function ParseRoute(path: string): (r: Option<Route>)
    ensures r.Some? ==> path == PathOf(r.value.action, r.value.title) && IsTitle(r.value.title)
  {
    if |path| == 0 || path[0] != '/' then None
    else
      var rest := path[1..];
      var k := FindChar(rest, '/');
      if k == |rest| then None
      else
        match ActionOf(rest[..k])
        case None => None
        case Some(a) =>
          var t := rest[k + 1..];
          if IsTitle(t) then
            assert rest == rest[..k] + "/" + t;
            assert path == "/" + rest;
            Some(Route(a, t))
          else None
  }

  /** An action name has no slash, so the first slash after it is the separator. */
  lemma FirstSlash(a: Action, t: string)
    ensures FindChar(ActionName(a) + "/" + t, '/') == |ActionName(a)|
  {
    var s := ActionName(a) + "/" + t;
    var n := |ActionName(a)|;
    assert s[n] == '/';
    assert forall i :: 0 <= i < n ==> s[i] == ActionName(a)[i] != '/';
  }

  /** Every path built from an action and a title is accepted, and yields that
      action and that title. */
  lemma ParseRouteComplete(a: Action, t: string)
    requires IsTitle(t)
    ensures ParseRoute(PathOf(a, t)) == Some(Route(a, t))
  {
    var path := PathOf(a, t);
    var rest := ActionName(a) + "/" + t;
    assert path[1..] == rest;
    FirstSlash(a, t);
    var n := |ActionName(a)|;
    assert rest[..n] == ActionName(a);
    assert rest[n + 1..] == t;
  }

  /** A path and the action and title it is built from determine each other. */
  lemma PathOfInjective(a: Action, t: string, b: Action, u: string)
    requires PathOf(a, t) == PathOf(b, u)
    ensures a == b && t == u
  {
    var s, s' := ActionName(a) + "/" + t, ActionName(b) + "/" + u;
    assert s == PathOf(a, t)[1..];
    assert s' == PathOf(b, u)[1..];
    FirstSlash(a, t);
    FirstSlash(b, u);
    var n := |ActionName(a)|;
    assert s[..n] == ActionName(a);
    assert s'[..n] == ActionName(b);
    assert ActionOf(ActionName(a)) == Some(a);
    assert s[n + 1..] == t;
    assert s'[n + 1..] == u;
  }

  /** The matcher accepts exactly the paths of the pattern's language. */
  lemma ParseRouteAccepts(path: string)
    ensures ParseRoute(path).Some? <==> Matches(path)
  {
    if Matches(path) {
      var a, t :| path == PathOf(a, t) && IsTitle(t);
      ParseRouteComplete(a, t);
    }
  }

  /** A path whose title part is not a non-empty run of ASCII letters and digits
      is rejected, whatever the action. */
  lemma NonTitleRejected(a: Action, t: string)
    requires !IsTitle(t)
    ensures ParseRoute(PathOf(a, t)) == None
    ensures !Matches(PathOf(a, t))
  {
    if ParseRoute(PathOf(a, t)).Some? {
      var r := ParseRoute(PathOf(a, t)).value;
      PathOfInjective(a, t, r.action, r.title);
    }
    ParseRouteAccepts(PathOf(a, t));
  }
}
