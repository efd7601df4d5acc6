/**
 * The admin panel's frame: which sidebar link is highlighted for the current path, and the
 * breadcrumb of the path's first segment.
 */
module AdminLayout {
  import opened Wrappers
  import opened Text

  /** The sidebar's links, top to bottom. */
  const SidebarHrefs: seq<string> := ["/", "/articles", "/categories", "/media", "/settings"]

  /** `isActive(href)`: the root link on the root path only, any other link on every path it prefixes. */
  predicate IsActive(path: string, href: string) {
    if href == "/" then path == "/" else StartsWith(path, href)
  }

  /** The position of the highlighted link, searching from `from` on. */
  function ActiveFrom(path: string, from: nat): (r: Option<nat>)
    requires from <= |SidebarHrefs|
    ensures r.Some? ==> from <= r.value < |SidebarHrefs| && IsActive(path, SidebarHrefs[r.value])
    ensures r.None? <==> forall j :: from <= j < |SidebarHrefs| ==> !IsActive(path, SidebarHrefs[j])
    decreases |SidebarHrefs| - from
  {
    if from == |SidebarHrefs| then None
    else if IsActive(path, SidebarHrefs[from]) then Some(from)
    else ActiveFrom(path, from + 1)
  }

  /** After the leading `/`, the sidebar's hrefs begin with five different characters. */
  lemma HrefsDifferEarly(i: nat, j: nat)
    requires i < j < |SidebarHrefs|
    ensures |SidebarHrefs[i]| >= 1 && SidebarHrefs[i][0] == '/'
    ensures i > 0 ==> |SidebarHrefs[i]| >= 2 && |SidebarHrefs[j]| >= 2 && SidebarHrefs[i][1] != SidebarHrefs[j][1]
    ensures i == 0 ==> |SidebarHrefs[j]| >= 2
  {
  }

  /** For any path at most one sidebar link is highlighted. */
  lemma AtMostOneActive(path: string, i: nat, j: nat)
    requires i < j < |SidebarHrefs|
    ensures !(IsActive(path, SidebarHrefs[i]) && IsActive(path, SidebarHrefs[j]))
  {
    HrefsDifferEarly(i, j);
    var a, b := SidebarHrefs[i], SidebarHrefs[j];
    if i > 0 && StartsWith(path, a) {
      assert path[1] == path[..|a|][1] == a[1];
      assert |b| <= |path| ==> path[..|b|][1] == a[1] != b[1];
    }
  }

  /** An active link is the only active one. */
  lemma OnlyActive(path: string, k: nat)
    requires k < |SidebarHrefs| && IsActive(path, SidebarHrefs[k])
    ensures forall j :: 0 <= j < |SidebarHrefs| && j != k ==> !IsActive(path, SidebarHrefs[j])
  {
    forall j | 0 <= j < |SidebarHrefs| && j != k ensures !IsActive(path, SidebarHrefs[j]) {
      if j < k { AtMostOneActive(path, j, k); } else { AtMostOneActive(path, k, j); }
    }
  }

  /** The highlighted link: the only one active for the path, or none. */
  function ActiveLink(path: string): (r: Option<nat>)
    ensures r.Some? ==> r.value < |SidebarHrefs| && IsActive(path, SidebarHrefs[r.value])
    ensures r.Some? ==> forall j :: 0 <= j < |SidebarHrefs| && j != r.value ==> !IsActive(path, SidebarHrefs[j])
    ensures r.None? <==> forall j :: 0 <= j < |SidebarHrefs| ==> !IsActive(path, SidebarHrefs[j])
  {
    var r := ActiveFrom(path, 0);
    if r.Some? then OnlyActive(path, r.value); r else r
  }

  /** The root link is highlighted on the root path only. */
  lemma RootActiveOnlyAtRoot(path: string)
    ensures ActiveLink(path) == Some(0) <==> path == "/"
  {
    if path == "/" {
      assert IsActive(path, SidebarHrefs[0]);
    }
  }

  /**
   * The match is a plain string prefix: the articles link stays highlighted on every page below
   * it, and also on any path that merely begins with its letters.
   */
  lemma ArticlesActiveBelow(rest: string)
    ensures ActiveLink("/articles" + rest) == Some(1)
  {
    var path := "/articles" + rest;
    assert path[..|"/articles"|] == "/articles";
    assert IsActive(path, SidebarHrefs[1]);
  }

  predicate IsSlash(c: char) {
    c == '/'
  }

  /**
   * The breadcrumb: hidden on the root path, otherwise the piece after the first `/`, or the
   * empty string when the path has no `/`.
   */
  function Breadcrumb(path: string): (r: Option<string>)
    ensures r.None? <==> path == "/"
    ensures r.Some? ==> NoneOf(r.value, IsSlash)
  {
    if path == "/" then None
    else
      var parts := Split(path, IsSlash);
      Some(if |parts| > 1 then parts[1] else "")
  }

  /** The breadcrumb of `/segment`, followed by nothing or by more path, is the segment. */
  lemma {:induction false} BreadcrumbIsFirstSegment(segment: string, rest: string)
    requires NoneOf(segment, IsSlash)
    requires rest == [] || rest[0] == '/'
    requires segment != [] || rest != []
    ensures Breadcrumb("/" + segment + rest) == Some(segment)
  {
    var path := "/" + segment + rest;
    assert path == [] + ['/'] + (segment + rest);
    SplitAtSeparator([], '/', segment + rest, IsSlash);
    if rest == [] {
      assert segment + rest == segment;
      SplitNoSeparator(segment, IsSlash);
    } else {
      assert segment + rest == segment + ['/'] + rest[1..];
      SplitAtSeparator(segment, '/', rest[1..], IsSlash);
    }
  }
}
