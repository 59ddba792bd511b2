/**
 Page names derived from URL paths, and the rule that marks the navigation
 link of the current page as active.
 */
module Navigation {
  import opened Text

  /** `href.split('/').pop().split('.')[0]`: the part of the last path segment that
      comes before its first `.`. */
  function PageOf(path: string): (page: string)
    ensures '/' !in page && '.' !in page
    ensures |page| <= |path|
  {
    var seg := Last(Split(path, '/'));
    LastPiece(path, '/');
    FirstPiece(seg, '.');
    Split(seg, '.')[0]
  }

  /** getCurrentPage, with `window.location.pathname` passed in: the derived page name,
      or `"index"` when that is empty. The result is never empty and holds neither `/`
      nor `.`. */
  function CurrentPage(path: string): (page: string)
    ensures page != "" && '/' !in page && '.' !in page
    ensures PageOf(path) != "" ==> page == PageOf(path)
    ensures PageOf(path) == "" ==> page == "index"
  {
    var page := PageOf(path);
    if page == "" then "index" else page
  }

  /** PageOf is exactly the text after the last `/` and before the first `.` that
      follows it: `path` ends with that segment, which holds no `/`, is preceded by a
      `/` unless it is all of `path`, and the page is its prefix before any `.`. */
  lemma PageOfIsSegmentPrefix(path: string)
    ensures var seg := Last(Split(path, '/'));
      var page := PageOf(path);
      '/' !in seg && |seg| <= |path| && seg == path[|path| - |seg|..] &&
      (|seg| < |path| ==> path[|path| - |seg| - 1] == '/') &&
      '.' !in page && |page| <= |seg| && page == seg[..|page|] && (|page| < |seg| ==> seg[|page|] == '.')
  {
    LastPiece(path, '/');
    FirstPiece(Last(Split(path, '/')), '.');
  }

  /** A path ending in `/` names the index page. */
  lemma TrailingSlashIsIndex(path: string)
    requires path != [] && path[|path| - 1] == '/'
    ensures CurrentPage(path) == "index"
  {
    PageOfIsSegmentPrefix(path);
  }

  /** After a directory part that is empty or ends with `/`, a segment without `/`
      is what `split('/').pop()` returns. */
  lemma {:induction false} LastSegmentAfterDir(dir: string, seg: string)
    requires dir == "" || dir[|dir| - 1] == '/'
    requires '/' !in seg
    ensures Last(Split(dir + seg, '/')) == seg
  {
    if dir == "" {
      assert dir + seg == seg;
      SplitPlain(seg, '/');
    } else {
      var tail := dir[1..];
      assert (dir + seg)[1..] == tail + seg;
      LastSegmentAfterDir(tail, seg);
      var rest := Split(tail + seg, '/');
      if tail != "" {
        assert (tail + seg)[|tail| - 1] == '/';
        JoinSplit(tail + seg, '/');
        assert |rest| >= 2;
      }
    }
  }

  /** A file name whose first `.` starts the extension names the page before it. */
  lemma FileNamePage(dir: string, base: string, ext: string)
    requires dir == "" || dir[|dir| - 1] == '/'
    requires base != "" && '/' !in base && '.' !in base && '/' !in ext
    ensures PageOf(dir + base + "." + ext) == base
    ensures CurrentPage(dir + base + "." + ext) == base
  {
    var seg := base + "." + ext;
    assert dir + base + "." + ext == dir + seg;
    LastSegmentAfterDir(dir, seg);
    SplitCons(base, ext, '.');
  }

  /** The match rule of setActiveNavLink: the index page also claims the links
      `index.html` and `/`; otherwise a link is active when its own page name, derived
      without the `"index"` default, equals the current page. */
  predicate IsActiveLink(currentPage: string, href: string)
    ensures currentPage != "index" ==> (IsActiveLink(currentPage, href) <==> PageOf(href) == currentPage)
    ensures currentPage == "index" ==>
      (IsActiveLink(currentPage, href) <==> href == "index.html" || href == "/" || PageOf(href) == "index")
  {
    (currentPage == "index" && (href == "index.html" || href == "/")) ||
    currentPage == PageOf(href)
  }

  /** A page's own link is active on it, and a link with no page name of its own
      (such as `/` or `docs/`) is active only as the index page's `/`. */
  lemma OwnLinkActive(href: string)
    ensures PageOf(href) != "" ==> IsActiveLink(CurrentPage(href), href)
    ensures PageOf(href) == "" ==>
      (IsActiveLink(CurrentPage(href), href) <==> href == "/")
  {
    FileNamePage("", "index", "html");
    assert "" + "index" + "." + "html" == "index.html";
  }

  /** setActiveNavLink: every link's flag is cleared and then set by the match rule
      alone, so no flag from an earlier page survives. */
  method SetActiveNavLinks(path: string, hrefs: seq<string>, active: array<bool>)
    requires active.Length == |hrefs|
    modifies active
    ensures forall i :: 0 <= i < |hrefs| ==> active[i] == IsActiveLink(CurrentPage(path), hrefs[i])
  {
    var currentPage := CurrentPage(path);
    for i := 0 to |hrefs|
      invariant forall j :: 0 <= j < i ==> active[j] == IsActiveLink(currentPage, hrefs[j])
    {
      active[i] := false;
      var linkPage := PageOf(hrefs[i]);
      if (currentPage == "index" && (hrefs[i] == "index.html" || hrefs[i] == "/")) ||
         currentPage == linkPage
      {
        active[i] := true;
      }
    }
  }
}
