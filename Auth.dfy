/** The decision inside `checkAuth()` of `main.js`: a visitor who is not logged in is
    sent to `login.html` unless the current page is public. */
module Auth {
  import opened Strings

  /** Pages reachable without logging in; `""` is the site root (a path ending in `/`). */
  const PublicPages := ["index.html", "login.html", "register.html", ""]

  /** `window.location.pathname.split('/').pop()`. */
  function CurrentPage(pathname: string): (page: string)
    ensures '/' !in page
  {
    var pieces := Split(pathname, '/');
    pieces[|pieces| - 1]
  }

  /** `page` is the text after the last `/` of `pathname` (all of it when there is none). */
  ghost predicate IsLastSegment(pathname: string, page: string) {
    && '/' !in page
    && (pathname == page || exists head :: pathname == head + "/" + page)
  }

  /** `CurrentPage` is the text after the last `/`. */
  lemma {:induction false} CurrentPageIsLastSegment(pathname: string, page: string)
    requires IsLastSegment(pathname, page)
    ensures CurrentPage(pathname) == page
  {
    if pathname == page {
      SplitNoSeparator(page, '/');
    } else {
      var head :| pathname == head + "/" + page;
      LastPieceAfterSeparator(head, '/', page);
    }
  }

  /** Whether `checkAuth` navigates to `login.html`, given the path and the stored
      `isLoggedIn` item (`None` when `localStorage.getItem` returns `null`). */
  /** In terms of the last path segment: redirect exactly when that segment is not a
      public page and the flag is missing or empty. */
  predicate ShouldRedirect(pathname: string, isLoggedIn: Option<string>): (r: bool)
    ensures forall page :: IsLastSegment(pathname, page) ==>
              (r <==> page !in PublicPages && (isLoggedIn.None? || isLoggedIn.value == ""))
  {
    LastSegmentIsCurrentPage(pathname);
    CurrentPage(pathname) !in PublicPages && !Truthy(isLoggedIn)
  }

  /** Every last segment of `pathname` is its current page. */
  lemma LastSegmentIsCurrentPage(pathname: string)
    ensures forall page :: IsLastSegment(pathname, page) ==> CurrentPage(pathname) == page
  {
    forall page | IsLastSegment(pathname, page) ensures CurrentPage(pathname) == page {
      CurrentPageIsLastSegment(pathname, page);
    }
  }

  /** A path that ends in `/` names the root of a directory, which is public. */
  lemma TrailingSlashNeverRedirects(head: string, isLoggedIn: Option<string>)
    ensures !ShouldRedirect(head + "/", isLoggedIn)
  {
    assert head + "/" == head + "/" + "";
    CurrentPageIsLastSegment(head + "/", "");
  }

  /** A set flag never redirects, whatever the page. */
  lemma LoggedInNeverRedirects(pathname: string, flag: string)
    requires flag != ""
    ensures !ShouldRedirect(pathname, Some(flag))
  {
  }

  /** A private page with no flag always redirects. */
  lemma {:induction false} PrivatePageRedirects(head: string, page: string)
    requires '/' !in page && page !in PublicPages
    ensures ShouldRedirect(head + "/" + page, None)
    ensures ShouldRedirect(head + "/" + page, Some(""))
  {
    CurrentPageIsLastSegment(head + "/" + page, page);
  }
}
