/**
 * `AccountReview`: the account page listing the user's article reviews. It
 * covers paging, where the list is cut into pages of ten and the redirect
 * after a deletion names a page that still exists, and the deletion a
 * request triggers once its session challenge passes.
 *
 * The review count, the current page and the outcome of the session
 * challenge come from parts of the shop outside this model and are passed
 * in as parameters.
 */
module AccountReview {
  import opened Wrappers
  import opened ReviewStore
  import opened Service

  /** `$itemsPerPage`. */
  const ItemsPerPage: nat := 10

  // ---------------------------------------------------------------------
  // Paging
  // ---------------------------------------------------------------------

  /**
   * `getPagesCount`: the item count divided by the page size, rounded up.
   * The pages cover every item, and the last page is not empty.
   */
  function PagesCount(itemCount: nat, perPage: nat): (n: nat)
    requires perPage > 0
    ensures itemCount <= n * perPage
    ensures n > 0 ==> (n - 1) * perPage < itemCount
  {
    var q := (itemCount + perPage - 1) / perPage;
    var m := (itemCount + perPage - 1) % perPage;
    assert itemCount + perPage - 1 == q * perPage + m;
    assert q > 0 ==> (q - 1) * perPage == q * perPage - perPage;
    q
  }

  /** No smaller number of pages covers all items. */
  lemma PagesCountIsLeast(itemCount: nat, perPage: nat, m: nat)
    requires perPage > 0 && itemCount <= m * perPage
    ensures PagesCount(itemCount, perPage) <= m
  {
    var n := PagesCount(itemCount, perPage);
    if m < n {
      MultiplyMonotone(m, n - 1, perPage);
    }
  }

  lemma MultiplyMonotone(a: nat, b: nat, k: nat)
    requires a <= b
    ensures a * k <= b * k
  {
  }

  /** There are no pages exactly when there are no items. */
  lemma NoPagesIffNoItems(itemCount: nat, perPage: nat)
    requires perPage > 0
    ensures PagesCount(itemCount, perPage) == 0 <==> itemCount == 0
  {
  }

  /**
   * `getArticleReviewList`: the reviews asked for are the window of one page,
   * `ItemsPerPage` reviews starting at `page * ItemsPerPage`.
   */
  function ReviewListWindow(page: nat): (w: (nat, nat))
    ensures w.0 == ItemsPerPage
    ensures page == 0 ==> w.1 == 0
    ensures page > 0 ==> w.1 == ReviewListWindow(page - 1).1 + ItemsPerPage
  {
    (ItemsPerPage, page * ItemsPerPage)
  }

  /** The window of every existing page starts at an item that is there. */
  lemma WindowStartsInsideList(itemCount: nat, page: nat)
    requires page < PagesCount(itemCount, ItemsPerPage)
    ensures ReviewListWindow(page).1 < itemCount
  {
    var n := PagesCount(itemCount, ItemsPerPage);
    MultiplyMonotone(page, n - 1, ItemsPerPage);
  }

  /** Consecutive windows neither overlap nor leave a gap. */
  lemma WindowsTile(page: nat)
    ensures ReviewListWindow(page + 1).1 == ReviewListWindow(page).1 + ReviewListWindow(page).0
  {
  }

  /** The page `getArticleReviewListUrlPath` sends the user to: the current one, or the last when past the end. */
  function ClampedPage(itemCount: nat, actPage: nat): (page: int)
    ensures itemCount == 0 ==> page == -1
    ensures itemCount > 0 ==> 0 <= page < PagesCount(itemCount, ItemsPerPage)
    ensures actPage < PagesCount(itemCount, ItemsPerPage) ==> page == actPage
    ensures actPage >= PagesCount(itemCount, ItemsPerPage) ==> page == PagesCount(itemCount, ItemsPerPage) - 1
  {
    var lastPage := PagesCount(itemCount, ItemsPerPage);
    if actPage >= lastPage then lastPage - 1 else actPage
  }

  // ---------------------------------------------------------------------
  // Decimal page numbers
  // ---------------------------------------------------------------------

  function Digit(d: nat): (c: char)
    requires d < 10
    ensures '0' <= c <= '9'
  {
    ('0' as int + d) as char
  }

  predicate IsDigit(c: char)
  {
    '0' <= c <= '9'
  }

  /** A page number as PHP writes an integer into a string: decimal, with no leading zero. */
  function NatToString(n: nat): (s: string)
    ensures |s| >= 1 && (|s| > 1 ==> s[0] != '0')
    ensures forall i :: 0 <= i < |s| ==> IsDigit(s[i])
  {
    if n < 10 then [Digit(n)]
    else
      var s := NatToString(n / 10) + [Digit(n % 10)];
      assert forall i :: 0 <= i < |s| - 1 ==> s[i] == NatToString(n / 10)[i];
      s
  }

  /** The number a string of decimal digits denotes; `None` for anything else. */
  function ParseNat(s: string): (r: Option<nat>)
    ensures r.Some? ==> s != [] && forall i :: 0 <= i < |s| ==> IsDigit(s[i])
  {
    if s == [] || !IsDigit(s[|s| - 1]) then None
    else
      var d := s[|s| - 1] as int - '0' as int;
      if |s| == 1 then Some(d)
      else match ParseNat(s[..|s| - 1])
        case None => None
        case Some(v) =>
          assert forall i :: 0 <= i < |s| - 1 ==> s[i] == s[..|s| - 1][i];
          Some(v * 10 + d)
  }

  /** Reading a written page number back gives the number. */
  lemma {:induction false} ParseNatToString(n: nat)
    ensures ParseNat(NatToString(n)) == Some(n)
  {
    if n >= 10 {
      var s := NatToString(n);
      assert s[..|s| - 1] == NatToString(n / 10);
      ParseNatToString(n / 10);
    }
  }

  // ---------------------------------------------------------------------
  // The redirect path
  // ---------------------------------------------------------------------

  const ListPath: string := "account_reviewlist"
  const PagedListPath: string := "account_reviewlist?pgNr="

  /**
   * `getArticleReviewListUrlPath`: the list path, with the clamped page as
   * `pgNr` when that page is past the first.
   */
  function ArticleReviewListUrlPath(itemCount: nat, actPage: nat): (r: string)
    ensures r == ListPath <==> actPage == 0 || PagesCount(itemCount, ItemsPerPage) <= 1
    ensures r != ListPath ==>
              var page := ClampedPage(itemCount, actPage);
              1 <= page < PagesCount(itemCount, ItemsPerPage) &&
              (page == actPage || actPage >= PagesCount(itemCount, ItemsPerPage)) &&
              r == PagedListPath + NatToString(page)
  {
    var currentPage := ClampedPage(itemCount, actPage);
    if currentPage > 0 then
      var r := PagedListPath + NatToString(currentPage);
      assert r[|ListPath|] == '?';
      r
    else ListPath
  }

  /** The page a list path names, if it names one. */
  function PageOfPath(path: string): Option<nat>
  {
    if |PagedListPath| <= |path| && path[..|PagedListPath|] == PagedListPath then ParseNat(path[|PagedListPath|..])
    else None
  }

  /**
   * A redirect path that names a page names one that exists and is not the
   * first: the current page when it exists, the last page otherwise.
   */
  lemma EmittedPageInRange(itemCount: nat, actPage: nat, p: nat)
    requires PageOfPath(ArticleReviewListUrlPath(itemCount, actPage)) == Some(p)
    ensures 1 <= p < PagesCount(itemCount, ItemsPerPage)
    ensures p == actPage || (actPage >= PagesCount(itemCount, ItemsPerPage) && p == PagesCount(itemCount, ItemsPerPage) - 1)
  {
    var r := ArticleReviewListUrlPath(itemCount, actPage);
    if r != ListPath {
      var page := ClampedPage(itemCount, actPage);
      assert r[|PagedListPath|..] == NatToString(page);
      assert r[..|PagedListPath|] == PagedListPath;
      ParseNatToString(page);
    }
  }

  /** 20 reviews, page 2 asked for: it is past the end, so the redirect is to page 1. */
  lemma PastTheEndVector()
    ensures ArticleReviewListUrlPath(20, 2) == "account_reviewlist?pgNr=1"
  {
    assert PagesCount(20, ItemsPerPage) == 2;
    assert NatToString(1) == "1";
  }

  /** No reviews left: the bare list path, whatever page was asked for. */
  lemma EmptyListVector(actPage: nat)
    ensures ClampedPage(0, actPage) == -1
    ensures ArticleReviewListUrlPath(0, actPage) == "account_reviewlist"
  {
  }

  // ---------------------------------------------------------------------
  // The controller
  // ---------------------------------------------------------------------

  /**
   * `deleteArticleReviewAndRating` from a database state: the deletion runs
   * only when the session challenge passes. An exception of the service
   * propagates; otherwise the path to the list is returned, computed on the
   * review count after the deletion.
   */
  function DeleteAndRedirect(challengeOk: bool, user: Id, shopId: int, review: Review, s: DbState,
                             fault: Option<Fault>, countReviews: Store -> nat, actPage: nat)
    : (Result<string, Error>, DbState)
  {
    if !challengeOk then (Success(ArticleReviewListUrlPath(countReviews(s.store), actPage)), s)
    else
      var d := Deletion(user, shopId, review, s, fault);
      if d.0.Fail? then (Failure(d.0.error), d.1)
      else (Success(ArticleReviewListUrlPath(countReviews(d.1.store), actPage)), d.1)
  }

  /** A failed session challenge deletes nothing and redirects to the list as it stands. */
  lemma ChallengeGuardsDeletion(challengeOk: bool, user: Id, shopId: int, review: Review, s: DbState,
                                fault: Option<Fault>, countReviews: Store -> nat, actPage: nat)
    requires !challengeOk
    ensures DeleteAndRedirect(challengeOk, user, shopId, review, s, fault, countReviews, actPage) ==
            (Success(ArticleReviewListUrlPath(countReviews(s.store), actPage)), s)
  {
  }

  /** The request fails exactly when the challenge passes and the deletion throws, with the deletion's error. */
  lemma DeleteAndRedirectFailsIff(challengeOk: bool, user: Id, shopId: int, review: Review, s: DbState,
                                  fault: Option<Fault>, countReviews: Store -> nat, actPage: nat)
    ensures var r := DeleteAndRedirect(challengeOk, user, shopId, review, s, fault, countReviews, actPage).0;
            var d := Deletion(user, shopId, review, s, fault).0;
            (r.Failure? <==> challengeOk && d.Fail?) && (r.Failure? ==> r.error == d.error)
  {
  }

  /**
   * With the challenge passed and the deletion completed, the redirect is
   * computed for the store without the review.
   */
  lemma RedirectAfterDeletion(user: Id, shopId: int, review: Review, s: DbState,
                              fault: Option<Fault>, countReviews: Store -> nat, actPage: nat)
    requires s.saved.None? && Deletion(user, shopId, review, s, fault).0.Pass?
    ensures DeleteAndRedirect(true, user, shopId, review, s, fault, countReviews, actPage).0 ==
            Success(ArticleReviewListUrlPath(countReviews(DeletedStore(user, shopId, review, s.store)), actPage))
  {
    DeletionIsAtomic(user, shopId, review, s, fault);
  }

  /** The controller's page state: `_iCntPages`. */
  class AccountReviewController {
    var cntPages: nat

    constructor ()
      ensures cntPages == 0
    {
      cntPages := 0;
    }

    /** `getPageNavigation`: the pages count is stored for the navigation and returned. */
    method GetPageNavigation(itemCount: nat) returns (pages: nat)
      modifies this
      ensures cntPages == PagesCount(itemCount, ItemsPerPage) && pages == cntPages
    {
      cntPages := PagesCount(itemCount, ItemsPerPage);
      pages := cntPages;
    }

    /** `getArticleReviewList`: the count and offset the service is asked for. */
    method GetArticleReviewList(actPage: nat) returns (count: nat, offset: nat)
      ensures (count, offset) == ReviewListWindow(actPage)
    {
      count := ItemsPerPage;
      offset := actPage * count;
    }

    /** `deleteArticleReviewAndRating`. */
    method DeleteArticleReviewAndRating(challengeOk: bool, service: UserService, review: Review,
                                        countReviews: Store -> nat, actPage: nat)
      returns (r: Result<string, Error>)
      modifies service.database
      ensures (r, service.database.State()) ==
              DeleteAndRedirect(challengeOk, service.user, service.shopId, review, old(service.database.State()),
                                service.database.fault, countReviews, actPage)
    {
      if challengeOk {
        var deleted := service.DeleteArticleReview(review);
        if deleted.Fail? {
          return Failure(deleted.error);
        }
      }
      r := Success(ArticleReviewListUrlPath(countReviews(service.database.store), actPage));
    }
  }
}
