/**
 * `Service`: `UserService::deleteArticleReview`. The review must belong to
 * the acting user and be an article review. Then, inside one transaction,
 * the review's rating row is deleted when the review carries a rating, and
 * after it the review itself. The transaction is committed, or rolled back
 * on any failure, and an exception of the same class is thrown again.
 */
module Service {
  import opened Wrappers
  import opened ReviewStore

  /** The exceptions the deletion ends with. */
  datatype Error =
    | PermissionError(message: string)
    | TypeError(message: string)
    | StorageError(errorClass: string)

  const PermissionMessage: string := "Review doesn't belong to current user."
  const TypeMessage: string := "The review is not an article review."
  /** The object type of an article review, and the rating type looked up. */
  const ArticleType: string := "oxarticle"

  // ---------------------------------------------------------------------
  // The specification: what one call does to the database state
  // ---------------------------------------------------------------------

  /** The rating row of a review: same object, the acting user, the service's shop, an article rating. */
  function RatingKeyOf(user: Id, shopId: int, review: Review): (k: RatingKey)
    ensures k.objectId == review.objectId && k.userId == user && k.shopId == shopId && k.ratingType == ArticleType
  {
    RatingKey(review.objectId, user, shopId, ArticleType)
  }

  /**
   * `deleteArticleReviewRating`: nothing when the review's rating value is
   * not positive. Otherwise the rating row is looked up and, when one is
   * found, deleted; a rating object that did not load deletes nothing.
   */
  function RatingDeletion(user: Id, shopId: int, review: Review, s: DbState, fault: Option<Fault>): (r: (Outcome<string>, DbState))
    ensures review.rating <= 0 ==> r == (Pass, s)
    ensures r.1.saved == s.saved && r.1.store.reviews == s.store.reviews
    ensures r.0.Fail? ==> r.1.store == s.store
  {
    if review.rating <= 0 then (Pass, s)
    else
      var found := Lookup(s, RatingKeyOf(user, shopId, review), fault);
      if found.0.Failure? then (Fail(found.0.error), found.1)
      else if found.0.value.None? then (Pass, found.1)
      else DeleteRating(found.1, found.0.value.value, fault)
  }

  /** The `try` block: the rating, then the review, then the commit; the first failure stops it. */
  function TransactionBody(user: Id, shopId: int, review: Review, s: DbState, fault: Option<Fault>): (Outcome<string>, DbState)
  {
    var rating := RatingDeletion(user, shopId, review, s, fault);
    if rating.0.Fail? then rating
    else
      var deleted := DeleteReview(rating.1, review.id, fault);
      if deleted.0.Fail? then deleted
      else Commit(deleted.1, fault)
  }

  /**
   * `deleteArticleReview` from a database state: the two validations, the
   * transaction start, the `try` block, and the rollback with rethrow.
   */
  function Deletion(user: Id, shopId: int, review: Review, s: DbState, fault: Option<Fault>): (Outcome<Error>, DbState)
  {
    if user != review.userId then (Fail(PermissionError(PermissionMessage)), s)
    else if review.objectType != ArticleType then (Fail(TypeError(TypeMessage)), s)
    else
      var started := Start(s, fault);
      if started.0.Fail? then (Fail(StorageError(started.0.error)), started.1)
      else
        var body := TransactionBody(user, shopId, review, started.1, fault);
        if body.0.Pass? then (Pass, body.1)
        else (Fail(StorageError(body.0.error)), Rollback(body.1))
  }

  // ---------------------------------------------------------------------
  // What a deletion is meant to do, stated independently of the calls
  // ---------------------------------------------------------------------

  /** The rating row the deletion removes, if any: none unless the review carries a rating. */
  function RatingToDelete(user: Id, shopId: int, review: Review, st: Store): Option<string>
  {
    if review.rating <= 0 then None else FirstMatch(st.ratings, RatingKeyOf(user, shopId, review))
  }

  /** The store after a completed deletion: the review and the rows of its rating are gone. */
  function DeletedStore(user: Id, shopId: int, review: Review, st: Store): (r: Store)
    ensures review.id !in r.reviews && r.reviews == st.reviews - {review.id}
    ensures RatingToDelete(user, shopId, review, st).None? ==> r.ratings == st.ratings
    ensures RatingToDelete(user, shopId, review, st).Some? ==>
              forall row :: row in r.ratings <==> row in st.ratings && row.id != RatingToDelete(user, shopId, review, st).value
  {
    var ratings := match RatingToDelete(user, shopId, review, st)
      case None => st.ratings
      case Some(id) => WithoutRating(st.ratings, id);
    Store(st.reviews - {review.id}, ratings)
  }

  /** The calls the transaction makes when nothing throws: lookup and rating delete, review delete, commit. */
  function BodyCalls(user: Id, shopId: int, review: Review, st: Store): seq<Call>
  {
    var tail := [DeleteReviewCall(review.id)] + [CommitCall];
    if review.rating <= 0 then tail
    else
      var lookup := [LookupCall(RatingKeyOf(user, shopId, review))];
      match RatingToDelete(user, shopId, review, st)
      case None => lookup + tail
      case Some(id) => lookup + ([DeleteRatingCall(id)] + tail)
  }

  /** The calls of a deletion that passes both validations, when nothing throws. */
  function PlannedCalls(user: Id, shopId: int, review: Review, st: Store): seq<Call>
  {
    [StartCall] + BodyCalls(user, shopId, review, st)
  }

  /**
   * The calls a deletion that passes both validations makes: the planned ones
   * up to the one that throws, then a rollback unless the transaction never
   * started.
   */
  function CallsMade(user: Id, shopId: int, review: Review, st: Store, fault: Option<Fault>): seq<Call>
  {
    var cut := UntilFault(PlannedCalls(user, shopId, review, st), fault);
    if cut.1 && fault.value.at != StartStep then cut.0 + [RollbackCall] else cut.0
  }

  // ---------------------------------------------------------------------
  // The transaction body against the plan
  // ---------------------------------------------------------------------

  /** The review delete and the commit, from the state the rating deletion left. */
  function Closing(review: Review, s: DbState, fault: Option<Fault>): (Outcome<string>, DbState)
  {
    var deleted := DeleteReview(s, review.id, fault);
    if deleted.0.Fail? then deleted else Commit(deleted.1, fault)
  }

  lemma BodyIsRatingThenClosing(user: Id, shopId: int, review: Review, s: DbState, fault: Option<Fault>)
    ensures var rating := RatingDeletion(user, shopId, review, s, fault);
            TransactionBody(user, shopId, review, s, fault) ==
            if rating.0.Fail? then rating else Closing(review, rating.1, fault)
  {
  }

  lemma ClosingCut(review: Review, fault: Option<Fault>)
    ensures UntilFault([DeleteReviewCall(review.id)] + [CommitCall], fault) ==
            if Throws(DeleteReviewCall(review.id), fault) then ([DeleteReviewCall(review.id)], true)
            else if Throws(CommitCall, fault) then ([DeleteReviewCall(review.id)] + [CommitCall], true)
            else ([DeleteReviewCall(review.id)] + [CommitCall], false)
  {
    UntilFaultCons(DeleteReviewCall(review.id), [CommitCall], fault);
    UntilFaultCons(CommitCall, [], fault);
    assert [CommitCall] + [] == [CommitCall];
  }

  /** The closing calls follow the plan's tail. */
  lemma ClosingFollowsPlan(review: Review, s: DbState, fault: Option<Fault>)
    ensures var c := Closing(review, s, fault);
            var cut := UntilFault([DeleteReviewCall(review.id)] + [CommitCall], fault);
            c.1.log == s.log + cut.0 && (c.0.Pass? <==> !cut.1)
  {
    ClosingCut(review, fault);
    AppendCalls(s.log, [DeleteReviewCall(review.id)], [CommitCall]);
  }

  lemma AppendCalls(a: seq<Call>, b: seq<Call>, c: seq<Call>)
    ensures a + b + c == a + (b + c)
  {
  }

  /** The transaction body makes the planned body calls up to the one that throws. */
  lemma BodyFollowsPlan(user: Id, shopId: int, review: Review, s: DbState, fault: Option<Fault>)
    ensures var b := TransactionBody(user, shopId, review, s, fault);
            var cut := UntilFault(BodyCalls(user, shopId, review, s.store), fault);
            b.1.log == s.log + cut.0 && (b.0.Pass? <==> !cut.1)
  {
    BodyIsRatingThenClosing(user, shopId, review, s, fault);
    var tail := [DeleteReviewCall(review.id)] + [CommitCall];
    if review.rating <= 0 {
      ClosingFollowsPlan(review, s, fault);
    } else {
      var key := RatingKeyOf(user, shopId, review);
      var found := Lookup(s, key, fault);
      UntilFaultCons(LookupCall(key), BodyCalls(user, shopId, review, s.store)[1..], fault);
      if FailsAt(fault, LookupStep) {
      } else if FirstMatch(s.store.ratings, key).None? {
        assert BodyCalls(user, shopId, review, s.store) == [LookupCall(key)] + tail;
        ClosingFollowsPlan(review, found.1, fault);
        AppendCalls(s.log, [LookupCall(key)], UntilFault(tail, fault).0);
      } else {
        var id := FirstMatch(s.store.ratings, key).value;
        assert BodyCalls(user, shopId, review, s.store) == [LookupCall(key)] + ([DeleteRatingCall(id)] + tail);
        UntilFaultCons(DeleteRatingCall(id), tail, fault);
        var deleted := DeleteRating(found.1, id, fault);
        if !FailsAt(fault, RatingDeleteStep) {
          ClosingFollowsPlan(review, deleted.1, fault);
          AppendCalls(s.log + [LookupCall(key)], [DeleteRatingCall(id)], UntilFault(tail, fault).0);
          AppendCalls(s.log, [LookupCall(key)], [DeleteRatingCall(id)] + UntilFault(tail, fault).0);
        }
      }
    }
  }

  /** A failing body reports the fault's class and leaves the snapshot as it found it. */
  lemma BodyFailure(user: Id, shopId: int, review: Review, s: DbState, fault: Option<Fault>)
    ensures var b := TransactionBody(user, shopId, review, s, fault);
            b.0.Fail? ==> fault.Some? && b.0.error == fault.value.errorClass && b.1.saved == s.saved
  {
  }

  /** A body that completes leaves the deleted store and no open transaction. */
  lemma BodySuccess(user: Id, shopId: int, review: Review, s: DbState, fault: Option<Fault>)
    ensures var b := TransactionBody(user, shopId, review, s, fault);
            b.0.Pass? ==> b.1.store == DeletedStore(user, shopId, review, s.store) && b.1.saved.None?
  {
  }

  // ---------------------------------------------------------------------
  // Properties of deleteArticleReview
  // ---------------------------------------------------------------------

  /** A review of someone else, or of anything but an article, is refused before the database is touched. */
  lemma RejectionChangesNothing(user: Id, shopId: int, review: Review, s: DbState, fault: Option<Fault>)
    requires user != review.userId || review.objectType != ArticleType
    ensures Deletion(user, shopId, review, s, fault).0.Fail?
    ensures Deletion(user, shopId, review, s, fault).1 == s
  {
  }

  /**
   * The error thrown: the permission error first, then the type error, and for
   * a failure inside the transaction an exception of the class the database
   * threw.
   */
  lemma DeletionError(user: Id, shopId: int, review: Review, s: DbState, fault: Option<Fault>)
    ensures user != review.userId ==>
              Deletion(user, shopId, review, s, fault) == (Fail(PermissionError(PermissionMessage)), s)
    ensures user == review.userId && review.objectType != ArticleType ==>
              Deletion(user, shopId, review, s, fault) == (Fail(TypeError(TypeMessage)), s)
    ensures var r := Deletion(user, shopId, review, s, fault).0;
            r.Fail? ==>
              if user != review.userId then r.error == PermissionError(PermissionMessage)
              else if review.objectType != ArticleType then r.error == TypeError(TypeMessage)
              else fault.Some? && r.error == StorageError(fault.value.errorClass)
  {
    BodyFailure(user, shopId, review, Start(s, fault).1, fault);
  }

  /** A deletion that passes both validations succeeds exactly when no planned call throws. */
  lemma DeletionSucceedsIff(user: Id, shopId: int, review: Review, s: DbState, fault: Option<Fault>)
    requires user == review.userId && review.objectType == ArticleType
    ensures Deletion(user, shopId, review, s, fault).0.Pass? <==>
            !UntilFault(PlannedCalls(user, shopId, review, s.store), fault).1
  {
    var started := Start(s, fault);
    UntilFaultCons(StartCall, BodyCalls(user, shopId, review, s.store), fault);
    BodyFollowsPlan(user, shopId, review, started.1, fault);
  }

  /** Without any fault the deletion of an own article review succeeds. */
  lemma NoFaultSucceeds(user: Id, shopId: int, review: Review, s: DbState)
    requires user == review.userId && review.objectType == ArticleType
    ensures Deletion(user, shopId, review, s, None).0 == Pass
  {
    DeletionSucceedsIff(user, shopId, review, s, None);
  }

  /**
   * The calls made on the database: the planned ones up to the one that
   * throws, and a rollback after a failure inside the transaction.
   */
  lemma DeletionLog(user: Id, shopId: int, review: Review, s: DbState, fault: Option<Fault>)
    requires user == review.userId && review.objectType == ArticleType
    ensures Deletion(user, shopId, review, s, fault).1.log == s.log + CallsMade(user, shopId, review, s.store, fault)
  {
    var started := Start(s, fault);
    var planned := PlannedCalls(user, shopId, review, s.store);
    var body := BodyCalls(user, shopId, review, s.store);
    UntilFaultCons(StartCall, body, fault);
    if !FailsAt(fault, StartStep) {
      BodyFollowsPlan(user, shopId, review, started.1, fault);
      AppendCalls(s.log, [StartCall], UntilFault(body, fault).0);
      if UntilFault(body, fault).1 {
        AppendCalls(s.log, [StartCall] + UntilFault(body, fault).0, [RollbackCall]);
      }
    }
  }

  /**
   * The deletion is atomic: from a state with no open transaction it either
   * completes, leaving the deleted store, or leaves the store as it was; in
   * both cases no transaction is left open.
   */
  lemma DeletionIsAtomic(user: Id, shopId: int, review: Review, s: DbState, fault: Option<Fault>)
    requires s.saved.None?
    ensures var r := Deletion(user, shopId, review, s, fault);
            r.1.saved.None? &&
            r.1.store == if r.0.Pass? then DeletedStore(user, shopId, review, s.store) else s.store
  {
    var started := Start(s, fault);
    BodyFailure(user, shopId, review, started.1, fault);
    BodySuccess(user, shopId, review, started.1, fault);
  }

  /** The plan starts the transaction, ends with the commit, and has no other commit and no rollback. */
  lemma PlanShape(user: Id, shopId: int, review: Review, st: Store)
    ensures var p := PlannedCalls(user, shopId, review, st);
            |p| >= 3 && p[0] == StartCall && p[|p| - 1] == CommitCall &&
            (forall i :: 0 <= i < |p| ==> p[i] != RollbackCall) &&
            (forall i :: 0 <= i < |p| - 1 ==> p[i] != CommitCall)
  {
  }

  /** A run in which no planned call throws ends with the commit and makes no rollback. */
  lemma CompletedRunCloses(user: Id, shopId: int, review: Review, st: Store, fault: Option<Fault>)
    requires !UntilFault(PlannedCalls(user, shopId, review, st), fault).1
    ensures var calls := CallsMade(user, shopId, review, st, fault);
            calls != [] && calls[|calls| - 1] == CommitCall && RollbackCall !in calls
  {
    PlanShape(user, shopId, review, st);
  }

  /** A run cut by a throwing call after the start ends with its only rollback. */
  lemma FailedRunRollsBackOnce(user: Id, shopId: int, review: Review, st: Store, fault: Option<Fault>)
    requires UntilFault(PlannedCalls(user, shopId, review, st), fault).1 && !FailsAt(fault, StartStep)
    ensures var calls := CallsMade(user, shopId, review, st, fault);
            calls != [] && calls[|calls| - 1] == RollbackCall && RollbackCall !in calls[..|calls| - 1]
  {
    var p := PlannedCalls(user, shopId, review, st);
    PlanShape(user, shopId, review, st);
    var cut := UntilFault(p, fault);
    assert cut.0[0] == StartCall;
    var calls := CallsMade(user, shopId, review, st, fault);
    assert calls[..|calls| - 1] == cut.0;
    assert forall i :: 0 <= i < |cut.0| ==> cut.0[i] == p[i];
  }

  /** In a run cut by a throwing call, a commit call was made only if the commit threw. */
  lemma CommitOnlyIfThrown(user: Id, shopId: int, review: Review, st: Store, fault: Option<Fault>)
    requires UntilFault(PlannedCalls(user, shopId, review, st), fault).1
    ensures CommitCall in CallsMade(user, shopId, review, st, fault) ==> FailsAt(fault, CommitStep)
  {
    var p := PlannedCalls(user, shopId, review, st);
    PlanShape(user, shopId, review, st);
    var cut := UntilFault(p, fault);
    var calls := CallsMade(user, shopId, review, st, fault);
    if CommitCall in calls {
      var i :| 0 <= i < |calls| && calls[i] == CommitCall;
      assert i < |cut.0| && cut.0[i] == p[i];
      assert i == |p| - 1;
    }
  }

  /**
   * Once the transaction has started it is closed once: a completed deletion
   * ends with the commit and makes no rollback; a failed one ends with its
   * only rollback, and it made a commit call only if that commit threw.
   */
  lemma DeletionClosesOnce(user: Id, shopId: int, review: Review, s: DbState, fault: Option<Fault>)
    requires user == review.userId && review.objectType == ArticleType && !FailsAt(fault, StartStep)
    ensures var r := Deletion(user, shopId, review, s, fault);
            var calls := r.1.log[|s.log|..];
            calls != [] &&
            (r.0.Pass? ==> calls[|calls| - 1] == CommitCall && RollbackCall !in calls) &&
            (r.0.Fail? ==> calls[|calls| - 1] == RollbackCall && RollbackCall !in calls[..|calls| - 1] &&
                           (CommitCall in calls ==> FailsAt(fault, CommitStep)))
  {
    var r := Deletion(user, shopId, review, s, fault);
    DeletionLog(user, shopId, review, s, fault);
    DeletionSucceedsIff(user, shopId, review, s, fault);
    var calls := CallsMade(user, shopId, review, s.store, fault);
    assert r.1.log[|s.log|..] == calls;
    if r.0.Pass? {
      CompletedRunCloses(user, shopId, review, s.store, fault);
    } else {
      FailedRunRollsBackOnce(user, shopId, review, s.store, fault);
      CommitOnlyIfThrown(user, shopId, review, s.store, fault);
    }
  }

  /** An unrated review without faults: start, the review delete, the commit. */
  lemma UnratedReviewDeletion(user: Id, shopId: int, review: Review, s: DbState)
    requires user == review.userId && review.objectType == ArticleType && review.rating <= 0
    ensures Deletion(user, shopId, review, s, None).1.log == s.log + [StartCall, DeleteReviewCall(review.id), CommitCall]
  {
    assert s.log + [StartCall] + [DeleteReviewCall(review.id)] + [CommitCall] ==
           s.log + [StartCall, DeleteReviewCall(review.id), CommitCall];
  }

  /**
   * A rated review whose rating row is found, without faults: the row is
   * looked up by its key and deleted, and only then the review.
   */
  lemma RatedReviewDeletion(user: Id, shopId: int, review: Review, s: DbState, ratingId: string)
    requires user == review.userId && review.objectType == ArticleType && review.rating > 0
    requires FirstMatch(s.store.ratings, RatingKeyOf(user, shopId, review)) == Some(ratingId)
    ensures Deletion(user, shopId, review, s, None).1.log ==
            s.log + [StartCall, LookupCall(RatingKeyOf(user, shopId, review)), DeleteRatingCall(ratingId),
                     DeleteReviewCall(review.id), CommitCall]
  {
    var key := RatingKeyOf(user, shopId, review);
    assert s.log + [StartCall] + [LookupCall(key)] + [DeleteRatingCall(ratingId)] + [DeleteReviewCall(review.id)] + [CommitCall] ==
           s.log + [StartCall, LookupCall(key), DeleteRatingCall(ratingId), DeleteReviewCall(review.id), CommitCall];
  }

  /** A review of user 2 deleted on behalf of user 1 is refused with the permission error. */
  lemma ForeignReviewVector(s: DbState, review: Review, fault: Option<Fault>)
    requires review.userId == IntId(2)
    ensures Deletion(IntId(1), 1, review, s, fault) == (Fail(PermissionError("Review doesn't belong to current user.")), s)
  {
  }

  /** An own review of something other than an article is refused with the type error. */
  lemma NotArticleReviewVector(s: DbState, review: Review, fault: Option<Fault>)
    requires review.userId == IntId(1) && review.objectType == "notAnArticle"
    ensures Deletion(IntId(1), 1, review, s, fault) == (Fail(TypeError("The review is not an article review.")), s)
  {
  }

  /**
   * An own article review with rating 0 and a database that never throws: no
   * rating is looked up, the review is deleted once, and the transaction commits.
   */
  lemma UnratedReviewVector(st: Store, review: Review)
    requires review.userId == IntId(1) && review.objectType == "oxarticle" && review.rating == 0
    ensures Deletion(IntId(1), 1, review, DbState(st, None, []), None) ==
            (Pass, DbState(Store(st.reviews - {review.id}, st.ratings), None, [StartCall, DeleteReviewCall(review.id), CommitCall]))
  {
    assert review.objectType == ArticleType;
    assert [] + [StartCall] + [DeleteReviewCall(review.id)] + [CommitCall] == [StartCall, DeleteReviewCall(review.id), CommitCall];
  }

  // ---------------------------------------------------------------------
  // The service object
  // ---------------------------------------------------------------------

  /** The acting user, the database and the shop id are fixed when the service is built. */
  class UserService {
    const user: Id
    const database: Database
    const shopId: int

    constructor (user: Id, database: Database, shopId: int)
      ensures this.user == user && this.database == database && this.shopId == shopId
    {
      this.user := user;
      this.database := database;
      this.shopId := shopId;
    }

    /** `isCurrentUserReview`: the ids compared with `===`. */
    predicate IsCurrentUserReview(review: Review)
    {
      user == review.userId
    }

    /** `isArticleReview`. */
    predicate IsArticleReview(review: Review)
    {
      review.objectType == ArticleType
    }

    /** `hasArticleReviewRating`: the rating value stored on the review is positive. */
    predicate HasArticleReviewRating(review: Review)
    {
      review.rating > 0
    }

    /** `validateUserPermissionToDeleteReview`: the permission error for a review of someone else. */
    function ValidateUserPermissionToDeleteReview(review: Review): (r: Outcome<Error>)
      ensures r.Pass? <==> user == review.userId
      ensures r.Fail? ==> r.error == PermissionError(PermissionMessage)
    {
      if !IsCurrentUserReview(review) then Fail(PermissionError(PermissionMessage)) else Pass
    }

    /** `validateArticleReview`: the type error for a review of anything but an article. */
    function ValidateArticleReview(review: Review): (r: Outcome<Error>)
      ensures r.Pass? <==> review.objectType == "oxarticle"
      ensures r.Fail? ==> r.error == TypeError(TypeMessage)
    {
      if !IsArticleReview(review) then Fail(TypeError(TypeMessage)) else Pass
    }

    /** `getArticleReviewRating`: the `getOne` on the review's rating key. */
    method GetArticleReviewRating(review: Review) returns (r: Result<Option<string>, string>)
      modifies database
      ensures (r, database.State()) == Lookup(old(database.State()), RatingKeyOf(user, shopId, review), database.fault)
    {
      r := database.GetOne(RatingKeyOf(user, shopId, review));
    }

    /** `deleteArticleReviewRating`. */
    method DeleteArticleReviewRating(review: Review) returns (r: Outcome<string>)
      modifies database
      ensures (r, database.State()) == RatingDeletion(user, shopId, review, old(database.State()), database.fault)
    {
      r := Pass;
      if HasArticleReviewRating(review) {
        var found := GetArticleReviewRating(review);
        if found.Failure? {
          r := Fail(found.error);
        } else if found.value.Some? {
          r := database.DeleteRatingRow(found.value.value);
        }
      }
    }

    /** `deleteArticleReview`. */
    method DeleteArticleReview(review: Review) returns (r: Outcome<Error>)
      modifies database
      ensures (r, database.State()) == Deletion(user, shopId, review, old(database.State()), database.fault)
    {
      r := ValidateUserPermissionToDeleteReview(review);
      if r.Fail? {
        return;
      }
      r := ValidateArticleReview(review);
      if r.Fail? {
        return;
      }
      var started := database.StartTransaction();
      if started.Fail? {
        return Fail(StorageError(started.error));
      }
      var body := DeleteArticleReviewRating(review);
      if body.Pass? {
        body := database.DeleteReviewRow(review.id);
        if body.Pass? {
          body := database.CommitTransaction();
        }
      }
      if body.Fail? {
        database.RollbackTransaction();
        return Fail(StorageError(body.error));
      }
      r := Pass;
    }
  }
}
