/**
 * `ReviewStore`: the database as the review deletion sees it. There are
 * review rows by id and rating rows with their lookup key. A transaction
 * keeps a snapshot of the store, which a rollback restores. Every call made
 * on the database is recorded in a log.
 *
 * Storage failures are injected: the database is built with the one call
 * that throws, if any, and the class of the exception it throws.
 */
module ReviewStore {
  import opened Wrappers

  /** A user id as PHP holds it. `===` tells an int from a string, and null from both. */
  datatype Id = IntId(n: int) | StrId(s: string) | NoId

  /**
   * What the deletion reads from a review: its id, the id of its user, the
   * object it reviews and that object's type, and the rating value stored
   * on the review itself.
   */
  datatype Review = Review(id: string, userId: Id, objectId: string, objectType: string, rating: int)

  /** The columns `getArticleReviewRating` selects a rating row by. */
  datatype RatingKey = RatingKey(objectId: string, userId: Id, shopId: int, ratingType: string)

  datatype RatingRow = RatingRow(id: string, key: RatingKey)

  /** The review ids present, and the rating rows in storage order. */
  datatype Store = Store(reviews: set<string>, ratings: seq<RatingRow>)

  /** The database calls that can throw. */
  datatype Step = StartStep | LookupStep | RatingDeleteStep | ReviewDeleteStep | CommitStep

  /** The call that throws and the class of the exception it throws. */
  datatype Fault = Fault(at: Step, errorClass: string)

  /** One call made on the database, in the order made. */
  datatype Call =
    | StartCall
    | LookupCall(key: RatingKey)
    | DeleteRatingCall(ratingId: string)
    | DeleteReviewCall(reviewId: string)
    | CommitCall
    | RollbackCall

  /**
   * The whole database state: the store, the snapshot taken when the open
   * transaction started (`None` when none is open), and the call log.
   */
  datatype DbState = DbState(store: Store, saved: Option<Store>, log: seq<Call>)

  // ---------------------------------------------------------------------
  // The rows themselves
  // ---------------------------------------------------------------------

  /** `getOne`: the id of the first rating row with the key, if any. */
  function FirstMatch(rows: seq<RatingRow>, key: RatingKey): (r: Option<string>)
    ensures r.Some? ==> exists i :: 0 <= i < |rows| && rows[i] == RatingRow(r.value, key)
    ensures r.None? ==> forall i :: 0 <= i < |rows| ==> rows[i].key != key
  {
    if rows == [] then None
    else if rows[0].key == key then Some(rows[0].id)
    else
      var r := FirstMatch(rows[1..], key);
      if r.Some? then
        var i :| 0 <= i < |rows[1..]| && rows[1..][i] == RatingRow(r.value, key);
        assert rows[i + 1] == RatingRow(r.value, key);
        r
      else r
  }

  /** The row found is the first with the key: no earlier row has it. */
  lemma {:induction false} FirstMatchIsFirst(rows: seq<RatingRow>, key: RatingKey)
    requires FirstMatch(rows, key).Some?
    ensures exists i :: 0 <= i < |rows| && rows[i] == RatingRow(FirstMatch(rows, key).value, key) &&
                        forall j :: 0 <= j < i ==> rows[j].key != key
  {
    if rows[0].key != key {
      FirstMatchIsFirst(rows[1..], key);
      var i :| 0 <= i < |rows[1..]| && rows[1..][i] == RatingRow(FirstMatch(rows[1..], key).value, key) &&
               forall j :: 0 <= j < i ==> rows[1..][j].key != key;
      assert rows[i + 1] == rows[1..][i];
      forall j | 0 <= j < i + 1 ensures rows[j].key != key {
        if j > 0 {
          assert rows[j] == rows[1..][j - 1];
        }
      }
    } else {
      assert rows[0] == RatingRow(FirstMatch(rows, key).value, key);
    }
  }

  /** `$rating->delete()` on the loaded row: every row with that id goes, the rest keep their order. */
  function WithoutRating(rows: seq<RatingRow>, id: string): (r: seq<RatingRow>)
    ensures |r| <= |rows|
    ensures forall i :: 0 <= i < |r| ==> r[i].id != id
    ensures forall row :: row in rows && row.id != id <==> row in r
  {
    if rows == [] then []
    else if rows[0].id == id then WithoutRating(rows[1..], id)
    else [rows[0]] + WithoutRating(rows[1..], id)
  }

  /** No row with the id is there: nothing is removed. */
  lemma {:induction false} WithoutAbsentRating(rows: seq<RatingRow>, id: string)
    requires forall i :: 0 <= i < |rows| ==> rows[i].id != id
    ensures WithoutRating(rows, id) == rows
  {
    if rows != [] {
      WithoutAbsentRating(rows[1..], id);
      assert rows == [rows[0]] + rows[1..];
    }
  }

  // ---------------------------------------------------------------------
  // The database calls, as transitions of the state
  // ---------------------------------------------------------------------

  predicate FailsAt(fault: Option<Fault>, step: Step)
  {
    fault.Some? && fault.value.at == step
  }

  /**
   * `startTransaction`: the snapshot is taken unless a transaction is already
   * open, in which case the outer one carries on. Nested transactions are
   * flattened this way.
   */
  function Start(s: DbState, fault: Option<Fault>): (r: (Outcome<string>, DbState))
    ensures r.1.store == s.store && r.1.log == s.log + [StartCall]
    ensures r.0.Pass? <==> !FailsAt(fault, StartStep)
    ensures r.0.Pass? ==> r.1.saved == (if s.saved.None? then Some(s.store) else s.saved)
    ensures r.0.Fail? ==> r.1.saved == s.saved && r.0.error == fault.value.errorClass
  {
    var s1 := s.(log := s.log + [StartCall]);
    if FailsAt(fault, StartStep) then (Fail(fault.value.errorClass), s1)
    else (Pass, s1.(saved := if s.saved.None? then Some(s.store) else s.saved))
  }

  /** `commitTransaction`: the changes stay and the transaction closes. */
  function Commit(s: DbState, fault: Option<Fault>): (r: (Outcome<string>, DbState))
    ensures r.1.store == s.store && r.1.log == s.log + [CommitCall]
    ensures r.0.Pass? <==> !FailsAt(fault, CommitStep)
    ensures r.0.Pass? ==> r.1.saved.None?
    ensures r.0.Fail? ==> r.1.saved == s.saved
  {
    var s1 := s.(log := s.log + [CommitCall]);
    if FailsAt(fault, CommitStep) then (Fail(fault.value.errorClass), s1)
    else (Pass, s1.(saved := None))
  }

  /** `rollbackTransaction`: the snapshot comes back and the transaction closes. */
  function Rollback(s: DbState): (r: DbState)
    ensures r.store == (if s.saved.Some? then s.saved.value else s.store)
    ensures r.saved.None? && r.log == s.log + [RollbackCall]
  {
    DbState(if s.saved.Some? then s.saved.value else s.store, None, s.log + [RollbackCall])
  }

  /** `getOne` on the rating query: the id of the first matching row, if any. */
  function Lookup(s: DbState, key: RatingKey, fault: Option<Fault>): (r: (Result<Option<string>, string>, DbState))
    ensures r.1 == s.(log := s.log + [LookupCall(key)])
    ensures r.0.Success? <==> !FailsAt(fault, LookupStep)
    ensures r.0.Success? ==> r.0.value == FirstMatch(s.store.ratings, key)
  {
    var s1 := s.(log := s.log + [LookupCall(key)]);
    if FailsAt(fault, LookupStep) then (Failure(fault.value.errorClass), s1)
    else (Success(FirstMatch(s.store.ratings, key)), s1)
  }

  /** The rating row's delete: its rows leave the store unless the call throws. */
  function DeleteRating(s: DbState, id: string, fault: Option<Fault>): (r: (Outcome<string>, DbState))
    ensures r.1.saved == s.saved && r.1.log == s.log + [DeleteRatingCall(id)]
    ensures r.0.Pass? <==> !FailsAt(fault, RatingDeleteStep)
    ensures r.0.Pass? ==> r.1.store == Store(s.store.reviews, WithoutRating(s.store.ratings, id))
    ensures r.0.Fail? ==> r.1.store == s.store
  {
    var s1 := s.(log := s.log + [DeleteRatingCall(id)]);
    if FailsAt(fault, RatingDeleteStep) then (Fail(fault.value.errorClass), s1)
    else (Pass, s1.(store := s.store.(ratings := WithoutRating(s.store.ratings, id))))
  }

  /** `$review->delete()`: the review row leaves the store unless the call throws. */
  function DeleteReview(s: DbState, id: string, fault: Option<Fault>): (r: (Outcome<string>, DbState))
    ensures r.1.saved == s.saved && r.1.log == s.log + [DeleteReviewCall(id)]
    ensures r.0.Pass? <==> !FailsAt(fault, ReviewDeleteStep)
    ensures r.0.Pass? ==> r.1.store == Store(s.store.reviews - {id}, s.store.ratings)
    ensures r.0.Fail? ==> r.1.store == s.store
  {
    var s1 := s.(log := s.log + [DeleteReviewCall(id)]);
    if FailsAt(fault, ReviewDeleteStep) then (Fail(fault.value.errorClass), s1)
    else (Pass, s1.(store := s.store.(reviews := s.store.reviews - {id})))
  }

  /** The step a call performs; a rollback is not one that throws. */
  function StepOf(c: Call): Option<Step>
  {
    match c
    case StartCall => Some(StartStep)
    case LookupCall(_) => Some(LookupStep)
    case DeleteRatingCall(_) => Some(RatingDeleteStep)
    case DeleteReviewCall(_) => Some(ReviewDeleteStep)
    case CommitCall => Some(CommitStep)
    case RollbackCall => None
  }

  /** Whether the call is the one the fault makes throw. */
  predicate Throws(c: Call, fault: Option<Fault>)
  {
    fault.Some? && StepOf(c) == Some(fault.value.at)
  }

  /**
   * The calls of a planned sequence actually made: all of them, or those up to
   * and including the first one that throws, which is then reported.
   */
  function UntilFault(calls: seq<Call>, fault: Option<Fault>): (r: (seq<Call>, bool))
    ensures r.0 <= calls
    ensures !r.1 ==> r.0 == calls && forall i :: 0 <= i < |calls| ==> !Throws(calls[i], fault)
    ensures r.1 ==> r.0 != [] && Throws(r.0[|r.0| - 1], fault) &&
                    forall i :: 0 <= i < |r.0| - 1 ==> !Throws(r.0[i], fault)
  {
    if calls == [] then ([], false)
    else if Throws(calls[0], fault) then ([calls[0]], true)
    else
      var rest := UntilFault(calls[1..], fault);
      assert forall i :: 1 <= i < |calls| ==> calls[i] == calls[1..][i - 1];
      ([calls[0]] + rest.0, rest.1)
  }

  /** One call in front: it throws and ends the cut, or it is made and the cut goes on. */
  lemma UntilFaultCons(c: Call, rest: seq<Call>, fault: Option<Fault>)
    ensures UntilFault([c] + rest, fault) ==
            if Throws(c, fault) then ([c], true)
            else ([c] + UntilFault(rest, fault).0, UntilFault(rest, fault).1)
  {
    assert ([c] + rest)[0] == c && ([c] + rest)[1..] == rest;
  }

  // ---------------------------------------------------------------------
  // The database object
  // ---------------------------------------------------------------------

  /**
   * The database adapter the service is given. Each method performs one of
   * the calls above on the fields.
   */
  class Database {
    var store: Store
    var saved: Option<Store>
    var log: seq<Call>
    const fault: Option<Fault>

    constructor (store: Store, fault: Option<Fault>)
      ensures State() == DbState(store, None, []) && this.fault == fault
    {
      this.store := store;
      this.saved := None;
      this.log := [];
      this.fault := fault;
    }

    function State(): DbState
      reads this
    {
      DbState(store, saved, log)
    }

    method StartTransaction() returns (r: Outcome<string>)
      modifies this
      ensures (r, State()) == Start(old(State()), fault)
    {
      log := log + [StartCall];
      if FailsAt(fault, StartStep) {
        r := Fail(fault.value.errorClass);
      } else {
        if saved.None? {
          saved := Some(store);
        }
        r := Pass;
      }
    }

    method CommitTransaction() returns (r: Outcome<string>)
      modifies this
      ensures (r, State()) == Commit(old(State()), fault)
    {
      log := log + [CommitCall];
      if FailsAt(fault, CommitStep) {
        r := Fail(fault.value.errorClass);
      } else {
        saved := None;
        r := Pass;
      }
    }

    method RollbackTransaction()
      modifies this
      ensures State() == Rollback(old(State()))
    {
      if saved.Some? {
        store := saved.value;
      }
      saved := None;
      log := log + [RollbackCall];
    }

    method GetOne(key: RatingKey) returns (r: Result<Option<string>, string>)
      modifies this
      ensures (r, State()) == Lookup(old(State()), key, fault)
    {
      log := log + [LookupCall(key)];
      if FailsAt(fault, LookupStep) {
        r := Failure(fault.value.errorClass);
      } else {
        r := Success(FirstMatch(store.ratings, key));
      }
    }

    method DeleteRatingRow(id: string) returns (r: Outcome<string>)
      modifies this
      ensures (r, State()) == DeleteRating(old(State()), id, fault)
    {
      log := log + [DeleteRatingCall(id)];
      if FailsAt(fault, RatingDeleteStep) {
        r := Fail(fault.value.errorClass);
      } else {
        store := store.(ratings := WithoutRating(store.ratings, id));
        r := Pass;
      }
    }

    method DeleteReviewRow(id: string) returns (r: Outcome<string>)
      modifies this
      ensures (r, State()) == DeleteReview(old(State()), id, fault)
    {
      log := log + [DeleteReviewCall(id)];
      if FailsAt(fault, ReviewDeleteStep) {
        r := Fail(fault.value.errorClass);
      } else {
        store := store.(reviews := store.reviews - {id});
        r := Pass;
      }
    }
  }
}
