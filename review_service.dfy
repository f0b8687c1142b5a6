/** `ReviewServiceImpl`: at most one review per (book, user); only a review's author may
    change or delete it; reviews are counted per book. */
module ReviewService {
  import opened Common
  import opened Entities
  import opened Store

  // ---------------------------------------------------------------------------
  // Queries

  /** The reviews of one book, as ids. */
  function ReviewsOf(t: Tables, book: Id): set<Id>
  {
    set id | id in t.reviews && t.reviews[id].book == book
  }

  /** `getReviewCountByBookId`: `COUNT(r)` over the reviews of that book. */
  function ReviewCount(t: Tables, book: Id): (c: nat)
    ensures c == 0 <==> forall id :: id in t.reviews ==> t.reviews[id].book != book
    ensures c <= |t.reviews|
  {
    var s := ReviewsOf(t, book);
    assert s <= t.reviews.Keys;
    SubsetCardinality(s, t.reviews.Keys);
    assert s == {} ==> forall id :: id in t.reviews ==> id !in s;
    |s|
  }

  /** The users who reviewed a book. */
  function ReviewAuthors(t: Tables, book: Id): set<Id>
  {
    set id | id in t.reviews && t.reviews[id].book == book :: t.reviews[id].user
  }

  /** Because no user reviews a book twice, a book has exactly as many reviews as
      distinct authors. */
  lemma {:induction false} ReviewCountIsAuthorCount(t: Tables, book: Id)
    requires Inv(t)
    ensures ReviewCount(t, book) == |ReviewAuthors(t, book)|
  {
    var s := ReviewsOf(t, book);
    assert ReviewCount(t, book) == |s|;
    InjectiveImage(t, book, s);
    assert (set id | id in s :: t.reviews[id].user) == ReviewAuthors(t, book);
  }

  /** On the reviews of one book, the author determines the review, so the set of authors
      of any subset has the subset's size. */
  lemma {:induction false} InjectiveImage(t: Tables, book: Id, s: set<Id>)
    requires Inv(t) && s <= ReviewsOf(t, book)
    ensures |set id | id in s :: t.reviews[id].user| == |s|
    decreases |s|
  {
    if s != {} {
      var x :| x in s;
      var s' := s - {x};
      InjectiveImage(t, book, s');
      var img := set id | id in s :: t.reviews[id].user;
      var img' := set id | id in s' :: t.reviews[id].user;
      assert img == img' + {t.reviews[x].user};
      forall y | y in s' ensures t.reviews[y].user != t.reviews[x].user {
        assert y != x && t.reviews[y].book == t.reviews[x].book;
      }
    }
  }

  /** A new review of a book adds one to that book's count and leaves every other book's
      count as it was. */
  lemma ReviewCountAfterInsert(t: Tables, r: Review, book: Id)
    requires r.id !in t.reviews
    ensures ReviewCount(t.(reviews := t.reviews[r.id := r]), book)
            == if r.book == book then ReviewCount(t, book) + 1 else ReviewCount(t, book)
  {
    var t' := t.(reviews := t.reviews[r.id := r]);
    if r.book == book {
      assert ReviewsOf(t', book) == ReviewsOf(t, book) + {r.id};
    } else {
      assert ReviewsOf(t', book) == ReviewsOf(t, book);
    }
  }

  /** Deleting a review of a book takes one off that book's count only. */
  lemma ReviewCountAfterDelete(t: Tables, id: Id, book: Id)
    requires id in t.reviews
    ensures ReviewCount(WithoutReview(t, id), book)
            == if t.reviews[id].book == book then ReviewCount(t, book) - 1 else ReviewCount(t, book)
  {
    var t' := WithoutReview(t, id);
    if t.reviews[id].book == book {
      assert ReviewsOf(t, book) == ReviewsOf(t', book) + {id};
    } else {
      assert ReviewsOf(t', book) == ReviewsOf(t, book);
    }
  }

  /** Changing a review's rating or text keeps its book, so no count changes. */
  lemma ReviewCountAfterEdit(t: Tables, r: Review, book: Id)
    requires r.id in t.reviews && r.book == t.reviews[r.id].book
    ensures ReviewCount(t.(reviews := t.reviews[r.id := r]), book) == ReviewCount(t, book)
  {
    assert ReviewsOf(t.(reviews := t.reviews[r.id := r]), book) == ReviewsOf(t, book);
  }

  // ---------------------------------------------------------------------------
  // Commands. The rating is one of the Bean Validation checks on `Review`, a
  // precondition here.

  /** `createReview`: the per-pair check comes first, then the book lookup, then the user
      lookup. The review's author is the `userId` argument. */
  method CreateReview(st: Store, bookId: Id, rating: int, reviewText: Option<string>, userId: Id, now: int)
    returns (r: Result<Review>)
    requires st.Valid() && MinRating <= rating <= MaxRating
    modifies st
    ensures st.Valid()
    ensures HasReviewed(old(st.Snapshot()), bookId, userId) ==> r == Err(AlreadyReviewed)
    ensures !HasReviewed(old(st.Snapshot()), bookId, userId) && bookId !in old(st.books) ==> r == Err(BookNotFound)
    ensures !HasReviewed(old(st.Snapshot()), bookId, userId) && bookId in old(st.books) && userId !in old(st.users)
            ==> r == Err(UserNotFound)
    ensures r.Ok? <==> !HasReviewed(old(st.Snapshot()), bookId, userId) && bookId in old(st.books) && userId in old(st.users)
    ensures r.Err? ==> st.Snapshot() == old(st.Snapshot())
    ensures r.Ok? ==>
      r.value == Review(old(st.nextId), rating, reviewText, bookId, userId, now, now)
      && r.value.id !in old(st.reviews)
      && st.Snapshot() == old(st.Snapshot()).(reviews := old(st.reviews)[r.value.id := r.value], nextId := r.value.id + 1)
      && HasReviewed(st.Snapshot(), bookId, userId)
  {
    if HasReviewed(st.Snapshot(), bookId, userId) {
      return Err(AlreadyReviewed);
    }
    if bookId !in st.books {
      return Err(BookNotFound);
    }
    if userId !in st.users {
      return Err(UserNotFound);
    }
    var id := st.nextId;
    var review := Review(id, rating, reviewText, bookId, userId, now, now);
    NewReviewKeepsInv(st.Snapshot(), review);
    st.reviews, st.nextId := st.reviews[id := review], id + 1;
    r := Ok(review);
  }

  /** Inserting a review under the next id, after the per-pair check passed. */
  lemma NewReviewKeepsInv(t: Tables, r: Review)
    requires Inv(t) && r.id == t.nextId && MinRating <= r.rating <= MaxRating
    requires !HasReviewed(t, r.book, r.user)
    ensures r.id !in t.reviews
    ensures Inv(t.(reviews := t.reviews[r.id := r], nextId := r.id + 1))
    ensures HasReviewed(t.(reviews := t.reviews[r.id := r], nextId := r.id + 1), r.book, r.user)
  {
    FreshIdUnused(t);
    BumpKeepsInv(t);
    var t' := t.(nextId := t.nextId + 1);
    PutReviewKeepsInv(t', r);
    assert t'.(reviews := t'.reviews[r.id := r]) == t.(reviews := t.reviews[r.id := r], nextId := r.id + 1);
    assert t'.(reviews := t'.reviews[r.id := r]).reviews[r.id] == r;
  }

  /** Once a user has reviewed a book, every later `createReview` for that pair fails,
      whatever its rating and text, and stores nothing. */
  method SecondReviewIsRejected(st: Store, bookId: Id, userId: Id, rating1: int, text1: Option<string>,
                                rating2: int, text2: Option<string>, now: int)
    returns (first: Result<Review>, second: Result<Review>)
    requires st.Valid() && MinRating <= rating1 <= MaxRating && MinRating <= rating2 <= MaxRating
    modifies st
    ensures first.Ok? ==> second == Err(AlreadyReviewed)
  {
    first := CreateReview(st, bookId, rating1, text1, userId, now);
    second := CreateReview(st, bookId, rating2, text2, userId, now);
  }

  /** `updateReview`: the lookup, then the author check; only rating, text and modification
      time change, so the book and author (and with them per-pair uniqueness) are kept. */
  method UpdateReview(st: Store, id: Id, rating: int, reviewText: Option<string>, userId: Id, now: int)
    returns (r: Result<Review>)
    requires st.Valid() && MinRating <= rating <= MaxRating
    modifies st
    ensures st.Valid()
    ensures id !in old(st.reviews) ==> r == Err(ReviewNotFound)
    ensures id in old(st.reviews) && old(st.reviews[id].user) != userId ==> r == Err(NotReviewAuthor)
    ensures r.Ok? <==> id in old(st.reviews) && old(st.reviews[id].user) == userId
    ensures r.Err? ==> st.Snapshot() == old(st.Snapshot())
    ensures r.Ok? ==>
      r.value == old(st.reviews[id]).(rating := rating, reviewText := reviewText, updatedAt := now)
      && st.Snapshot() == old(st.Snapshot()).(reviews := old(st.reviews)[id := r.value])
  {
    if id !in st.reviews {
      return Err(ReviewNotFound);
    }
    var review := st.reviews[id];
    if review.user != userId {
      return Err(NotReviewAuthor);
    }
    var review' := review.(rating := rating, reviewText := reviewText, updatedAt := now);
    PutReviewKeepsInv(st.Snapshot(), review');
    st.reviews := st.reviews[id := review'];
    r := Ok(review');
  }

  /** `deleteReview`: the lookup, then the author check; the author's call removes it. */
  method DeleteReview(st: Store, id: Id, userId: Id) returns (o: Outcome)
    requires st.Valid()
    modifies st
    ensures st.Valid()
    ensures id !in old(st.reviews) ==> o == Fail(ReviewNotFound)
    ensures id in old(st.reviews) && old(st.reviews[id].user) != userId ==> o == Fail(NotReviewAuthor)
    ensures o.Pass? <==> id in old(st.reviews) && old(st.reviews[id].user) == userId
    ensures o.Fail? ==> st.Snapshot() == old(st.Snapshot())
    ensures o.Pass? ==> st.Snapshot() == WithoutReview(old(st.Snapshot()), id) && id !in st.reviews
  {
    if id !in st.reviews {
      return Fail(ReviewNotFound);
    }
    if st.reviews[id].user != userId {
      return Fail(NotReviewAuthor);
    }
    WithoutReviewKeepsInv(st.Snapshot(), id);
    st.reviews := st.reviews - {id};
    o := Pass;
  }

  /** After the author deletes their review of a book, they may review it again. */
  lemma DeleteAllowsNewReview(t: Tables, id: Id)
    requires Inv(t) && id in t.reviews
    ensures !HasReviewed(WithoutReview(t, id), t.reviews[id].book, t.reviews[id].user)
  {
    var t' := WithoutReview(t, id);
    forall j | j in t'.reviews ensures t'.reviews[j].book != t.reviews[id].book || t'.reviews[j].user != t.reviews[id].user {
      assert j in t.reviews && j != id;
    }
  }
}
