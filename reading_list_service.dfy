/** `ReadingListServiceImpl`: reading lists and their books. Every operation looks its rows
    up in a fixed order and leaves the store untouched when a lookup or a check fails. */
module ReadingListService {
  import opened Common
  import opened Entities
  import opened Dtos
  import opened Store
  import EntityLinks
  import BookService

  // ---------------------------------------------------------------------------
  // Sequences of requested ids

  function Elements(s: seq<Id>): set<Id>
  {
    set x | x in s
  }

  predicate Distinct(s: seq<Id>)
  {
    forall i, j :: 0 <= i < j < |s| ==> s[i] != s[j]
  }

  lemma ElementsCons(s: seq<Id>)
    requires s != []
    ensures Elements(s) == {s[0]} + Elements(s[1..])
  {
    assert s == [s[0]] + s[1..];
  }

  lemma DistinctCons(s: seq<Id>)
    requires s != []
    ensures Distinct(s) <==> s[0] !in s[1..] && Distinct(s[1..])
  {
    var rest := s[1..];
    if Distinct(s) {
      forall i, j | 0 <= i < j < |rest| ensures rest[i] != rest[j] {
        assert rest[i] == s[i + 1] && rest[j] == s[j + 1];
      }
    }
    if s[0] !in rest && Distinct(rest) {
      forall i, j | 0 <= i < j < |s| ensures s[i] != s[j] {
        assert s[j] == rest[j - 1];
        if i > 0 {
          assert s[i] == rest[i - 1];
        }
      }
    }
  }

  /** A sequence has as many different elements as entries exactly when no id repeats. */
  lemma {:induction false} DistinctIffNoCollapse(s: seq<Id>)
    ensures |Elements(s)| <= |s|
    ensures |Elements(s)| == |s| <==> Distinct(s)
  {
    if s == [] {
      assert Elements(s) == {};
    } else {
      var rest := s[1..];
      DistinctIffNoCollapse(rest);
      ElementsCons(s);
      DistinctCons(s);
      if s[0] in rest {
        assert Elements(s) == Elements(rest);
      } else {
        assert s[0] !in Elements(rest);
      }
    }
  }

  /** The books `findAllById` returns, as ids: each stored requested id once. */
  function FoundIds(t: Tables, ids: seq<Id>): set<Id>
  {
    set x | x in ids && x in t.books
  }

  /** The requested ids that were not found, in request order (repeats kept). */
  function Missing(ids: seq<Id>, found: set<Id>): (m: seq<Id>)
    ensures forall x :: x in m <==> x in ids && x !in found
    ensures |m| <= |ids|
    ensures (forall x :: x in ids ==> x in found) ==> m == []
    ensures (forall x :: x in ids ==> x !in found) ==> m == ids
  {
    if ids == [] then []
    else (if ids[0] in found then [] else [ids[0]]) + Missing(ids[1..], found)
  }

  /** Repeats are kept: each id that was not found is reported as often as it was
      requested, and a found id never. */
  lemma {:induction false} MissingCounts(ids: seq<Id>, found: set<Id>)
    ensures forall x :: multiset(Missing(ids, found))[x] == if x in found then 0 else multiset(ids)[x]
    decreases |ids|
  {
    if ids != [] {
      MissingCounts(ids[1..], found);
      assert ids == [ids[0]] + ids[1..];
      assert multiset(ids) == multiset([ids[0]]) + multiset(ids[1..]);
    }
  }

  /** Unfolding `Missing` once. */
  lemma MissingCons(ids: seq<Id>, found: set<Id>)
    requires ids != []
    ensures Missing(ids, found) == (if ids[0] in found then [] else [ids[0]]) + Missing(ids[1..], found)
  {
  }

  /** Sequence facts the proof of `MissingAppend` needs, proved apart from `Missing` so
      that extensionality does not meet its postconditions. */
  lemma TailOfConcat(a: seq<Id>, b: seq<Id>)
    requires a != []
    ensures (a + b)[0] == a[0] && (a + b)[1..] == a[1..] + b
  {
  }

  lemma ConcatAssociates(x: seq<Id>, y: seq<Id>, z: seq<Id>)
    ensures x + (y + z) == (x + y) + z
  {
  }

  /** The filter keeps request order: the missing ids of a concatenation are those of
      its first part followed by those of its second. */
  lemma {:induction false} MissingAppend(a: seq<Id>, b: seq<Id>, found: set<Id>)
    ensures Missing(a + b, found) == Missing(a, found) + Missing(b, found)
    decreases |a|
  {
    if a == [] {
      assert a + b == b;
    } else {
      TailOfConcat(a, b);
      ConcatAssociates(if a[0] in found then [] else [a[0]], Missing(a[1..], found), Missing(b, found));
      MissingCons(a, found);
      MissingCons(a + b, found);
      MissingAppend(a[1..], b, found);
    }
  }

  /** The bulk add's count check passes exactly when every requested id names a stored
      book and no id is requested twice. */
  lemma {:induction false} CountCheckPassesIff(t: Tables, ids: seq<Id>)
    ensures |FoundIds(t, ids)| == |ids| <==> (forall x :: x in ids ==> x in t.books) && Distinct(ids)
  {
    DistinctIffNoCollapse(ids);
    var found := FoundIds(t, ids);
    assert found <= Elements(ids);
    if forall x :: x in ids ==> x in t.books {
      assert found == Elements(ids);
    } else {
      var x :| x in ids && x !in t.books;
      assert x in Elements(ids) && x !in found;
      SubsetCardinality(found, Elements(ids));
    }
  }

  /** A request that names only stored books but repeats one fails the count check, and
      reports no missing id. */
  lemma RepeatedIdFailsWithNothingMissing(t: Tables, ids: seq<Id>)
    requires forall x :: x in ids ==> x in t.books
    requires !Distinct(ids)
    ensures |FoundIds(t, ids)| != |ids|
    ensures Missing(ids, FoundIds(t, ids)) == []
  {
    CountCheckPassesIff(t, ids);
  }

  /** The (list, book) rows a bulk add creates. */
  function Links(list: Id, ids: seq<Id>): set<(Id, Id)>
  {
    set x | x in ids :: (list, x)
  }

  /** Adding the rows for `ids` puts exactly those books into the list. */
  lemma AddLinksView(t: Tables, list: Id, ids: seq<Id>)
    ensures BooksIn(t.(members := t.members + Links(list, ids)), list) == BooksIn(t, list) + Elements(ids)
  {
    var t' := t.(members := t.members + Links(list, ids));
    forall b ensures b in BooksIn(t', list) <==> b in BooksIn(t, list) + Elements(ids) {
      EntityLinks.ViewsAgree(t', list, b);
      EntityLinks.ViewsAgree(t, list, b);
      if b in ids {
        assert (list, b) in Links(list, ids);
      }
    }
  }

  // ---------------------------------------------------------------------------
  // Conversion

  /** `convertToDto` on a stored list: `getUser().getId()` throws for a list whose user was
      cleared by `User.removeReadingList`; otherwise it succeeds and carries the list's
      books, each converted by the book service's conversion. */
  function ReadingListToDto(t: Tables, id: Id): (r: Result<ReadingListDto>)
    requires Inv(t) && id in t.lists
    ensures r.Ok? <==> t.lists[id].owner.Some?
    ensures r.Err? ==> r.error == NullReference
    ensures r.Ok? ==> r.value.Valid() && r.value.id == Some(id) && r.value.userId == t.lists[id].owner
    ensures r.Ok? ==> r.value.name == Some(t.lists[id].name) && r.value.description == t.lists[id].description
                      && r.value.createdAt == Some(t.lists[id].createdAt)
                      && t.lists[id].owner.value in t.users
                      && r.value.username == Some(t.users[t.lists[id].owner.value].username)
    ensures r.Ok? ==> forall d :: d in r.value.books ==> d.id.Some? && d.id.value in BooksIn(t, id)
    ensures r.Ok? ==> forall b :: b in BooksIn(t, id) ==> b in t.books && BookService.ConvertToDto(t.books[b]).Ok?
    ensures r.Ok? ==> r.value.books == BookDtosOf(t, id)
  {
    var l := t.lists[id];
    if l.owner.None? then Err(NullReference)
    else
      assert forall b :: b in BooksIn(t, id) ==> (id, b) in t.members && b in t.books by {
        forall b | b in BooksIn(t, id) ensures (id, b) in t.members && b in t.books {
          EntityLinks.ViewsAgree(t, id, b);
        }
      }
      forall b | b in BooksIn(t, id) ensures BookService.ConvertToDto(t.books[b]).Ok? {
        BookService.StoredBooksConvert(t, b);
      }
      var dtos := BookDtosOf(t, id);
      NewReadingListDto(Some(l.id), Some(l.name), l.description, Some(l.createdAt), l.owner,
                        Some(t.users[l.owner.value].username), dtos)
  }

  /** The converted books of a list: `getBooks()` mapped through the book conversion. */
  function BookDtosOf(t: Tables, id: Id): set<BookDto>
  {
    set b | b in BooksIn(t, id) && b in t.books && BookService.ConvertToDto(t.books[b]).Ok?
          :: BookService.ConvertToDto(t.books[b]).value
  }

  /** `getReadingListById`: the lookup, then the conversion. */
  function GetReadingListById(t: Tables, id: Id): (r: Result<ReadingListDto>)
    requires Inv(t)
    ensures id !in t.lists ==> r == Err(ReadingListNotFound)
    ensures r.Ok? <==> id in t.lists && t.lists[id].owner.Some?
    ensures r.Ok? ==> r.value.id == Some(id) && r.value.userId == t.lists[id].owner
  {
    if id !in t.lists then Err(ReadingListNotFound) else ReadingListToDto(t, id)
  }

  /** A list that has just been created has no books, and its conversion succeeds. */
  lemma NewListKeepsInv(t: Tables, l: ReadingList)
    requires Inv(t) && l.id == t.nextId && l.owner.Some? && l.owner.value in t.users
    requires NonBlank(Some(l.name))
    ensures l.id !in t.lists
    ensures Inv(t.(lists := t.lists[l.id := l], nextId := l.id + 1))
    ensures BooksIn(t.(lists := t.lists[l.id := l], nextId := l.id + 1), l.id) == {}
  {
    FreshIdUnused(t);
    BumpKeepsInv(t);
    var t' := t.(nextId := t.nextId + 1);
    PutListKeepsInv(t', l);
    assert t'.(lists := t'.lists[l.id := l]) == t.(lists := t.lists[l.id := l], nextId := l.id + 1);
    forall b ensures b !in BooksIn(t, l.id) {
      EntityLinks.ViewsAgree(t, l.id, b);
    }
  }

  /** A new list owned by a user joins that user's reading lists. */
  lemma NewListOwnedView(t: Tables, l: ReadingList, user: Id)
    requires l.owner == Some(user)
    ensures ListsOwnedBy(t.(lists := t.lists[l.id := l], nextId := l.id + 1), user) == ListsOwnedBy(t, user) + {l.id}
  {
    var t2 := t.(lists := t.lists[l.id := l], nextId := l.id + 1);
    forall id ensures id in ListsOwnedBy(t2, user) <==> id in ListsOwnedBy(t, user) + {l.id} {
    }
  }

  // ---------------------------------------------------------------------------
  // Commands. Each returns what `convertToDto` makes of the saved list; when that
  // conversion throws, the transaction rolls back and the store is left as it was.

  /** `createReadingList`: the name check, then the user lookup; the new list belongs to
      that user and holds no books. */
  method CreateReadingList(st: Store, userId: Id, dto: ReadingListCreateDto, now: int)
    returns (r: Result<ReadingListDto>)
    requires st.Valid()
    modifies st
    ensures st.Valid()
    ensures ValidateForProcessing(dto).Fail? ==> r == Err(NameEmpty)
    ensures ValidateForProcessing(dto).Pass? && userId !in old(st.users) ==> r == Err(UserNotFound)
    ensures r.Ok? <==> ValidateForProcessing(dto).Pass? && userId in old(st.users)
    ensures r.Err? ==> st.Snapshot() == old(st.Snapshot())
    ensures r.Ok? ==>
      var id := old(st.nextId);
      id !in old(st.lists)
      && st.Snapshot() == old(st.Snapshot()).(lists := old(st.lists)[id := ReadingList(id, dto.name.value, dto.description, now, now, Some(userId))],
                                             nextId := id + 1)
      && BooksIn(st.Snapshot(), id) == {}
      && ListsOwnedBy(st.Snapshot(), userId) == ListsOwnedBy(old(st.Snapshot()), userId) + {id}
      && r == ReadingListToDto(st.Snapshot(), id)
      && r.value.name == dto.name && r.value.userId == Some(userId) && r.value.books == {}
  {
    if ValidateForProcessing(dto).Fail? {
      return Err(NameEmpty);
    }
    if userId !in st.users {
      return Err(UserNotFound);
    }
    var id := st.nextId;
    var l := ReadingList(id, dto.name.value, dto.description, now, now, Some(userId));
    NewListKeepsInv(st.Snapshot(), l);
    NewListOwnedView(st.Snapshot(), l, userId);
    st.lists, st.nextId := st.lists[id := l], id + 1;
    r := ReadingListToDto(st.Snapshot(), id);
  }

  /** `updateReadingList`: the name check, then the lookup; only the name, description and
      modification time change (owner and books stay). */
  method UpdateReadingList(st: Store, id: Id, dto: ReadingListCreateDto, now: int)
    returns (r: Result<ReadingListDto>)
    requires st.Valid()
    modifies st
    ensures st.Valid()
    ensures ValidateForProcessing(dto).Fail? ==> r == Err(NameEmpty)
    ensures ValidateForProcessing(dto).Pass? && id !in old(st.lists) ==> r == Err(ReadingListNotFound)
    ensures ValidateForProcessing(dto).Pass? && id in old(st.lists) && old(st.lists[id].owner).None?
            ==> r == Err(NullReference)
    ensures r.Ok? <==> ValidateForProcessing(dto).Pass? && id in old(st.lists) && old(st.lists[id].owner).Some?
    ensures r.Err? ==> st.Snapshot() == old(st.Snapshot())
    ensures r.Ok? ==>
      st.Snapshot() == old(st.Snapshot()).(lists := old(st.lists)[id := old(st.lists[id]).(name := dto.name.value, description := dto.description, updatedAt := now)])
      && BooksIn(st.Snapshot(), id) == BooksIn(old(st.Snapshot()), id)
      && r == ReadingListToDto(st.Snapshot(), id)
  {
    if ValidateForProcessing(dto).Fail? {
      return Err(NameEmpty);
    }
    if id !in st.lists {
      return Err(ReadingListNotFound);
    }
    var l := st.lists[id];
    if l.owner.None? {
      return Err(NullReference);
    }
    var l' := l.(name := dto.name.value, description := dto.description, updatedAt := now);
    PutListKeepsInv(st.Snapshot(), l');
    st.lists := st.lists[id := l'];
    r := ReadingListToDto(st.Snapshot(), id);
  }

  /** `deleteReadingList`: the list and its join rows go; the books themselves stay. */
  method DeleteReadingList(st: Store, id: Id) returns (o: Outcome)
    requires st.Valid()
    modifies st
    ensures st.Valid()
    ensures o.Fail? <==> id !in old(st.lists)
    ensures o.Fail? ==> o.error == ReadingListNotFound && st.Snapshot() == old(st.Snapshot())
    ensures o.Pass? ==> st.Snapshot() == WithoutList(old(st.Snapshot()), id)
    ensures o.Pass? ==> id !in st.lists && st.books == old(st.books) && BooksIn(st.Snapshot(), id) == {}
  {
    if id !in st.lists {
      return Fail(ReadingListNotFound);
    }
    WithoutListKeepsInv(st.Snapshot(), id);
    var t := WithoutList(st.Snapshot(), id);
    forall b ensures b !in BooksIn(t, id) {
      EntityLinks.ViewsAgree(t, id, b);
    }
    st.lists, st.members := t.lists, t.members;
    o := Pass;
  }

  /** `addBookToReadingList`: list lookup, then book lookup, then `ReadingList.addBook`.
      Adding a book that is already in the list changes nothing. */
  method AddBookToReadingList(st: Store, listId: Id, bookId: Id) returns (r: Result<ReadingListDto>)
    requires st.Valid()
    modifies st
    ensures st.Valid()
    ensures listId !in old(st.lists) ==> r == Err(ReadingListNotFound)
    ensures listId in old(st.lists) && bookId !in old(st.books) ==> r == Err(BookNotFound)
    ensures listId in old(st.lists) && bookId in old(st.books) && old(st.lists[listId].owner).None?
            ==> r == Err(NullReference)
    ensures r.Ok? <==> listId in old(st.lists) && bookId in old(st.books) && old(st.lists[listId].owner).Some?
    ensures r.Err? ==> st.Snapshot() == old(st.Snapshot())
    ensures r.Ok? ==>
      st.Snapshot() == old(st.Snapshot()).(members := old(st.members) + {(listId, bookId)})
      && BooksIn(st.Snapshot(), listId) == BooksIn(old(st.Snapshot()), listId) + {bookId}
      && r == ReadingListToDto(st.Snapshot(), listId)
    ensures bookId in BooksIn(old(st.Snapshot()), listId) ==> st.Snapshot() == old(st.Snapshot())
  {
    EntityLinks.ViewsAgree(st.Snapshot(), listId, bookId);
    if listId !in st.lists {
      return Err(ReadingListNotFound);
    }
    if bookId !in st.books {
      return Err(BookNotFound);
    }
    if st.lists[listId].owner.None? {
      return Err(NullReference);
    }
    EntityLinks.AddMemberViews(st.Snapshot(), listId, bookId);
    EntityLinks.AddBook(st, listId, bookId);
    r := ReadingListToDto(st.Snapshot(), listId);
  }

  /** `removeBookFromReadingList`: list lookup, then book lookup, then
      `ReadingList.removeBook`. Removing a book that is not in the list changes nothing. */
  method RemoveBookFromReadingList(st: Store, listId: Id, bookId: Id) returns (r: Result<ReadingListDto>)
    requires st.Valid()
    modifies st
    ensures st.Valid()
    ensures listId !in old(st.lists) ==> r == Err(ReadingListNotFound)
    ensures listId in old(st.lists) && bookId !in old(st.books) ==> r == Err(BookNotFound)
    ensures listId in old(st.lists) && bookId in old(st.books) && old(st.lists[listId].owner).None?
            ==> r == Err(NullReference)
    ensures r.Ok? <==> listId in old(st.lists) && bookId in old(st.books) && old(st.lists[listId].owner).Some?
    ensures r.Err? ==> st.Snapshot() == old(st.Snapshot())
    ensures r.Ok? ==>
      st.Snapshot() == old(st.Snapshot()).(members := old(st.members) - {(listId, bookId)})
      && BooksIn(st.Snapshot(), listId) == BooksIn(old(st.Snapshot()), listId) - {bookId}
      && r == ReadingListToDto(st.Snapshot(), listId)
    ensures bookId !in BooksIn(old(st.Snapshot()), listId) ==> st.Snapshot() == old(st.Snapshot())
  {
    EntityLinks.ViewsAgree(st.Snapshot(), listId, bookId);
    if listId !in st.lists {
      return Err(ReadingListNotFound);
    }
    if bookId !in st.books {
      return Err(BookNotFound);
    }
    if st.lists[listId].owner.None? {
      return Err(NullReference);
    }
    EntityLinks.RemoveMemberViews(st.Snapshot(), listId, bookId);
    EntityLinks.RemoveBook(st, listId, bookId);
    r := ReadingListToDto(st.Snapshot(), listId);
  }

  /** `isBookInReadingList`: the list lookup, then a scan of the list's books for one whose
      id is `bookId`. */
  method IsBookInReadingList(st: Store, listId: Id, bookId: Id) returns (r: Result<bool>)
    requires st.Valid()
    ensures listId !in st.lists ==> r == Err(ReadingListNotFound)
    ensures listId in st.lists ==> r == Ok(bookId in BooksIn(st.Snapshot(), listId))
  {
    if listId !in st.lists {
      return Err(ReadingListNotFound);
    }
    var books := BooksIn(st.Snapshot(), listId);
    var remaining := books;
    var found := false;
    while remaining != {} && !found
      invariant remaining <= books
      invariant found ==> bookId in books
      invariant !found ==> (bookId in books <==> bookId in remaining)
      decreases |remaining|
    {
      var b :| b in remaining;
      if b == bookId {
        found := true;
      }
      remaining := remaining - {b};
    }
    r := Ok(found);
  }

  /** `addBooksToReadingList`: the list lookup; then the count check, which fails (naming
      the ids that were not found, in request order) unless every requested id names a
      stored book and none repeats; then each book not yet in the list is added. */
  method AddBooksToReadingList(st: Store, listId: Id, ids: seq<Id>) returns (r: Result<ReadingListDto>)
    requires st.Valid()
    modifies st
    ensures st.Valid()
    ensures listId !in old(st.lists) ==> r == Err(ReadingListNotFound)
    ensures listId in old(st.lists) && |FoundIds(old(st.Snapshot()), ids)| != |ids|
            ==> r == Err(BooksNotFound(Missing(ids, FoundIds(old(st.Snapshot()), ids))))
    ensures listId in old(st.lists) && |FoundIds(old(st.Snapshot()), ids)| == |ids| && old(st.lists[listId].owner).None?
            ==> r == Err(NullReference)
    ensures r.Ok? <==> listId in old(st.lists) && old(st.lists[listId].owner).Some?
                       && (forall x :: x in ids ==> x in old(st.books)) && Distinct(ids)
    ensures r.Err? ==> st.Snapshot() == old(st.Snapshot())
    ensures r.Ok? ==>
      st.Snapshot() == old(st.Snapshot()).(members := old(st.members) + Links(listId, ids))
      && BooksIn(st.Snapshot(), listId) == BooksIn(old(st.Snapshot()), listId) + Elements(ids)
      && r == ReadingListToDto(st.Snapshot(), listId)
  {
    if listId !in st.lists {
      return Err(ReadingListNotFound);
    }
    var found := FoundIds(st.Snapshot(), ids);
    CountCheckPassesIff(st.Snapshot(), ids);
    if |found| != |ids| {
      return Err(BooksNotFound(Missing(ids, found)));
    }
    if st.lists[listId].owner.None? {
      return Err(NullReference);
    }
    AddLinksView(st.Snapshot(), listId, ids);
    AddEach(st, listId, ids);
    r := ReadingListToDto(st.Snapshot(), listId);
  }

  lemma LinksSnoc(list: Id, ids: seq<Id>, i: nat)
    requires i < |ids|
    ensures Links(list, ids[..i + 1]) == Links(list, ids[..i]) + {(list, ids[i])}
  {
    assert ids[..i + 1] == ids[..i] + [ids[i]];
  }

  /** The `for (Book book : books)` loop of `addBooksToReadingList`, once every requested
      book has been found: a book goes in only when `getBooks().contains(book)` is false.
      `contains` compares with `Book.equals`, which on stored books is id equality
      (`EntityLinks.StoredBooksEqualIffSameId`). */
  method AddEach(st: Store, listId: Id, ids: seq<Id>)
    requires st.Valid() && listId in st.lists
    requires forall x :: x in ids ==> x in st.books
    modifies st
    ensures st.Valid()
    ensures st.Snapshot() == old(st.Snapshot()).(members := old(st.members) + Links(listId, ids))
  {
    var i := 0;
    while i < |ids|
      invariant 0 <= i <= |ids|
      invariant st.Valid()
      invariant st.Snapshot() == old(st.Snapshot()).(members := old(st.members) + Links(listId, ids[..i]))
    {
      LinksSnoc(listId, ids, i);
      if (listId, ids[i]) !in st.members {
        EntityLinks.AddBook(st, listId, ids[i]);
      }
      i := i + 1;
    }
    assert ids[..i] == ids;
  }
}
