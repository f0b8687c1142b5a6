/** The decisions `BookController` takes before and between its service calls:
    `createBook`'s ISBN-format and publication-date guards, and `createBookAndAdd`, which
    either attaches the book that already carries the ISBN or creates a new book and then
    attaches it. Responses and status codes are not modelled; each outcome is the value or
    the exception that decides the response. */
module BookController {
  import opened Common
  import opened Entities
  import opened Dtos
  import opened Store
  import BookService
  import ReadingListService
  import EntityLinks

  /** `matches("^[\\d-]+$")`: at least one character, each an ASCII digit or a hyphen. */
  predicate DigitsAndHyphens(s: string)
  {
    |s| > 0 && forall i :: 0 <= i < |s| ==> ('0' <= s[i] <= '9' || s[i] == '-')
  }

  /** A string that passes the digits-and-hyphens check is never blank. */
  lemma DigitsAndHyphensNotBlank(s: string)
    requires DigitsAndHyphens(s)
    ensures NonBlank(Some(s))
  {
    assert !IsWhitespace(s[0]);
  }

  // ---------------------------------------------------------------------------
  // createBook

  /** `createBook`: the strict ISBN pattern (a parameter here; a null ISBN makes `matches`
      throw), then the future-date guard, then the service call with the caller's id. A
      publication date equal to today passes. */
  method CreateBook(st: Store, dto: BookDto, principal: Option<User>, strictIsbn: string -> bool,
                    today: int, now: int) returns (r: Result<Book>)
    requires st.Valid() && dto.Valid()
    modifies st
    ensures st.Valid()
    ensures dto.isbn.None? ==> r == Err(NullReference)
    ensures dto.isbn.Some? && !strictIsbn(dto.isbn.value) ==> r == Err(InvalidIsbnFormat)
    ensures dto.isbn.Some? && strictIsbn(dto.isbn.value) && dto.publicationDate.value > today ==> r == Err(FutureDate)
    ensures dto.isbn.Some? && strictIsbn(dto.isbn.value) && dto.publicationDate.value <= today && principal.None?
            ==> r == Err(NullReference)
    ensures dto.isbn.Some? && strictIsbn(dto.isbn.value) && dto.publicationDate.value <= today && principal.Some?
            && NonBlank(dto.isbn) && BooksWithIsbn(old(st.Snapshot()), dto.isbn) != {}
            ==> r == Err(IsbnTaken)
    ensures dto.isbn.Some? && strictIsbn(dto.isbn.value) && dto.publicationDate.value <= today && principal.Some?
            && (NullOrBlank(dto.isbn) || BooksWithIsbn(old(st.Snapshot()), dto.isbn) == {}) && principal.value.id !in old(st.users)
            ==> r == Err(UserNotFound)
    ensures r.Err? ==> st.Snapshot() == old(st.Snapshot())
    ensures r.Ok? <==> dto.isbn.Some? && strictIsbn(dto.isbn.value) && dto.publicationDate.value <= today
                       && principal.Some? && principal.value.id in old(st.users)
                       && (NullOrBlank(dto.isbn) || BooksWithIsbn(old(st.Snapshot()), dto.isbn) == {})
    ensures r.Ok? ==> r.value == BookService.ConvertToEntity(dto, old(st.nextId), principal.value.id, now)
                      && st.Snapshot() == old(st.Snapshot()).(books := old(st.books)[r.value.id := r.value], nextId := r.value.id + 1)
  {
    if dto.isbn.None? {
      return Err(NullReference);
    }
    if !strictIsbn(dto.isbn.value) {
      return Err(InvalidIsbnFormat);
    }
    if dto.publicationDate.value > today {
      return Err(FutureDate);
    }
    if principal.None? {
      return Err(NullReference);
    }
    r := BookService.CreateBook(st, dto, principal.value.id, now);
  }

  // ---------------------------------------------------------------------------
  // createBookAndAdd

  /** The branch for an ISBN some stored book already carries: if the list already holds
      that book, the list is returned as it is; otherwise the book is added to it. No book
      is created, and the other supplied book fields are not used. */
  method AttachExisting(st: Store, listId: Id, bookId: Id) returns (r: Result<ReadingListDto>)
    requires st.Valid() && bookId in st.books
    modifies st
    ensures st.Valid()
    ensures listId !in old(st.lists) ==> r == Err(ReadingListNotFound)
    ensures listId in old(st.lists) && old(st.lists[listId].owner).None? ==> r == Err(NullReference)
    ensures r.Err? ==> st.Snapshot() == old(st.Snapshot())
    ensures bookId in BooksIn(old(st.Snapshot()), listId)
            ==> st.Snapshot() == old(st.Snapshot()) && r == ReadingListService.GetReadingListById(old(st.Snapshot()), listId)
    ensures listId in old(st.lists) && old(st.lists[listId].owner).Some? ==>
      r.Ok? && st.Snapshot() == old(st.Snapshot()).(members := old(st.members) + {(listId, bookId)})
      && BooksIn(st.Snapshot(), listId) == BooksIn(old(st.Snapshot()), listId) + {bookId}
      && r == ReadingListService.ReadingListToDto(st.Snapshot(), listId)
  {
    var inList := ReadingListService.IsBookInReadingList(st, listId, bookId);
    if inList.Err? {
      return Err(inList.error);
    }
    if inList.value {
      EntityLinks.ViewsAgree(st.Snapshot(), listId, bookId);
      assert st.members + {(listId, bookId)} == st.members;
      return ReadingListService.GetReadingListById(st.Snapshot(), listId);
    }
    r := ReadingListService.AddBookToReadingList(st, listId, bookId);
  }

  /** The branch that creates a book: the future-date guard, then `createBook` with the
      caller's id, then `addBookToReadingList`. Nothing wraps the two writes in one
      transaction, so when the list step fails the new book stays stored. */
  method CreateAndAttach(st: Store, dto: BookDto, listId: Id, principal: Option<User>, today: int, now: int)
    returns (r: Result<ReadingListDto>)
    requires st.Valid() && dto.Valid()
    requires NullOrBlank(dto.isbn) || BooksWithIsbn(st.Snapshot(), dto.isbn) == {}
    modifies st
    ensures st.Valid()
    ensures dto.publicationDate.value > today ==> r == Err(FutureDate) && st.Snapshot() == old(st.Snapshot())
    ensures dto.publicationDate.value <= today && principal.None? ==> r == Err(NullReference) && st.Snapshot() == old(st.Snapshot())
    ensures dto.publicationDate.value <= today && principal.Some? && principal.value.id !in old(st.users)
            ==> r == Err(UserNotFound) && st.Snapshot() == old(st.Snapshot())
    ensures dto.publicationDate.value <= today && principal.Some? && principal.value.id in old(st.users) ==>
      var id := old(st.nextId);
      var b := BookService.ConvertToEntity(dto, id, principal.value.id, now);
      id !in old(st.books)
      && st.Snapshot() == old(st.Snapshot()).(books := old(st.books)[id := b], nextId := id + 1, members := st.members)
      && (listId !in old(st.lists) ==> r == Err(ReadingListNotFound) && st.members == old(st.members))
      && (listId in old(st.lists) && old(st.lists[listId].owner).None? ==>
            r == Err(NullReference) && st.members == old(st.members))
      && (listId in old(st.lists) && old(st.lists[listId].owner).Some? ==>
            r.Ok? && st.members == old(st.members) + {(listId, id)}
            && BooksIn(st.Snapshot(), listId) == BooksIn(old(st.Snapshot()), listId) + {id}
            && r == ReadingListService.ReadingListToDto(st.Snapshot(), listId))
  {
    if dto.publicationDate.value > today {
      return Err(FutureDate);
    }
    if principal.None? {
      return Err(NullReference);
    }
    var created := BookService.CreateBook(st, dto, principal.value.id, now);
    if created.Err? {
      return Err(created.error);
    }
    r := ReadingListService.AddBookToReadingList(st, listId, created.value.id);
  }

  /** `createBookAndAdd`. A non-blank ISBN must consist of digits and hyphens; then the book
      carrying it, if any, is attached instead of creating one. A null or blank ISBN skips
      both and always creates a new book owned by the caller. */
  method CreateBookAndAdd(st: Store, dto: BookDto, listId: Id, principal: Option<User>, today: int, now: int)
    returns (r: Result<ReadingListDto>)
    requires st.Valid() && dto.Valid()
    modifies st
    ensures st.Valid()
    ensures NonBlank(dto.isbn) && !DigitsAndHyphens(dto.isbn.value)
            ==> r == Err(InvalidIsbnFormat) && st.Snapshot() == old(st.Snapshot())
    ensures NonBlank(dto.isbn) && DigitsAndHyphens(dto.isbn.value) && |BooksWithIsbn(old(st.Snapshot()), dto.isbn)| == 1 ==>
      forall b :: b in BooksWithIsbn(old(st.Snapshot()), dto.isbn) ==>
        (listId !in old(st.lists) ==> r == Err(ReadingListNotFound))
        && (listId in old(st.lists) && old(st.lists[listId].owner).None? ==> r == Err(NullReference))
        && (r.Err? ==> st.Snapshot() == old(st.Snapshot()))
        && (b in BooksIn(old(st.Snapshot()), listId) ==>
              st.Snapshot() == old(st.Snapshot()) && r == ReadingListService.GetReadingListById(old(st.Snapshot()), listId))
        && (listId in old(st.lists) && old(st.lists[listId].owner).Some? ==>
              r.Ok? && st.Snapshot() == old(st.Snapshot()).(members := old(st.members) + {(listId, b)})
              && BooksIn(st.Snapshot(), listId) == BooksIn(old(st.Snapshot()), listId) + {b}
              && r == ReadingListService.ReadingListToDto(st.Snapshot(), listId))
    ensures (NullOrBlank(dto.isbn) || (DigitsAndHyphens(dto.isbn.value) && BooksWithIsbn(old(st.Snapshot()), dto.isbn) == {}))
            && dto.publicationDate.value > today
            ==> r == Err(FutureDate) && st.Snapshot() == old(st.Snapshot())
    ensures (NullOrBlank(dto.isbn) || (DigitsAndHyphens(dto.isbn.value) && BooksWithIsbn(old(st.Snapshot()), dto.isbn) == {}))
            && dto.publicationDate.value <= today && (principal.None? || principal.value.id !in old(st.users))
            ==> r == Err(if principal.None? then NullReference else UserNotFound) && st.Snapshot() == old(st.Snapshot())
    ensures (NullOrBlank(dto.isbn) || (DigitsAndHyphens(dto.isbn.value) && BooksWithIsbn(old(st.Snapshot()), dto.isbn) == {}))
            && dto.publicationDate.value <= today && principal.Some? && principal.value.id in old(st.users) ==>
      var id := old(st.nextId);
      var b := BookService.ConvertToEntity(dto, id, principal.value.id, now);
      id !in old(st.books)
      && st.Snapshot() == old(st.Snapshot()).(books := old(st.books)[id := b], nextId := id + 1, members := st.members)
      && (listId !in old(st.lists) ==> r == Err(ReadingListNotFound) && st.members == old(st.members))
      && (listId in old(st.lists) && old(st.lists[listId].owner).None? ==>
            r == Err(NullReference) && st.members == old(st.members))
      && (listId in old(st.lists) && old(st.lists[listId].owner).Some? ==>
            r.Ok? && st.members == old(st.members) + {(listId, id)}
            && BooksIn(st.Snapshot(), listId) == BooksIn(old(st.Snapshot()), listId) + {id}
            && r == ReadingListService.ReadingListToDto(st.Snapshot(), listId))
  {
    if NonBlank(dto.isbn) {
      if !DigitsAndHyphens(dto.isbn.value) {
        return Err(InvalidIsbnFormat);
      }
      var found := BookService.FindBookByIsbn(st, dto.isbn);
      if found.Err? {
        return Err(found.error);
      }
      if found.value.Some? {
        var b := found.value.value.id;
        assert b in BooksWithIsbn(st.Snapshot(), dto.isbn);
        SingletonMember(BooksWithIsbn(st.Snapshot(), dto.isbn), b);
        r := AttachExisting(st, listId, b);
        return;
      }
    }
    r := CreateAndAttach(st, dto, listId, principal, today, now);
  }

  lemma SingletonMember(s: set<Id>, x: Id)
    requires x in s && |s| <= 1
    ensures s == {x}
  {
    if y :| y in s && y != x {
      assert {x, y} <= s;
      assert |{x, y}| == 2;
      SubsetCardinality({x, y}, s);
    }
  }
}
