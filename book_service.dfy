/** `BookServiceImpl`: the book catalogue. ISBN uniqueness is checked only for non-blank
    ISBNs; a full update overwrites the six DTO fields, a partial update only the non-null
    ones; the creator never changes after creation. */
module BookService {
  import opened Common
  import opened Entities
  import opened Dtos
  import opened Store

  // ---------------------------------------------------------------------------
  // Conversions

  /** `convertToEntity` followed by `setCreatedBy` and the id and timestamps the insert
      assigns. The DTO has no publisher, so a new book has none. */
  function ConvertToEntity(dto: BookDto, id: Id, creator: Id, now: int): (b: Book)
    requires dto.Valid()
  {
    Book(id, dto.title.value, dto.author.value, dto.publicationDate.value, dto.description,
         None, dto.isbn, dto.coverImageUrl, now, now, creator)
  }

  /** `convertToDto`: goes through the `BookDto` constructor, so it throws for a blank
      title or author and succeeds otherwise. */
  function ConvertToDto(b: Book): (r: Result<BookDto>)
    ensures r.Ok? <==> NonBlank(Some(b.title)) && NonBlank(Some(b.author))
    ensures r.Ok? ==> r.value.Valid() && r.value.id == Some(b.id)
  {
    NewBookDto(Some(b.id), Some(b.title), Some(b.author), Some(b.publicationDate), b.description,
               b.isbn, b.coverImageUrl)
  }

  /** A stored book converts back to a DTO carrying the six fields it was created from. */
  lemma ConvertRoundTrip(dto: BookDto, id: Id, creator: Id, now: int)
    requires dto.Valid()
    ensures ConvertToDto(ConvertToEntity(dto, id, creator, now)) == Ok(dto.(id := Some(id)))
  {
  }

  /** Under the store invariant every stored book converts without throwing. */
  lemma StoredBooksConvert(t: Tables, id: Id)
    requires Inv(t) && id in t.books
    ensures ConvertToDto(t.books[id]).Ok?
  {
  }

  // ---------------------------------------------------------------------------
  // Queries

  /** `isBookOwner`: `existsByIdAndCreatedBy_Id`. */
  predicate IsBookOwner(t: Tables, book: Id, user: Id)
  {
    book in t.books && t.books[book].createdBy == user
  }

  /** Under the invariant at most one book carries a given non-blank ISBN. */
  lemma {:induction false} NonBlankIsbnAtMostOneBook(t: Tables, isbn: Option<string>)
    requires Inv(t) && NonBlank(isbn)
    ensures |BooksWithIsbn(t, isbn)| <= 1
  {
    var s := BooksWithIsbn(t, isbn);
    if s != {} {
      var i :| i in s;
      forall j | j in s ensures j == i {
      }
      assert s == {i};
    }
  }

  /** `findBookByIsbn`: empty when no book has the ISBN; `findByIsbn` throws when more than
      one does, which the invariant rules out for a non-blank ISBN but not for a blank or
      null one. */
  method FindBookByIsbn(st: Store, isbn: Option<string>) returns (r: Result<Option<Book>>)
    requires st.Valid()
    ensures r == Ok(None) <==> BooksWithIsbn(st.Snapshot(), isbn) == {}
    ensures r.Err? <==> |BooksWithIsbn(st.Snapshot(), isbn)| > 1
    ensures r.Err? ==> r.error == NonUniqueResult
    ensures r.Ok? && r.value.Some? ==> r.value.value.id in st.books && st.books[r.value.value.id] == r.value.value
                                       && r.value.value.isbn == isbn && BooksWithIsbn(st.Snapshot(), isbn) == {r.value.value.id}
  {
    var found := BooksWithIsbn(st.Snapshot(), isbn);
    if found == {} {
      return Ok(None);
    }
    var id :| id in found;
    if found != {id} {
      assert |found| > 1 by {
        var other :| other in found && other != id;
        var rest := found - {id};
        assert other in rest;
        assert found == rest + {id};
      }
      return Err(NonUniqueResult);
    }
    return Ok(Some(st.books[id]));
  }

  // ---------------------------------------------------------------------------
  // Commands

  /** `createBook`. */
  method CreateBook(st: Store, dto: BookDto, userId: Id, now: int) returns (r: Result<Book>)
    requires st.Valid() && dto.Valid()
    modifies st
    ensures st.Valid()
    ensures NonBlank(dto.isbn) && BooksWithIsbn(old(st.Snapshot()), dto.isbn) != {} ==> r == Err(IsbnTaken)
    ensures (NullOrBlank(dto.isbn) || BooksWithIsbn(old(st.Snapshot()), dto.isbn) == {}) && userId !in old(st.users)
            ==> r == Err(UserNotFound)
    ensures r.Ok? <==> (NullOrBlank(dto.isbn) || BooksWithIsbn(old(st.Snapshot()), dto.isbn) == {}) && userId in old(st.users)
    ensures r.Err? ==> st.Snapshot() == old(st.Snapshot())
    ensures r.Ok? ==> r.value == ConvertToEntity(dto, old(st.nextId), userId, now)
    ensures r.Ok? ==> r.value.id !in old(st.books)
                      && st.Snapshot() == old(st.Snapshot()).(books := old(st.books)[r.value.id := r.value], nextId := r.value.id + 1)
    ensures r.Ok? ==> IsBookOwner(st.Snapshot(), r.value.id, userId) && ListsHolding(st.Snapshot(), r.value.id) == {}
  {
    if NonBlank(dto.isbn) && BooksWithIsbn(st.Snapshot(), dto.isbn) != {} {
      return Err(IsbnTaken);
    }
    if userId !in st.users {
      return Err(UserNotFound);
    }
    var id := st.nextId;
    var b := ConvertToEntity(dto, id, userId, now);
    NewBookKeepsInv(st.Snapshot(), b);
    st.books, st.nextId := st.books[id := b], id + 1;
    r := Ok(b);
  }

  /** Inserting a book under the next id, after `createBook`'s ISBN check passed. */
  lemma NewBookKeepsInv(t: Tables, b: Book)
    requires Inv(t) && b.id == t.nextId
    requires NonBlank(Some(b.title)) && NonBlank(Some(b.author))
    requires NullOrBlank(b.isbn) || BooksWithIsbn(t, b.isbn) == {}
    ensures b.id !in t.books && ListsHolding(t, b.id) == {}
    ensures Inv(t.(books := t.books[b.id := b], nextId := b.id + 1))
  {
    FreshIdUnused(t);
    BumpKeepsInv(t);
    var t' := t.(nextId := t.nextId + 1);
    if NonBlank(b.isbn) {
      forall j | j in t'.books && j != b.id ensures t'.books[j].isbn != b.isbn {
        assert j !in BooksWithIsbn(t, b.isbn);
      }
    }
    PutBookKeepsInv(t', b);
    assert t'.(books := t'.books[b.id := b]) == t.(books := t.books[b.id := b], nextId := b.id + 1);
  }

  /** The row `updateBook` writes: the six DTO fields overwrite the stored ones (null
      included); publisher, creator and creation time are kept. */
  function FullUpdate(b: Book, dto: BookDto, now: int): (r: Book)
    requires dto.Valid()
    ensures r.id == b.id && r.createdBy == b.createdBy && r.publisher == b.publisher && r.createdAt == b.createdAt
    ensures ConvertToDto(r) == Ok(dto.(id := Some(b.id)))
  {
    b.(title := dto.title.value, author := dto.author.value, publicationDate := dto.publicationDate.value,
       description := dto.description, isbn := dto.isbn, coverImageUrl := dto.coverImageUrl, updatedAt := now)
  }

  /** The row `partialUpdateBook` writes: each non-null DTO field replaces the stored one,
      each null one leaves it. */
  function PartialUpdate(b: Book, dto: BookDto, now: int): (r: Book)
    requires dto.Valid()
    ensures r.id == b.id && r.createdBy == b.createdBy && r.publisher == b.publisher && r.createdAt == b.createdAt
    ensures r.description == (if dto.description.Some? then dto.description else b.description)
    ensures r.isbn == (if dto.isbn.Some? then dto.isbn else b.isbn)
    ensures r.coverImageUrl == (if dto.coverImageUrl.Some? then dto.coverImageUrl else b.coverImageUrl)
  {
    var title := if dto.title.Some? then dto.title.value else b.title;
    var author := if dto.author.Some? then dto.author.value else b.author;
    var date := if dto.publicationDate.Some? then dto.publicationDate.value else b.publicationDate;
    b.(title := title, author := author, publicationDate := date,
       description := if dto.description.Some? then dto.description else b.description,
       isbn := if dto.isbn.Some? then dto.isbn else b.isbn,
       coverImageUrl := if dto.coverImageUrl.Some? then dto.coverImageUrl else b.coverImageUrl,
       updatedAt := now)
  }

  /** A constructed `BookDto` always has title, author and date, so a partial update always
      replaces those three; it differs from a full update only where the DTO has a null
      description, ISBN or cover URL. */
  lemma {:induction false} PartialUpdateOfCompleteDtoIsFullUpdate(b: Book, dto: BookDto, now: int)
    requires dto.Valid()
    ensures PartialUpdate(b, dto, now).title == dto.title.value
    ensures PartialUpdate(b, dto, now).author == dto.author.value
    ensures PartialUpdate(b, dto, now).publicationDate == dto.publicationDate.value
    ensures dto.description.Some? && dto.isbn.Some? && dto.coverImageUrl.Some? ==> PartialUpdate(b, dto, now) == FullUpdate(b, dto, now)
  {
  }

  /** A blank but non-null ISBN in a partial update is non-null, so it replaces the stored
      ISBN, and being blank it is never checked against other books. */
  lemma BlankIsbnReplacesStoredIsbn(b: Book, dto: BookDto, now: int)
    requires dto.Valid() && dto.isbn == Some("")
    ensures PartialUpdate(b, dto, now).isbn == Some("") && NullOrBlank(dto.isbn)
  {
  }

  /** The ISBN guard shared by `updateBook` and `partialUpdateBook`: a non-blank ISBN that
      differs from the book's own and is held by some book. */
  predicate IsbnCollision(t: Tables, id: Id, isbn: Option<string>)
    requires id in t.books
  {
    NonBlank(isbn) && isbn != t.books[id].isbn && BooksWithIsbn(t, isbn) != {}
  }

  /** Without a collision, writing `isbn` into book `id` keeps non-blank ISBNs unique. */
  lemma NoCollisionKeepsIsbnsUnique(t: Tables, id: Id, isbn: Option<string>)
    requires Inv(t) && id in t.books && !IsbnCollision(t, id, isbn)
    ensures NonBlank(isbn) ==> forall j :: j in t.books && j != id ==> t.books[j].isbn != isbn
  {
    if NonBlank(isbn) {
      forall j | j in t.books && j != id ensures t.books[j].isbn != isbn {
        if isbn == t.books[id].isbn {
          assert NonBlank(t.books[id].isbn);
        } else {
          assert j !in BooksWithIsbn(t, isbn);
        }
      }
    }
  }

  /** `updateBook`. */
  method UpdateBook(st: Store, id: Id, dto: BookDto, now: int) returns (r: Result<Book>)
    requires st.Valid() && dto.Valid()
    modifies st
    ensures st.Valid()
    ensures id !in old(st.books) ==> r == Err(BookNotFound)
    ensures id in old(st.books) && IsbnCollision(old(st.Snapshot()), id, dto.isbn) ==> r == Err(IsbnTaken)
    ensures r.Err? ==> st.Snapshot() == old(st.Snapshot())
    ensures r.Ok? <==> id in old(st.books) && !IsbnCollision(old(st.Snapshot()), id, dto.isbn)
    ensures r.Ok? ==> r.value == FullUpdate(old(st.books[id]), dto, now)
                      && st.Snapshot() == old(st.Snapshot()).(books := old(st.books)[id := r.value])
  {
    if id !in st.books {
      return Err(BookNotFound);
    }
    if IsbnCollision(st.Snapshot(), id, dto.isbn) {
      return Err(IsbnTaken);
    }
    var b := FullUpdate(st.books[id], dto, now);
    NoCollisionKeepsIsbnsUnique(st.Snapshot(), id, dto.isbn);
    PutBookKeepsInv(st.Snapshot(), b);
    st.books := st.books[id := b];
    r := Ok(b);
  }

  /** `partialUpdateBook`: the same lookup and ISBN guard as `updateBook`. */
  method PartialUpdateBook(st: Store, id: Id, dto: BookDto, now: int) returns (r: Result<Book>)
    requires st.Valid() && dto.Valid()
    modifies st
    ensures st.Valid()
    ensures id !in old(st.books) ==> r == Err(BookNotFound)
    ensures id in old(st.books) && IsbnCollision(old(st.Snapshot()), id, dto.isbn) ==> r == Err(IsbnTaken)
    ensures r.Err? ==> st.Snapshot() == old(st.Snapshot())
    ensures r.Ok? <==> id in old(st.books) && !IsbnCollision(old(st.Snapshot()), id, dto.isbn)
    ensures r.Ok? ==> r.value == PartialUpdate(old(st.books[id]), dto, now)
                      && st.Snapshot() == old(st.Snapshot()).(books := old(st.books)[id := r.value])
  {
    if id !in st.books {
      return Err(BookNotFound);
    }
    if IsbnCollision(st.Snapshot(), id, dto.isbn) {
      return Err(IsbnTaken);
    }
    var b := PartialUpdate(st.books[id], dto, now);
    NoCollisionKeepsIsbnsUnique(st.Snapshot(), id, dto.isbn);
    if dto.isbn.None? && NonBlank(b.isbn) {
      forall j | j in st.books && j != id ensures st.books[j].isbn != b.isbn {
      }
    }
    PutBookKeepsInv(st.Snapshot(), b);
    st.books := st.books[id := b];
    r := Ok(b);
  }

  /** `deleteBook`: removes that book (and its join-table rows); every other table is kept. */
  method DeleteBook(st: Store, id: Id) returns (o: Outcome)
    requires st.Valid()
    modifies st
    ensures st.Valid()
    ensures o.Fail? <==> id !in old(st.books)
    ensures o.Fail? ==> o.error == BookNotFound && st.Snapshot() == old(st.Snapshot())
    ensures o.Pass? ==> st.Snapshot() == WithoutBook(old(st.Snapshot()), id)
    ensures o.Pass? ==> id !in st.books && st.books == old(st.books) - {id} && ListsHolding(st.Snapshot(), id) == {}
  {
    if id !in st.books {
      return Fail(BookNotFound);
    }
    WithoutBookKeepsInv(st.Snapshot(), id);
    var t := WithoutBook(st.Snapshot(), id);
    st.books, st.members, st.tagged := t.books, t.members, t.tagged;
    o := Pass;
  }
}
