/** The decisions `WebController` takes around its service calls: who may edit a book, the
    password-reset form's guards, and the branching of the two forms that put a book on an
    existing or a new reading list. Each handler catches what the services throw and turns
    it into a message; here the outcome is that exception (or `Pass`). The signed-in user
    is `principal`, `None` when nobody is signed in, and its authorities are its roles. */
module WebController {
  import opened Common
  import opened Entities
  import opened Dtos
  import opened Store
  import BookService
  import ReadingListService
  import PasswordResetService

  // ---------------------------------------------------------------------------
  // editBookForm: who may edit

  /** The `canEdit` flag: the book lookup fails first for an unknown book; then an anonymous
      visitor may not edit, an administrator may edit any book, and anyone else only the
      books they created. */
  function CanEdit(t: Tables, bookId: Id, principal: Option<User>): (r: Result<bool>)
    ensures bookId !in t.books ==> r == Err(BookNotFound)
    ensures r.Ok? <==> bookId in t.books
  {
    if bookId !in t.books then Err(BookNotFound)
    else Ok(principal.Some? && (RoleAdmin in principal.value.roles || BookService.IsBookOwner(t, bookId, principal.value.id)))
  }

  /** Nobody edits anonymously. */
  lemma AnonymousCannotEdit(t: Tables, bookId: Id)
    ensures CanEdit(t, bookId, None) != Ok(true)
  {
  }

  /** Editing is allowed exactly to administrators and to the book's creator. */
  lemma CanEditIffAdminOrCreator(t: Tables, bookId: Id, u: User)
    requires bookId in t.books
    ensures CanEdit(t, bookId, Some(u)) == Ok(true) <==> RoleAdmin in u.roles || t.books[bookId].createdBy == u.id
  {
  }

  /** The user who creates a book may edit it afterwards, with or without administrator
      rights. */
  lemma CreatorCanEditNewBook(t: Tables, dto: BookDto, u: User, now: int)
    requires dto.Valid()
    ensures var b := BookService.ConvertToEntity(dto, t.nextId, u.id, now);
            CanEdit(t.(books := t.books[b.id := b], nextId := b.id + 1), b.id, Some(u)) == Ok(true)
  {
  }

  /** Updates never change a book's creator, so neither a full nor a partial update changes
      who may edit it. */
  lemma UpdatesKeepEditors(t: Tables, bookId: Id, dto: BookDto, now: int, principal: Option<User>)
    requires bookId in t.books && dto.Valid()
    ensures CanEdit(t.(books := t.books[bookId := BookService.FullUpdate(t.books[bookId], dto, now)]), bookId, principal)
            == CanEdit(t, bookId, principal)
    ensures CanEdit(t.(books := t.books[bookId := BookService.PartialUpdate(t.books[bookId], dto, now)]), bookId, principal)
            == CanEdit(t, bookId, principal)
  {
  }

  // ---------------------------------------------------------------------------
  // processPasswordReset

  /** `processPasswordReset`: the confirmation must match, then the new password must have
      at least eight characters; only then is the token tried. A failed guard leaves the
      store as it was. */
  method ProcessPasswordReset(st: Store, token: string, newPassword: string, confirmPassword: string,
                              encode: string -> string, now: int) returns (o: Outcome)
    requires st.Valid()
    modifies st
    ensures st.Valid()
    ensures newPassword != confirmPassword ==> o == Fail(PasswordsDoNotMatch)
    ensures newPassword == confirmPassword && |newPassword| < MinPasswordLength ==> o == Fail(PasswordTooShort)
    ensures o.Pass? <==> newPassword == confirmPassword && |newPassword| >= MinPasswordLength
                         && PasswordResetService.TokenValid(old(st.Snapshot()), token, now)
    ensures o.Fail? ==> st.Snapshot() == old(st.Snapshot())
    ensures o.Fail? && newPassword == confirmPassword && |newPassword| >= MinPasswordLength ==> o.error == InvalidResetToken
    ensures o.Pass? ==> !PasswordResetService.TokenKnown(st.Snapshot(), token)
                        && st.Snapshot() == old(st.Snapshot()).(users := st.users) && st.users.Keys == old(st.users.Keys)
                        && forall id :: id in st.users ==>
                             st.users[id] == if old(st.users[id].resetToken) == Some(token)
                                             then old(st.users[id]).(password := encode(newPassword), resetToken := None,
                                                                     resetTokenExpiry := None)
                                             else old(st.users[id])
  {
    if newPassword != confirmPassword {
      return Fail(PasswordsDoNotMatch);
    }
    if |newPassword| < MinPasswordLength {
      return Fail(PasswordTooShort);
    }
    var ok := PasswordResetService.ResetPassword(st, token, newPassword, encode, now);
    o := if ok then Pass else Fail(InvalidResetToken);
  }

  // ---------------------------------------------------------------------------
  // addBookToReadingList

  /** `addBookToReadingList`: a chosen list wins; otherwise a non-blank new-list name creates
      a list owned by the signed-in user (with an empty description) and then adds the book
      to it; otherwise nothing happens. The two service calls of the new-list branch are
      separate transactions, so when the book does not exist the new list stays, empty. */
  method AddBookToReadingList(st: Store, bookId: Id, listId: Option<Id>, newListName: Option<string>,
                              principal: Option<User>, now: int) returns (o: Outcome)
    requires st.Valid()
    modifies st
    ensures st.Valid()
    ensures o.Fail? && o.error != BookNotFound ==> st.Snapshot() == old(st.Snapshot())
    ensures listId.Some? && listId.value !in old(st.lists) ==> o == Fail(ReadingListNotFound)
    ensures listId.Some? && listId.value in old(st.lists) && bookId !in old(st.books) ==> o == Fail(BookNotFound)
    ensures listId.Some? ==>
      (o.Pass? <==> listId.value in old(st.lists) && bookId in old(st.books) && old(st.lists[listId.value].owner).Some?)
      && (o.Fail? ==> st.Snapshot() == old(st.Snapshot()))
      && (o.Pass? ==> st.Snapshot() == old(st.Snapshot()).(members := old(st.members) + {(listId.value, bookId)}))
    ensures listId.None? && NullOrBlank(newListName) ==> o == Fail(NoListChosen)
    ensures listId.None? && NonBlank(newListName) && principal.None? ==> o == Fail(NullReference)
    ensures listId.None? && NonBlank(newListName) && principal.Some? && principal.value.id !in old(st.users)
            ==> o == Fail(UserNotFound)
    ensures listId.None? && NonBlank(newListName) && principal.Some? && principal.value.id in old(st.users) ==>
      var id := old(st.nextId);
      var created := old(st.Snapshot()).(lists := old(st.lists)[id := ReadingList(id, newListName.value, Some(""), now, now, Some(principal.value.id))],
                                         nextId := id + 1);
      id !in old(st.lists)
      && (bookId in old(st.books) ==> o.Pass? && st.Snapshot() == created.(members := old(st.members) + {(id, bookId)})
                                      && BooksIn(st.Snapshot(), id) == {bookId})
      && (bookId !in old(st.books) ==> o == Fail(BookNotFound) && st.Snapshot() == created
                                       && BooksIn(st.Snapshot(), id) == {})
  {
    if listId.Some? {
      var r := ReadingListService.AddBookToReadingList(st, listId.value, bookId);
      return if r.Ok? then Pass else Fail(r.error);
    }
    if NullOrBlank(newListName) {
      return Fail(NoListChosen);
    }
    if principal.None? {
      return Fail(NullReference);
    }
    var created := ReadingListService.CreateReadingList(st, principal.value.id,
                                                        ReadingListCreateDto(newListName, Some("")), now);
    if created.Err? {
      return Fail(created.error);
    }
    ghost var mid := st.Snapshot();
    assert mid.members == old(st.members);
    var r := ReadingListService.AddBookToReadingList(st, created.value.id.value, bookId);
    o := if r.Ok? then Pass else Fail(r.error);
  }

  // ---------------------------------------------------------------------------
  // createBook

  /** What the list step of `createBook` does to the store `before` for the stored book
      `bookId`: with no list and no name, nothing; a chosen list fails if unknown or
      without a user, and otherwise gains exactly the link to the book; a non-blank name
      creates a list owned by the user, with an empty description, holding only the book.
      A failure changes nothing. */
  ghost predicate Attached(before: Tables, after: Tables, r: Result<Id>, bookId: Id, listId: Option<Id>,
                           newListName: Option<string>, userId: Id, now: int)
  {
    && (r.Err? ==> after == before)
    && (listId.None? && NullOrBlank(newListName) ==> r == Ok(bookId) && after == before)
    && (listId.Some? && listId.value !in before.lists ==> r == Err(ReadingListNotFound))
    && (listId.Some? && listId.value in before.lists && before.lists[listId.value].owner.None? ==>
          r == Err(NullReference))
    && (listId.Some? && listId.value in before.lists && before.lists[listId.value].owner.Some? ==>
          r == Ok(bookId) && after == before.(members := before.members + {(listId.value, bookId)}))
    && (listId.None? && NonBlank(newListName) ==>
          var id := before.nextId;
          r == Ok(bookId) && id !in before.lists
          && after == before.(lists := before.lists[id := ReadingList(id, newListName.value, Some(""), now, now, Some(userId))],
                              nextId := id + 1, members := before.members + {(id, bookId)}))
  }

  /** After the list step the chosen list holds its old books and the new one, and a new
      list holds only the new book. */
  lemma AttachedBooks(before: Tables, after: Tables, r: Result<Id>, bookId: Id, listId: Option<Id>,
                      newListName: Option<string>, userId: Id, now: int)
    requires Inv(before) && r.Ok?
    requires Attached(before, after, r, bookId, listId, newListName, userId, now)
    ensures listId.Some? ==> BooksIn(after, listId.value) == BooksIn(before, listId.value) + {bookId}
    ensures listId.None? && NonBlank(newListName) ==> BooksIn(after, before.nextId) == {bookId}
  {
    if listId.None? && NonBlank(newListName) {
      assert BooksIn(before, before.nextId) == {};
    }
  }

  /** The list step of `createBook`, for the book just created: the chosen list, or a new
      list under the given name, or none. The book is stored and on no list yet, and the
      signed-in user is stored. */
  method AttachCreatedBook(st: Store, bookId: Id, listId: Option<Id>, newListName: Option<string>, user: User, now: int)
    returns (r: Result<Id>)
    requires st.Valid() && bookId in st.books && user.id in st.users
    modifies st
    ensures st.Valid()
    ensures st.books == old(st.books)
    ensures Attached(old(st.Snapshot()), st.Snapshot(), r, bookId, listId, newListName, user.id, now)
  {
    if listId.Some? {
      var added := ReadingListService.AddBookToReadingList(st, listId.value, bookId);
      return if added.Ok? then Ok(bookId) else Err(added.error);
    }
    if NullOrBlank(newListName) {
      return Ok(bookId);
    }
    var created := ReadingListService.CreateReadingList(st, user.id, ReadingListCreateDto(newListName, Some("")), now);
    ghost var mid := st.Snapshot();
    assert mid.members == old(st.members);
    // The list was just created and the book is stored, so this step always succeeds.
    var added := ReadingListService.AddBookToReadingList(st, created.value.id.value, bookId);
    r := Ok(bookId);
  }

  /** The body of `createBook` once a user is signed in: the book is created for that user,
      then put on the chosen or a newly named list, or on none. The book stays created when
      a list step fails. */
  method CreateBookFor(st: Store, dto: BookDto, listId: Option<Id>, newListName: Option<string>,
                       user: User, now: int) returns (r: Result<Id>)
    requires st.Valid() && dto.Valid()
    modifies st
    ensures st.Valid()
    ensures NonBlank(dto.isbn) && BooksWithIsbn(old(st.Snapshot()), dto.isbn) != {}
            ==> r == Err(IsbnTaken) && st.Snapshot() == old(st.Snapshot())
    ensures user.id !in old(st.users) ==> r.Err? && st.Snapshot() == old(st.Snapshot())
    ensures user.id !in old(st.users) && (NullOrBlank(dto.isbn) || BooksWithIsbn(old(st.Snapshot()), dto.isbn) == {})
            ==> r == Err(UserNotFound)
    ensures user.id in old(st.users) && (NullOrBlank(dto.isbn) || BooksWithIsbn(old(st.Snapshot()), dto.isbn) == {}) ==>
      var id := old(st.nextId);
      var withBook := old(st.Snapshot()).(books := old(st.books)[id := BookService.ConvertToEntity(dto, id, user.id, now)],
                                          nextId := id + 1);
      id !in old(st.books)
      && BookService.IsBookOwner(st.Snapshot(), id, user.id)
      && Attached(withBook, st.Snapshot(), r, id, listId, newListName, user.id, now)
  {
    var created := BookService.CreateBook(st, dto, user.id, now);
    if created.Err? {
      return Err(created.error);
    }
    r := AttachCreatedBook(st, created.value.id, listId, newListName, user, now);
  }

  /** `createBook` (the form, after its own validation passed): without a signed-in user
      nothing happens; otherwise `CreateBookFor` that user. */
  method CreateBook(st: Store, dto: BookDto, listId: Option<Id>, newListName: Option<string>,
                    principal: Option<User>, now: int) returns (r: Result<Id>)
    requires st.Valid() && dto.Valid()
    modifies st
    ensures st.Valid()
    ensures principal.None? ==> r == Err(AuthenticationRequired) && st.Snapshot() == old(st.Snapshot())
    ensures principal.Some? && NonBlank(dto.isbn) && BooksWithIsbn(old(st.Snapshot()), dto.isbn) != {}
            ==> r == Err(IsbnTaken) && st.Snapshot() == old(st.Snapshot())
    ensures principal.Some? && principal.value.id !in old(st.users)
            ==> r.Err? && st.Snapshot() == old(st.Snapshot())
    ensures principal.Some? && principal.value.id !in old(st.users)
            && (NullOrBlank(dto.isbn) || BooksWithIsbn(old(st.Snapshot()), dto.isbn) == {})
            ==> r == Err(UserNotFound)
    ensures principal.Some? && principal.value.id in old(st.users)
            && (NullOrBlank(dto.isbn) || BooksWithIsbn(old(st.Snapshot()), dto.isbn) == {}) ==>
      var id := old(st.nextId);
      var withBook := old(st.Snapshot()).(books := old(st.books)[id := BookService.ConvertToEntity(dto, id, principal.value.id, now)],
                                          nextId := id + 1);
      id !in old(st.books)
      && BookService.IsBookOwner(st.Snapshot(), id, principal.value.id)
      && Attached(withBook, st.Snapshot(), r, id, listId, newListName, principal.value.id, now)
  {
    if principal.None? {
      return Err(AuthenticationRequired);
    }
    r := CreateBookFor(st, dto, listId, newListName, principal.value, now);
  }
}
