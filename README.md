# Book club — a verified model of the service core

The book-club application keeps users, books, reading lists, reviews and categories in a
relational database behind Spring Data repositories. Its services enforce the rules:

- ISBNs are unique when non-blank.
- Usernames, emails and category names are unique.
- A user reviews a book at most once, and only the author changes or deletes a review.
- A reading list is a set of books.
- A password-reset token lives for one hour and is consumed by a successful reset.

Two controllers add workflows of their own around the services: create-and-add and the
web forms.

This project models that core in Dafny:

- **Store.** The repositories become one `Store.Store` object. It holds a map per table,
  the two join tables (reading list/book, book/category) as sets of id pairs, and the
  IDENTITY id generator.
- **Invariant.** `Store.Inv` collects what the services keep true: keys match ids, links
  point at stored rows, and the uniqueness rules.
- **Services.** Each service is a module of methods on the store. Every method keeps the
  invariant. On failure it returns the exception and leaves the store as it was. On
  success it states the whole new store as a function of the old one.
- **Entities and DTOs.** The entities' `equals`/`hashCode` and the DTO constructor checks
  are functions and predicates. The lemmas state what they promise.
- **Controllers.** The controller workflows are methods that call the service methods in
  the source's order.

Exceptions are the `Result`/`Outcome` error value. Java `null` is `Option`. Dates are day
numbers and instants are seconds. The clock, the password encoder and the token generator
are parameters. The signed-in user is an `Option<User>` whose authorities are its roles.

## Model

| member | source | states |
|---|---|---|
| Entities.BookEquals | src/main/java/com/ciaranmckenna/bookclub/entity/Book.java:88-102 | false for null and other classes; otherwise true iff the ten compared fields agree (the creator is not compared) |
| Entities.BookHash | src/main/java/com/ciaranmckenna/bookclub/entity/Book.java:79-81 | `Objects.hash` of the same ten fields, in the same order |
| Entities.ReadingListEquals | src/main/java/com/ciaranmckenna/bookclub/entity/ReadingList.java:67-76 | false for null and other classes; otherwise true iff id, name, description and both timestamps agree |
| Entities.ReadingListHash | src/main/java/com/ciaranmckenna/bookclub/entity/ReadingList.java:58-60 | `Objects.hash` of the same five fields |
| Entities.UserEquals | src/main/java/com/ciaranmckenna/bookclub/entity/User.java:87-102 | false for null and other classes; otherwise true iff every field but the password agrees |
| Entities.UserHash | src/main/java/com/ciaranmckenna/bookclub/entity/User.java:78-80 | `Objects.hash` of the same eleven fields |
| Entities.BookEqualsReflexive | src/main/java/com/ciaranmckenna/bookclub/entity/Book.java:88-89 | a book equals itself |
| Entities.BookEqualsRejectsNullAndOtherClasses | src/main/java/com/ciaranmckenna/bookclub/entity/Book.java:88-91 | `equals(null)` and `equals` of another class are false |
| Entities.BookEqualsIgnoresCreator | src/main/java/com/ciaranmckenna/bookclub/entity/Book.java:92-101 | two books are equal iff they agree on every field except the creator, i.e. exactly on the ten compared fields |
| Entities.BookEqualsIsNotIdEquality | src/main/java/com/ciaranmckenna/bookclub/entity/Book.java:92-93 | same id with another title is not equal: value equality, not id equality |
| Entities.BookHashAgreesWithEquals | src/main/java/com/ciaranmckenna/bookclub/entity/Book.java:79-81 | equal books have equal `Objects.hash` values (32-bit arithmetic) |
| Entities.ReadingListEqualsIgnoresOwner | src/main/java/com/ciaranmckenna/bookclub/entity/ReadingList.java:67-76 | lists are equal iff they agree on id, name, description and both timestamps; the owner is ignored; null and other classes are unequal |
| Entities.ReadingListHashAgreesWithEquals | src/main/java/com/ciaranmckenna/bookclub/entity/ReadingList.java:58-60 | equal lists have equal hashes |
| Entities.UserEqualsIgnoresPassword | src/main/java/com/ciaranmckenna/bookclub/entity/User.java:87-102 | users are equal iff they agree on every field but the password (roles, token and expiry included); null and other classes are unequal |
| Entities.UserHashAgreesWithEquals | src/main/java/com/ciaranmckenna/bookclub/entity/User.java:78-80 | equal users have equal hashes |
| Entities.FreshUser | src/main/java/com/ciaranmckenna/bookclub/entity/User.java:57-71 | a new `User` is enabled, has no roles and no reset token |
| EntityLinks.ViewsAgree | src/main/java/com/ciaranmckenna/bookclub/entity/ReadingList.java:44-51 | a book is in a list's `books` iff the list is in the book's `readingLists` (both are views of one relation) |
| EntityLinks.StoredBooksEqualIffSameId | src/main/java/com/ciaranmckenna/bookclub/entity/Book.java:88-102 | on stored books `equals` is id equality, so `books.contains` tests the id |
| EntityLinks.AddMemberViews | src/main/java/com/ciaranmckenna/bookclub/entity/ReadingList.java:83-86 | adding the link puts the book in the list's books and the list in the book's lists; every other list and book is unchanged |
| EntityLinks.RemoveMemberViews | src/main/java/com/ciaranmckenna/bookclub/entity/ReadingList.java:93-96 | removing the link takes it out of both sides; every other list and book is unchanged |
| EntityLinks.AddBook | src/main/java/com/ciaranmckenna/bookclub/entity/ReadingList.java:83-86 | the link is added; adding a present book changes nothing |
| EntityLinks.RemoveBook | src/main/java/com/ciaranmckenna/bookclub/entity/ReadingList.java:93-96 | the link is removed; removing an absent book changes nothing |
| EntityLinks.AddRole | src/main/java/com/ciaranmckenna/bookclub/entity/User.java:109-111 | the role joins the set, nothing else changes; a present role is a no-op |
| EntityLinks.RemoveRole | src/main/java/com/ciaranmckenna/bookclub/entity/User.java:118-120 | the role leaves the set, nothing else changes; an absent role is a no-op |
| EntityLinks.AddReadingList | src/main/java/com/ciaranmckenna/bookclub/entity/User.java:127-130 | the list's owner becomes the user, and the list joins the user's reading lists |
| EntityLinks.RemoveReadingList | src/main/java/com/ciaranmckenna/bookclub/entity/User.java:137-140 | the list's owner becomes null, and the list leaves the user's reading lists |
| Dtos.NewBookDto | src/main/java/com/ciaranmckenna/bookclub/dto/BookDto.java:21-31 | title, then author, then date are checked, and the first failure is reported; success iff all three are present (title and author non-blank); the record holds the arguments |
| Dtos.BookDtoOptionalFieldsUnconstrained | src/main/java/com/ciaranmckenna/bookclub/dto/BookDto.java:9-31 | id, description, ISBN and cover URL never make construction fail |
| Dtos.ValidateForProcessing | src/main/java/com/ciaranmckenna/bookclub/dto/ReadingListCreateDto.java:27-31 | throws iff the name is null or blank |
| Dtos.ValidateForProcessingIgnoresDescription | src/main/java/com/ciaranmckenna/bookclub/dto/ReadingListCreateDto.java:27-31 | the description never affects the check |
| Dtos.EmptyReadingListCreateDto | src/main/java/com/ciaranmckenna/bookclub/dto/ReadingListCreateDto.java:37-39 | `createEmpty` has two empty strings |
| Dtos.EmptyReadingListCreateDtoFailsValidation | src/main/java/com/ciaranmckenna/bookclub/dto/ReadingListCreateDto.java:37-39 | the empty value fails `validateForProcessing` |
| Dtos.NewReadingListDto | src/main/java/com/ciaranmckenna/bookclub/dto/ReadingListDto.java:22-29 | name is checked before user id; success iff the name is non-blank and the user id is present; other components are unconstrained |
| Dtos.ReadingListFormDto.ToCreateDto | src/main/java/com/ciaranmckenna/bookclub/dto/ReadingListFormDto.java:38-40 | copies name and description unchanged |
| Dtos.ReadingListFormDto.constructor | src/main/java/com/ciaranmckenna/bookclub/dto/ReadingListFormDto.java:20-22 | both fields start null |
| Dtos.ReadingListFormDto.WithFields | src/main/java/com/ciaranmckenna/bookclub/dto/ReadingListFormDto.java:29-32 | both fields are stored |
| Dtos.ReadingListFormDto.SetName | src/main/java/com/ciaranmckenna/bookclub/dto/ReadingListFormDto.java:48-50 | sets the name only |
| Dtos.ReadingListFormDto.SetDescription | src/main/java/com/ciaranmckenna/bookclub/dto/ReadingListFormDto.java:56-58 | sets the description only |
| Dtos.DefaultFormToCreateDto | src/main/java/com/ciaranmckenna/bookclub/dto/ReadingListFormDto.java:20-22 | a default form's create record fails `validateForProcessing` |
| Dtos.NewUserRegistrationDto | src/main/java/com/ciaranmckenna/bookclub/dto/UserRegistrationDto.java:26-41 | a null or blank username accepts anything; otherwise email, blank password, then length under 8 are rejected in that order |
| Dtos.EmptyUserRegistrationDto | src/main/java/com/ciaranmckenna/bookclub/dto/UserRegistrationDto.java:18-20 | the all-empty record is accepted |
| Dtos.RegistrationAcceptsLongPasswords | src/main/java/com/ciaranmckenna/bookclub/dto/UserRegistrationDto.java:26-41 | non-blank username, email and password of length 8 or more are always accepted; email format is not checked |
| Dtos.RegistrationRejectsBlankLongPassword | src/main/java/com/ciaranmckenna/bookclub/dto/UserRegistrationDto.java:34-36 | eight spaces are long enough but blank, and are rejected |
| Dtos.NewUserDto | src/main/java/com/ciaranmckenna/bookclub/dto/UserDto.java:22-29 | username before email; success iff both are non-blank; other components unconstrained |
| Dtos.NewLoginDto | src/main/java/com/ciaranmckenna/bookclub/dto/LoginDto.java:14-21 | username before password; success iff both are non-blank |
| Dtos.LoginHasNoMinimumLength | src/main/java/com/ciaranmckenna/bookclub/dto/LoginDto.java:18-20 | a one-character password passes login although registration rejects it |
| BookService.ConvertToEntity | src/main/java/com/ciaranmckenna/bookclub/service/impl/BookServiceImpl.java:299-308 | the new book takes title, author, date, description, ISBN and cover from the DTO, has no publisher, and gets the id, creator and timestamps of the insert |
| BookService.IsBookOwner | src/main/java/com/ciaranmckenna/bookclub/service/impl/BookServiceImpl.java:318-320 | true iff the book is stored and was created by the user |
| BookService.ConvertToDto | src/main/java/com/ciaranmckenna/bookclub/service/impl/BookServiceImpl.java:282-291 | conversion succeeds iff title and author are non-blank |
| BookService.ConvertRoundTrip | src/main/java/com/ciaranmckenna/bookclub/service/impl/BookServiceImpl.java:299-308 | converting a created entity back gives the DTO it came from, with the new id |
| BookService.StoredBooksConvert | src/main/java/com/ciaranmckenna/bookclub/service/impl/BookServiceImpl.java:282-291 | every stored book converts |
| BookService.NonBlankIsbnAtMostOneBook | src/main/java/com/ciaranmckenna/bookclub/service/impl/BookServiceImpl.java:41-45 | under the invariant at most one book has a given non-blank ISBN |
| BookService.FindBookByIsbn | src/main/java/com/ciaranmckenna/bookclub/service/impl/BookServiceImpl.java:221-223 | empty iff no book has the ISBN; fails iff more than one does; otherwise the one stored book with it |
| BookService.CreateBook | src/main/java/com/ciaranmckenna/bookclub/service/impl/BookServiceImpl.java:39-62 | a taken non-blank ISBN fails first, then an unknown creator; success iff neither; the new book carries the DTO fields, a fresh id and the creator, and is on no list |
| BookService.FullUpdate | src/main/java/com/ciaranmckenna/bookclub/service/impl/BookServiceImpl.java:107-112 | the updated row converts back to exactly the DTO (nulls included); id, creator, publisher and creation time are kept |
| BookService.PartialUpdate | src/main/java/com/ciaranmckenna/bookclub/service/impl/BookServiceImpl.java:245-267 | each non-null field replaces the stored one, each null one keeps it; id and creator are kept |
| BookService.PartialUpdateOfCompleteDtoIsFullUpdate | src/main/java/com/ciaranmckenna/bookclub/service/impl/BookServiceImpl.java:235-274 | title, author and date are always replaced; with description, ISBN and cover present the two updates agree |
| BookService.BlankIsbnReplacesStoredIsbn | src/main/java/com/ciaranmckenna/bookclub/service/impl/BookServiceImpl.java:236-267 | a "" ISBN replaces the stored ISBN and escapes the uniqueness check |
| BookService.NoCollisionKeepsIsbnsUnique | src/main/java/com/ciaranmckenna/bookclub/service/impl/BookServiceImpl.java:93-104 | when the update guard passes, no other book holds the new non-blank ISBN |
| BookService.UpdateBook | src/main/java/com/ciaranmckenna/bookclub/service/impl/BookServiceImpl.java:92-119 | unknown id fails, then an ISBN collision fails (non-blank, changed, held elsewhere); success iff neither; only that row changes, to the full update |
| BookService.PartialUpdateBook | src/main/java/com/ciaranmckenna/bookclub/service/impl/BookServiceImpl.java:235-274 | same guards as `updateBook`; only that row changes, to the partial update |
| BookService.DeleteBook | src/main/java/com/ciaranmckenna/bookclub/service/impl/BookServiceImpl.java:129-134 | fails iff unknown; otherwise removes that book and its links, nothing else |
| ReadingListService.DistinctIffNoCollapse | src/main/java/com/ciaranmckenna/bookclub/service/impl/ReadingListServiceImpl.java:300-304 | a request has as many distinct ids as entries iff no id repeats |
| ReadingListService.Missing | src/main/java/com/ciaranmckenna/bookclub/service/impl/ReadingListServiceImpl.java:304-311 | the reported ids are exactly the requested ids not found, in request order |
| ReadingListService.MissingCounts | src/main/java/com/ciaranmckenna/bookclub/service/impl/ReadingListServiceImpl.java:306-310 | a missing id is reported as often as it was requested; a found id never |
| ReadingListService.MissingAppend | src/main/java/com/ciaranmckenna/bookclub/service/impl/ReadingListServiceImpl.java:306-310 | the filter keeps request order: the missing ids of `a + b` are those of `a` followed by those of `b` |
| ReadingListService.CountCheckPassesIff | src/main/java/com/ciaranmckenna/bookclub/service/impl/ReadingListServiceImpl.java:300-312 | the count check passes iff every id names a stored book and none repeats |
| ReadingListService.RepeatedIdFailsWithNothingMissing | src/main/java/com/ciaranmckenna/bookclub/service/impl/ReadingListServiceImpl.java:300-312 | repeating an existing id fails the check with an empty missing list |
| ReadingListService.AddLinksView | src/main/java/com/ciaranmckenna/bookclub/service/impl/ReadingListServiceImpl.java:315-319 | the bulk links put exactly the requested books into the list |
| ReadingListService.ReadingListToDto | src/main/java/com/ciaranmckenna/bookclub/service/impl/ReadingListServiceImpl.java:333-349 | throws iff the list's user is null; otherwise a valid DTO with the list's id, name, description and creation time, the owner's id and username, and as books exactly the set of `convertToDto` of the list's books (every one of which converts) |
| ReadingListService.GetReadingListById | src/main/java/com/ciaranmckenna/bookclub/service/impl/ReadingListServiceImpl.java:74-81 | unknown id fails; succeeds iff the list exists and has a user |
| ReadingListService.CreateReadingList | src/main/java/com/ciaranmckenna/bookclub/service/impl/ReadingListServiceImpl.java:43-64 | a blank name fails before the user lookup; success iff valid name and known user; the new list has the given name and description, is owned by the user, is empty, and joins the user's lists |
| ReadingListService.UpdateReadingList | src/main/java/com/ciaranmckenna/bookclub/service/impl/ReadingListServiceImpl.java:93-112 | name check, then lookup; only name, description and time change; books and owner are kept |
| ReadingListService.DeleteReadingList | src/main/java/com/ciaranmckenna/bookclub/service/impl/ReadingListServiceImpl.java:122-127 | fails iff unknown; otherwise that list and its links go and the books stay |
| ReadingListService.AddBookToReadingList | src/main/java/com/ciaranmckenna/bookclub/service/impl/ReadingListServiceImpl.java:192-214 | list, then book lookup; on success the list's books gain exactly that book; repeating it changes nothing |
| ReadingListService.RemoveBookFromReadingList | src/main/java/com/ciaranmckenna/bookclub/service/impl/ReadingListServiceImpl.java:226-248 | list, then book lookup; on success the book is no longer in the list; a non-member is a no-op |
| ReadingListService.IsBookInReadingList | src/main/java/com/ciaranmckenna/bookclub/service/impl/ReadingListServiceImpl.java:271-281 | read-only; unknown list fails; otherwise true iff the book is in the list |
| ReadingListService.AddBooksToReadingList | src/main/java/com/ciaranmckenna/bookclub/service/impl/ReadingListServiceImpl.java:293-325 | unknown list fails; a failed count check reports the missing ids and adds nothing; a list without a user then fails with a null reference; success iff all found, distinct, and the list has a user; the books become old ∪ requested |
| ReadingListService.AddEach | src/main/java/com/ciaranmckenna/bookclub/service/impl/ReadingListServiceImpl.java:315-319 | the loop adds the link of every requested book and nothing else |
| Store.HasReviewed | src/main/java/com/ciaranmckenna/bookclub/service/impl/ReviewServiceImpl.java:115-117 | true iff some stored review has that book and that user |
| ReviewService.ReviewCount | src/main/java/com/ciaranmckenna/bookclub/service/impl/ReviewServiceImpl.java:110-112 | the count is 0 iff the book has no review, and never exceeds the number of reviews |
| ReviewService.ReviewCountIsAuthorCount | src/main/java/com/ciaranmckenna/bookclub/service/impl/ReviewServiceImpl.java:29-31 | with one review per user and book, a book's review count is its number of distinct authors |
| ReviewService.InjectiveImage | src/main/java/com/ciaranmckenna/bookclub/service/impl/ReviewServiceImpl.java:29-31 | on one book's reviews, the author determines the review |
| ReviewService.ReviewCountAfterInsert | src/main/java/com/ciaranmckenna/bookclub/service/impl/ReviewServiceImpl.java:40-47 | a new review adds one to its book's count only |
| ReviewService.ReviewCountAfterDelete | src/main/java/com/ciaranmckenna/bookclub/service/impl/ReviewServiceImpl.java:67-76 | deleting a review takes one off its book's count only |
| ReviewService.ReviewCountAfterEdit | src/main/java/com/ciaranmckenna/bookclub/service/impl/ReviewServiceImpl.java:59-62 | an edit changes no count |
| ReviewService.CreateReview | src/main/java/com/ciaranmckenna/bookclub/service/impl/ReviewServiceImpl.java:28-48 | an existing (book, user) review fails first, then an unknown book, then an unknown user; the stored review has the given rating and text, that book, and the caller as author |
| ReviewService.SecondReviewIsRejected | src/main/java/com/ciaranmckenna/bookclub/service/impl/ReviewServiceImpl.java:28-31 | after a successful create, a second create for the pair fails whatever its content |
| ReviewService.UpdateReview | src/main/java/com/ciaranmckenna/bookclub/service/impl/ReviewServiceImpl.java:51-64 | unknown id, then non-author fail; only rating, text and time change |
| ReviewService.DeleteReview | src/main/java/com/ciaranmckenna/bookclub/service/impl/ReviewServiceImpl.java:67-76 | unknown id, then non-author fail; the author's call removes the review |
| ReviewService.DeleteAllowsNewReview | src/main/java/com/ciaranmckenna/bookclub/service/impl/ReviewServiceImpl.java:67-76 | after deletion the author has no review of that book |
| Store.CategoryNameTaken | src/main/java/com/ciaranmckenna/bookclub/service/impl/CategoryServiceImpl.java:114-116 | true iff some stored category has exactly that name |
| CategoryService.ConvertToDto | src/main/java/com/ciaranmckenna/bookclub/service/impl/CategoryServiceImpl.java:118-127 | copies the fields; `bookCount` is the size of the category's books, at most the number of books, and 0 iff no book is tagged |
| CategoryService.TaggedBooksAreStored | src/main/java/com/ciaranmckenna/bookclub/service/impl/CategoryServiceImpl.java:125 | the category's books are stored books |
| CategoryService.RenameGuardIsOthersCheck | src/main/java/com/ciaranmckenna/bookclub/service/impl/CategoryServiceImpl.java:71-74 | the rename guard rejects exactly names held by another category |
| CategoryService.CreateCategory | src/main/java/com/ciaranmckenna/bookclub/service/impl/CategoryServiceImpl.java:20-32 | fails iff the name exists; otherwise stores the name and description, with no books |
| CategoryService.UpdateCategory | src/main/java/com/ciaranmckenna/bookclub/service/impl/CategoryServiceImpl.java:65-81 | unknown id fails; succeeds iff no other category has the name; only name, description and time change |
| CategoryService.DeleteCategory | src/main/java/com/ciaranmckenna/bookclub/service/impl/CategoryServiceImpl.java:84-90 | fails iff unknown; removes the category and its links, keeps the books, frees the name |
| UserService.UserToDto | src/main/java/com/ciaranmckenna/bookclub/service/impl/UserServiceImpl.java:181-190 | succeeds iff username and email are non-blank; copies every field but the password |
| UserService.UserToDtoHidesPassword | src/main/java/com/ciaranmckenna/bookclub/service/impl/UserServiceImpl.java:181-190 | the DTO does not depend on the password |
| UserService.StoredUsersConvert | src/main/java/com/ciaranmckenna/bookclub/service/impl/UserServiceImpl.java:181-190 | every stored user converts |
| UserService.IsUsernameAvailable | src/main/java/com/ciaranmckenna/bookclub/service/impl/UserServiceImpl.java:160-162 | true iff no user has that username |
| UserService.IsEmailAvailable | src/main/java/com/ciaranmckenna/bookclub/service/impl/UserServiceImpl.java:171-173 | true iff no user has that email |
| UserService.NewUser | src/main/java/com/ciaranmckenna/bookclub/service/impl/UserServiceImpl.java:43-53 | the new user copies the DTO fields, stores the encoder's output as password, is enabled, and has roles exactly {ROLE_USER} |
| UserService.NextIdOwnsNoLists | src/main/java/com/ciaranmckenna/bookclub/entity/User.java:56-57 | a newly registered user owns no reading list |
| UserService.RegisterUser | src/main/java/com/ciaranmckenna/bookclub/service/impl/UserServiceImpl.java:33-60 | username taken fails first, then email taken; success iff neither (and the username is non-blank); afterwards neither is available |
| UserService.EmailGuardIsOthersCheck | src/main/java/com/ciaranmckenna/bookclub/service/impl/UserServiceImpl.java:111-114 | the email guard rejects exactly emails held by another user |
| UserService.UpdateUser | src/main/java/com/ciaranmckenna/bookclub/service/impl/UserServiceImpl.java:105-126 | unknown id fails, then an email held by another user; only email, names and time change; username, password, roles and enabled are kept |
| UserService.DeleteUser | src/main/java/com/ciaranmckenna/bookclub/service/impl/UserServiceImpl.java:136-141 | fails iff unknown; removes the user with its lists; the username becomes available (the program's foreign-key failure is under Left out) |
| PasswordResetService.InitiatePasswordReset | src/main/java/com/ciaranmckenna/bookclub/service/PasswordResetService.java:21-37 | true iff the email is known; the user with it gets the token and an expiry one hour ahead; nothing else changes; the token is then valid |
| PasswordResetService.IssueToken | src/main/java/com/ciaranmckenna/bookclub/service/PasswordResetService.java:28-30 | storing the token and expiry on the user with the email keeps the invariant, changes no other user, and makes the token valid at every time before the expiry |
| PasswordResetService.SecondInitiateInvalidatesFirst | src/main/java/com/ciaranmckenna/bookclub/service/PasswordResetService.java:28-29 | a second token replaces the first, which no longer names anyone |
| PasswordResetService.ValidateResetToken | src/main/java/com/ciaranmckenna/bookclub/service/PasswordResetService.java:39-48 | false for an unknown token; true iff a user holds it with expiry after now |
| PasswordResetService.HolderDecidesValidity | src/main/java/com/ciaranmckenna/bookclub/service/PasswordResetService.java:40-44 | the user `findByResetToken` returns has an expiry, and the token is valid iff that expiry is after now (tokens are unique) |
| PasswordResetService.TokenValidForOneHour | src/main/java/com/ciaranmckenna/bookclub/service/PasswordResetService.java:29-44 | a token issued at time s is valid exactly before s + 3600 |
| PasswordResetService.ResetPassword | src/main/java/com/ciaranmckenna/bookclub/service/PasswordResetService.java:50-66 | succeeds iff the token is valid; then the holder's password is the encoded password and token and expiry are cleared; otherwise nothing changes |
| PasswordResetService.ConsumeToken | src/main/java/com/ciaranmckenna/bookclub/service/PasswordResetService.java:57-60 | the holder gets the encoded password and a cleared token and expiry; every other user is unchanged; the invariant holds and nobody holds the token any more |
| PasswordResetService.ConsumedTokenIsDead | src/main/java/com/ciaranmckenna/bookclub/service/PasswordResetService.java:58-59 | after a successful reset the token neither validates nor resets again |
| BookController.DigitsAndHyphensNotBlank | src/main/java/com/ciaranmckenna/bookclub/controller/BookController.java:282 | an ISBN of digits and hyphens is non-blank |
| BookController.CreateBook | src/main/java/com/ciaranmckenna/bookclub/controller/BookController.java:44-72 | null or ill-formed ISBN fails, then a date after today (today passes), then no signed-in user, a taken ISBN and an unknown user, each with its own error and no write; success iff all guards and the service call pass, which stores the book |
| BookController.AttachExisting | src/main/java/com/ciaranmckenna/bookclub/controller/BookController.java:290-309 | an unknown list fails, then a list without a user; an existing book already in the list leaves the store as it was and returns the list; otherwise the only change is the new (list, book) link, and the result is that list's DTO; no book is created |
| BookController.CreateAndAttach | src/main/java/com/ciaranmckenna/bookclub/controller/BookController.java:312-327 | date after today fails with no write; otherwise the book is stored for the caller with the next id; then an unknown list or a list without a user fails with the book kept and no link, and an owned list gains exactly that link and is returned |
| BookController.CreateBookAndAdd | src/main/java/com/ciaranmckenna/bookclub/controller/BookController.java:275-339 | a non-blank ISBN of other characters fails with no write; an ISBN one book has attaches that book with no other change (same outcomes as `AttachExisting`); otherwise the date guard, then create and attach, with the whole new store and the returned list stated per outcome |
| WebController.CanEdit | src/main/java/com/ciaranmckenna/bookclub/controller/WebController.java:643-655 | an unknown book fails; otherwise a result for every book |
| WebController.AnonymousCannotEdit | src/main/java/com/ciaranmckenna/bookclub/controller/WebController.java:647-648 | nobody edits anonymously |
| WebController.CanEditIffAdminOrCreator | src/main/java/com/ciaranmckenna/bookclub/controller/WebController.java:647-651 | a signed-in user may edit iff they hold ROLE_ADMIN or created the book |
| WebController.CreatorCanEditNewBook | src/main/java/com/ciaranmckenna/bookclub/controller/WebController.java:647-651 | the creator of a new book may edit it |
| WebController.UpdatesKeepEditors | src/main/java/com/ciaranmckenna/bookclub/controller/WebController.java:647-651 | full and partial updates do not change who may edit |
| WebController.ProcessPasswordReset | src/main/java/com/ciaranmckenna/bookclub/controller/WebController.java:182-202 | a mismatch fails first, then a password under 8 characters, with no change; success iff both pass and the token is valid; then the holder alone gets the encoded password and a cleared token and expiry, every other user and table is unchanged, and the token no longer names anyone |
| WebController.AddBookToReadingList | src/main/java/com/ciaranmckenna/bookclub/controller/WebController.java:459-481 | a list id wins and the name is ignored; otherwise a non-blank name creates a list owned by the caller with an empty description, then adds the book; otherwise it fails and changes nothing |
| WebController.AttachCreatedBook | src/main/java/com/ciaranmckenna/bookclub/controller/WebController.java:590-611 | no list: no change; a chosen list fails if unknown or without a user, else gains exactly the (list, book) link; a non-blank name creates a list owned by the user with an empty description holding only the book; failures change nothing |
| WebController.AttachedBooks | src/main/java/com/ciaranmckenna/bookclub/controller/WebController.java:592-605 | after a successful list step the chosen list holds its old books and the new one, and a new list holds exactly the new book |
| WebController.CreateBookFor | src/main/java/com/ciaranmckenna/bookclub/controller/WebController.java:589-611 | a taken ISBN fails with `IsbnTaken`, then an unknown user with `UserNotFound`, with no write; otherwise the book is stored for the user with the next id and no other change, then attached with the outcomes of `AttachCreatedBook`; the book stays stored if a list step fails |
| WebController.CreateBook | src/main/java/com/ciaranmckenna/bookclub/controller/WebController.java:584-611 | no signed-in user fails with no write; otherwise the outcomes of `CreateBookFor` for that user |

## Left out

- HTTP plumbing is not modelled: responses, status codes, flash attributes, redirects, `ApiResponse` and the exception-to-status mapping. Each outcome is the value or exception that decides the response.
- The strict ISBN pattern of `createBook` is a parameter `strictIsbn`, because its meaning depends on the Java regex engine; only the digits-and-hyphens rule of `createBookAndAdd` is written out.
- Repository queries with search, paging, sorting and JPQL are not modelled. The average rating, a floating-point value, is left out; the review count is modelled.
- The database's own constraints are left out. The unique column on ISBN would reject two blank ISBNs that the service lets through. The model states only the service checks.
- BookService.DeleteBook: removes the book's reading-list and category links and succeeds. In the program `Book.readingLists` is the inverse side of its mapping, and `Review.book` is a non-null foreign key (Review.java:33). So deleting a book that is on a list or has a review fails there with a foreign-key violation. Its `book_categories` rows do go with it, because `Book.categories` owns that join table.
- CategoryService.DeleteCategory: removes the category's book links and succeeds. `Category.books` is the inverse side (Category.java:40), so deleting a category that tags a book fails in the program with a foreign-key violation.
- UserService.DeleteUser: removes the lists the user owns, through the cascade on `User.readingLists`, and succeeds. In the program `Review.user` (Review.java:37) and `Book.createdBy` (Book.java:64) are non-null foreign keys. So deleting a user who wrote a review or created a book fails there with a foreign-key violation. The model succeeds instead and leaves those reviews and books holding the deleted user's id.
- EntityLinks.RemoveReadingList: sets the list's owner to null. `ReadingList.user` is a non-null column, so that state can exist only in memory, never in the database. The model derives a user's lists from the owners, so the former owner loses the list at once. The Java in-memory set is changed the same way by `removeReadingList` itself.
- Timestamps from the `@PrePersist`/`@PreUpdate` hooks are the `now` parameter. The dirty-check subtleties of when `updatedAt` moves are not modelled.
- Transactions, concurrency and caching are left out. Each service method is atomic in the model. Races between a uniqueness check and the write are not modelled.
- The password encoder, UUID generator, clock and e-mail sending are parameters or omitted. E-mail failure is not modelled.
- PasswordResetService.InitiatePasswordReset: requires a token no user holds, since a UUID collision is not modelled.
- Bean Validation annotations are not modelled; the check that JPA runs on persist is left out. The one exception is the review rating's range 1..5, which is a precondition. `BookDto.Valid` is not an annotation: it is the check of the `BookDto` record constructor. Omitted: the category name length, and on `User` the `@Size(min = 3, max = 50)` username, the `@Email` address and the `@Size(min = 8)` password, which is checked on the encoded value.
- ReviewService.CreateReview: takes the rating and text as arguments. The review DTO and its conversion are not modelled.
- `BookFormDto` is not modelled, because it is out of step with `BookDto`. The web form's `createBook` takes a `BookDto`.
- All tables share one id generator. The real database has one IDENTITY sequence per table.
- Entities.BookHashAgreesWithEquals: hashes dates and instants with `Long.hashCode` of their number, not the hash of `LocalDate`/`LocalDateTime`. Equal fields still give equal hashes.
- Lengths count characters, where Java counts UTF-16 code units. The two differ only outside the Basic Multilingual Plane.
- A null token or password argument is not modelled; strings passed to the services are non-null.
- The signed-in user is taken as the stored user it names. If that user was deleted, the service lookup reports it as not found.
- The `userReadingLists` model attribute and the other read-only view data of the web forms are not modelled.
