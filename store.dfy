/** The repositories as one in-memory store: a table per entity, keyed by id, the two
    many-to-many join tables as sets of id pairs, and the IDENTITY generator. The store
    invariant collects the properties the services keep: keys match record ids, links
    point at stored rows, and the uniqueness rules the services check before writing. */
module Store {
  import opened Common
  import opened Entities

  /** The abstract value of the store. `members` is `reading_list_books` as
      (reading list, book) pairs; `tagged` is `book_categories` as (book, category) pairs. */
  datatype Tables = Tables(
    users: map<Id, User>,
    books: map<Id, Book>,
    lists: map<Id, ReadingList>,
    reviews: map<Id, Review>,
    categories: map<Id, Category>,
    members: set<(Id, Id)>,
    tagged: set<(Id, Id)>,
    nextId: Id)

  /** The first value the IDENTITY columns hand out. */
  const FirstId: Id := 1

  function EmptyTables(): Tables
  {
    Tables(map[], map[], map[], map[], map[], {}, {}, FirstId)
  }

  // ---------------------------------------------------------------------------
  // Views of the join tables: each side of a bidirectional association.

  /** `ReadingList.books`, as ids. */
  function BooksIn(t: Tables, list: Id): set<Id>
  {
    set p | p in t.members && p.0 == list :: p.1
  }

  /** `Book.readingLists`, as ids. */
  function ListsHolding(t: Tables, book: Id): set<Id>
  {
    set p | p in t.members && p.1 == book :: p.0
  }

  /** `Category.books`, as ids. */
  function BooksInCategory(t: Tables, category: Id): set<Id>
  {
    set p | p in t.tagged && p.1 == category :: p.0
  }

  /** `User.readingLists`: the lists whose `user` is this user. */
  function ListsOwnedBy(t: Tables, user: Id): set<Id>
  {
    set id | id in t.lists && t.lists[id].owner == Some(user)
  }

  // ---------------------------------------------------------------------------
  // Derived queries of the repositories.

  /** `existsByUsername`. */
  predicate UsernameTaken(t: Tables, username: string)
  {
    exists id :: id in t.users && t.users[id].username == username
  }

  /** `existsByEmail`. */
  predicate EmailTaken(t: Tables, email: string)
  {
    exists id :: id in t.users && t.users[id].email == email
  }

  /** `existsByIsbn` (and the rows `findByIsbn` looks at; a null ISBN matches null). */
  function BooksWithIsbn(t: Tables, isbn: Option<string>): set<Id>
  {
    set id | id in t.books && t.books[id].isbn == isbn
  }

  /** `existsByName`. */
  predicate CategoryNameTaken(t: Tables, name: string)
  {
    exists id :: id in t.categories && t.categories[id].name == name
  }

  /** `existsByBookIdAndUserId`. */
  predicate HasReviewed(t: Tables, book: Id, user: Id)
  {
    exists id :: id in t.reviews && t.reviews[id].book == book && t.reviews[id].user == user
  }

  // ---------------------------------------------------------------------------
  // The store invariant. Each part names only the tables it constrains, so an update of
  // one table leaves the parts about the others syntactically unchanged.

  /** Every row is stored under its own id, and every id is below the generator. */
  ghost predicate UserKeys(users: map<Id, User>, next: Id)
  {
    forall id :: id in users ==> users[id].id == id && id < next
  }

  ghost predicate BookKeys(books: map<Id, Book>, next: Id)
  {
    forall id :: id in books ==> books[id].id == id && id < next
  }

  ghost predicate ListKeys(lists: map<Id, ReadingList>, next: Id)
  {
    forall id :: id in lists ==> lists[id].id == id && id < next
  }

  ghost predicate ReviewKeys(reviews: map<Id, Review>, next: Id)
  {
    forall id :: id in reviews ==> reviews[id].id == id && id < next
  }

  ghost predicate CategoryKeys(categories: map<Id, Category>, next: Id)
  {
    forall id :: id in categories ==> categories[id].id == id && id < next
  }

  ghost predicate KeysMatch(t: Tables)
  {
    && UserKeys(t.users, t.nextId)
    && BookKeys(t.books, t.nextId)
    && ListKeys(t.lists, t.nextId)
    && ReviewKeys(t.reviews, t.nextId)
    && CategoryKeys(t.categories, t.nextId)
  }

  /** Join-table rows and list owners refer to stored rows. */
  ghost predicate MembersValid(members: set<(Id, Id)>, lists: map<Id, ReadingList>, books: map<Id, Book>)
  {
    forall p :: p in members ==> p.0 in lists && p.1 in books
  }

  ghost predicate TaggedValid(tagged: set<(Id, Id)>, books: map<Id, Book>, categories: map<Id, Category>)
  {
    forall p :: p in tagged ==> p.0 in books && p.1 in categories
  }

  ghost predicate OwnersValid(lists: map<Id, ReadingList>, users: map<Id, User>)
  {
    forall id :: id in lists && lists[id].owner.Some? ==> lists[id].owner.value in users
  }

  ghost predicate LinksValid(t: Tables)
  {
    && MembersValid(t.members, t.lists, t.books)
    && TaggedValid(t.tagged, t.books, t.categories)
    && OwnersValid(t.lists, t.users)
  }

  /** No two books share a non-blank ISBN (blank and null ISBNs are exempt). */
  ghost predicate UniqueIsbns(books: map<Id, Book>)
  {
    forall i, j :: i in books && j in books && NonBlank(books[i].isbn) && books[i].isbn == books[j].isbn ==> i == j
  }

  ghost predicate UniqueCategoryNames(categories: map<Id, Category>)
  {
    forall i, j :: i in categories && j in categories && categories[i].name == categories[j].name ==> i == j
  }

  ghost predicate UniqueUsernames(users: map<Id, User>)
  {
    forall i, j :: i in users && j in users && users[i].username == users[j].username ==> i == j
  }

  ghost predicate UniqueEmails(users: map<Id, User>)
  {
    forall i, j :: i in users && j in users && users[i].email == users[j].email ==> i == j
  }

  /** A reset token always comes with its expiry, and no two users hold the same token. */
  ghost predicate ResetTokensWellFormed(users: map<Id, User>)
  {
    && (forall i :: i in users ==> (users[i].resetToken.Some? <==> users[i].resetTokenExpiry.Some?))
    && (forall i, j :: i in users && j in users && users[i].resetToken.Some? && users[i].resetToken == users[j].resetToken ==> i == j)
  }

  ghost predicate OneReviewPerBookAndUser(reviews: map<Id, Review>)
  {
    forall i, j :: i in reviews && j in reviews && reviews[i].book == reviews[j].book && reviews[i].user == reviews[j].user ==> i == j
  }

  /** What the validated DTOs put into the rows: non-blank usernames and emails, list
      names, book titles and authors, and ratings between 1 and 5. */
  ghost predicate UserRowsWellFormed(users: map<Id, User>)
  {
    forall id :: id in users ==> NonBlank(Some(users[id].username)) && NonBlank(Some(users[id].email))
  }

  ghost predicate BookRowsWellFormed(books: map<Id, Book>)
  {
    forall id :: id in books ==> NonBlank(Some(books[id].title)) && NonBlank(Some(books[id].author))
  }

  ghost predicate ListRowsWellFormed(lists: map<Id, ReadingList>)
  {
    forall id :: id in lists ==> NonBlank(Some(lists[id].name))
  }

  ghost predicate ReviewRowsWellFormed(reviews: map<Id, Review>)
  {
    forall id :: id in reviews ==> MinRating <= reviews[id].rating <= MaxRating
  }

  const MinRating: int := 1
  const MaxRating: int := 5

  ghost predicate Inv(t: Tables)
  {
    && KeysMatch(t)
    && LinksValid(t)
    && UniqueUsernames(t.users)
    && UniqueEmails(t.users)
    && ResetTokensWellFormed(t.users)
    && UserRowsWellFormed(t.users)
    && UniqueIsbns(t.books)
    && BookRowsWellFormed(t.books)
    && ListRowsWellFormed(t.lists)
    && OneReviewPerBookAndUser(t.reviews)
    && ReviewRowsWellFormed(t.reviews)
    && UniqueCategoryNames(t.categories)
  }

  lemma EmptyTablesValid()
    ensures Inv(EmptyTables())
  {
  }

  /** The next generated id is not yet used in any table. */
  lemma FreshIdUnused(t: Tables)
    requires KeysMatch(t)
    ensures t.nextId !in t.users && t.nextId !in t.books && t.nextId !in t.lists
    ensures t.nextId !in t.reviews && t.nextId !in t.categories
  {
  }

  // ---------------------------------------------------------------------------
  // Row-level updates and the conditions under which they keep the invariant.

  /** Drawing an id from the generator. */
  lemma BumpKeepsInv(t: Tables)
    requires Inv(t)
    ensures Inv(t.(nextId := t.nextId + 1))
  {
  }

  /** Storing a user row (insert or overwrite): its username, email and reset token
      must not be held by another user. */
  lemma PutUserKeepsInv(t: Tables, u: User)
    requires Inv(t) && u.id < t.nextId
    requires NonBlank(Some(u.username)) && NonBlank(Some(u.email))
    requires forall j :: j in t.users && j != u.id ==> t.users[j].username != u.username && t.users[j].email != u.email
    requires u.resetToken.Some? <==> u.resetTokenExpiry.Some?
    requires u.resetToken.Some? ==> forall j :: j in t.users && j != u.id ==> t.users[j].resetToken != u.resetToken
    ensures Inv(t.(users := t.users[u.id := u]))
  {
  }

  /** Storing a book row: a non-blank ISBN must not be held by another book. */
  lemma PutBookKeepsInv(t: Tables, b: Book)
    requires Inv(t) && b.id < t.nextId
    requires NonBlank(Some(b.title)) && NonBlank(Some(b.author))
    requires NonBlank(b.isbn) ==> forall j :: j in t.books && j != b.id ==> t.books[j].isbn != b.isbn
    ensures Inv(t.(books := t.books[b.id := b]))
  {
  }

  lemma PutListKeepsInv(t: Tables, l: ReadingList)
    requires Inv(t) && l.id < t.nextId
    requires NonBlank(Some(l.name))
    requires l.owner.Some? ==> l.owner.value in t.users
    ensures Inv(t.(lists := t.lists[l.id := l]))
  {
  }

  /** Storing a review row: no other review may have the same book and author. */
  lemma PutReviewKeepsInv(t: Tables, r: Review)
    requires Inv(t) && r.id < t.nextId
    requires MinRating <= r.rating <= MaxRating
    requires forall j :: j in t.reviews && j != r.id ==> t.reviews[j].book != r.book || t.reviews[j].user != r.user
    ensures Inv(t.(reviews := t.reviews[r.id := r]))
  {
  }

  lemma PutCategoryKeepsInv(t: Tables, c: Category)
    requires Inv(t) && c.id < t.nextId
    requires forall j :: j in t.categories && j != c.id ==> t.categories[j].name != c.name
    ensures Inv(t.(categories := t.categories[c.id := c]))
  {
  }

  /** Adding or removing a (list, book) row between stored rows. */
  lemma SetMembersKeepsInv(t: Tables, members: set<(Id, Id)>)
    requires Inv(t)
    requires forall p :: p in members ==> p.0 in t.lists && p.1 in t.books
    ensures Inv(t.(members := members))
  {
  }

  // ---------------------------------------------------------------------------
  // Deletions. Rows that refer to the deleted row through a join table go with it.

  /** `deleteById` on a reading list: the list is the owning side of
      `reading_list_books`, so its join rows are deleted with it. */
  function WithoutList(t: Tables, id: Id): (r: Tables)
  {
    t.(lists := t.lists - {id}, members := (set p | p in t.members && p.0 != id))
  }

  /** `deleteById` on a book, taking its join-table rows with it. */
  function WithoutBook(t: Tables, id: Id): (r: Tables)
  {
    t.(books := t.books - {id},
       members := (set p | p in t.members && p.1 != id),
       tagged := (set p | p in t.tagged && p.0 != id))
  }

  function WithoutCategory(t: Tables, id: Id): (r: Tables)
  {
    t.(categories := t.categories - {id}, tagged := (set p | p in t.tagged && p.1 != id))
  }

  /** `deleteById` on a user: `User.readingLists` cascades, so the user's lists and their
      join rows go too. */
  function WithoutUser(t: Tables, id: Id): (r: Tables)
  {
    var lists := map l | l in t.lists && t.lists[l].owner != Some(id) :: t.lists[l];
    t.(users := t.users - {id}, lists := lists, members := (set p | p in t.members && p.0 in lists))
  }

  function WithoutReview(t: Tables, id: Id): (r: Tables)
  {
    t.(reviews := t.reviews - {id})
  }

  lemma WithoutListKeepsInv(t: Tables, id: Id)
    requires Inv(t)
    ensures Inv(WithoutList(t, id))
  {
  }

  lemma WithoutBookKeepsInv(t: Tables, id: Id)
    requires Inv(t)
    ensures Inv(WithoutBook(t, id))
  {
  }

  lemma WithoutCategoryKeepsInv(t: Tables, id: Id)
    requires Inv(t)
    ensures Inv(WithoutCategory(t, id))
  {
  }

  lemma WithoutUserKeepsInv(t: Tables, id: Id)
    requires Inv(t)
    ensures Inv(WithoutUser(t, id))
  {
  }

  lemma WithoutReviewKeepsInv(t: Tables, id: Id)
    requires Inv(t)
    ensures Inv(WithoutReview(t, id))
  {
  }

  // ---------------------------------------------------------------------------
  // The mutable store.

  class Store {
    var users: map<Id, User>
    var books: map<Id, Book>
    var lists: map<Id, ReadingList>
    var reviews: map<Id, Review>
    var categories: map<Id, Category>
    var members: set<(Id, Id)>
    var tagged: set<(Id, Id)>
    var nextId: Id

    function Snapshot(): Tables
      reads this
    {
      Tables(users, books, lists, reviews, categories, members, tagged, nextId)
    }

    ghost predicate Valid()
      reads this
    {
      Inv(Snapshot())
    }

    constructor ()
      ensures Valid() && Snapshot() == EmptyTables()
    {
      users, books, lists, reviews, categories := map[], map[], map[], map[], map[];
      members, tagged := {}, {};
      nextId := FirstId;
    }
  }
}
