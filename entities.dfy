/** The persistent entities as records. Associations are not fields here: the
    reading-list/book and book/category many-to-many links live in the store as
    sets of id pairs, and a user's reading lists are the lists whose owner it is.
    Dates (`LocalDate`) are day numbers, instants (`LocalDateTime`) are seconds. */
module Entities {
  import opened Common
  import opened JavaObjects

  datatype Book = Book(
    id: Id,
    title: string,
    author: string,
    publicationDate: int,
    description: Option<string>,
    publisher: Option<string>,
    isbn: Option<string>,
    coverImageUrl: Option<string>,
    createdAt: int,
    updatedAt: int,
    createdBy: Id)

  /** `owner` is the `user` reference; `User.removeReadingList` can set it to null. */
  datatype ReadingList = ReadingList(
    id: Id,
    name: string,
    description: Option<string>,
    createdAt: int,
    updatedAt: int,
    owner: Option<Id>)

  datatype User = User(
    id: Id,
    username: string,
    email: string,
    password: string,
    firstName: Option<string>,
    lastName: Option<string>,
    createdAt: int,
    updatedAt: int,
    enabled: bool,
    resetToken: Option<string>,
    resetTokenExpiry: Option<int>,
    roles: set<string>)

  datatype Review = Review(
    id: Id,
    rating: int,
    reviewText: Option<string>,
    book: Id,
    user: Id,
    createdAt: int,
    updatedAt: int)

  datatype Category = Category(
    id: Id,
    name: string,
    description: Option<string>,
    createdAt: int,
    updatedAt: int)

  /** The field defaults of a freshly constructed `User`. */
  const DefaultEnabled: bool := true
  const DefaultRoles: set<string> := {}

  /** A `new User()` given the fields registration sets: the declared defaults leave it
      enabled, with no roles and no reset token. */
  function FreshUser(id: Id, username: string, email: string, password: string,
                     firstName: Option<string>, lastName: Option<string>, now: int): (u: User)
    ensures u.enabled && u.roles == {} && u.resetToken.None? && u.resetTokenExpiry.None?
    ensures u.id == id && u.username == username && u.email == email && u.password == password
    ensures u.firstName == firstName && u.lastName == lastName
  {
    User(id, username, email, password, firstName, lastName, now, now, DefaultEnabled, None, None, DefaultRoles)
  }

  /** The role every registered user receives. */
  const RoleUser: string := "ROLE_USER"
  const RoleAdmin: string := "ROLE_ADMIN"

  // ---------------------------------------------------------------------------
  // Book.equals / Book.hashCode

  predicate BookEquals(a: Book, obj: Obj<Book>)
  {
    match obj
    case Null => false
    case Other => false
    case Same(b) =>
      && a.id == b.id
      && a.title == b.title
      && a.author == b.author
      && a.publicationDate == b.publicationDate
      && a.description == b.description
      && a.publisher == b.publisher
      && a.isbn == b.isbn
      && a.coverImageUrl == b.coverImageUrl
      && a.createdAt == b.createdAt
      && a.updatedAt == b.updatedAt
  }

  /** `Long.hashCode` stands in for the hash of dates and instants (see README). */
  function BookHash(a: Book): int
  {
    ObjectsHash([LongHash(a.id), StringHash(a.title), StringHash(a.author), LongHash(a.publicationDate),
                 OptStringHash(a.description), OptStringHash(a.publisher), OptStringHash(a.isbn),
                 OptStringHash(a.coverImageUrl), LongHash(a.createdAt), LongHash(a.updatedAt)])
  }

  lemma BookEqualsReflexive(a: Book)
    ensures BookEquals(a, Same(a))
  {
  }

  lemma BookEqualsRejectsNullAndOtherClasses(a: Book)
    ensures !BookEquals(a, Null) && !BookEquals(a, Other)
  {
  }

  /** Equality is equality of every field but the creator: exactly the ten compared fields. */
  lemma BookEqualsIgnoresCreator(a: Book, b: Book)
    ensures BookEquals(a, Same(b)) <==> a.(createdBy := b.createdBy) == b
  {
  }

  /** Value equality, not identity by id: the same id with another title is a different book. */
  lemma BookEqualsIsNotIdEquality(a: Book, b: Book)
    requires a.id == b.id && a.title != b.title
    ensures !BookEquals(a, Same(b))
  {
  }

  lemma BookHashAgreesWithEquals(a: Book, b: Book)
    requires BookEquals(a, Same(b))
    ensures BookHash(a) == BookHash(b)
  {
  }

  // ---------------------------------------------------------------------------
  // ReadingList.equals / ReadingList.hashCode

  predicate ReadingListEquals(a: ReadingList, obj: Obj<ReadingList>)
  {
    match obj
    case Null => false
    case Other => false
    case Same(b) =>
      && a.id == b.id
      && a.name == b.name
      && a.description == b.description
      && a.createdAt == b.createdAt
      && a.updatedAt == b.updatedAt
  }

  function ReadingListHash(a: ReadingList): int
  {
    ObjectsHash([LongHash(a.id), StringHash(a.name), OptStringHash(a.description),
                 LongHash(a.createdAt), LongHash(a.updatedAt)])
  }

  /** Only id, name, description and the two timestamps are compared: the owner is ignored
      (and the books are not part of the record at all). */
  lemma ReadingListEqualsIgnoresOwner(a: ReadingList, b: ReadingList)
    ensures ReadingListEquals(a, Same(b)) <==> a.(owner := b.owner) == b
    ensures !ReadingListEquals(a, Null) && !ReadingListEquals(a, Other)
  {
  }

  lemma ReadingListHashAgreesWithEquals(a: ReadingList, b: ReadingList)
    requires ReadingListEquals(a, Same(b))
    ensures ReadingListHash(a) == ReadingListHash(b)
  {
  }

  // ---------------------------------------------------------------------------
  // User.equals / User.hashCode

  predicate UserEquals(a: User, obj: Obj<User>)
  {
    match obj
    case Null => false
    case Other => false
    case Same(b) =>
      && a.enabled == b.enabled
      && a.id == b.id
      && a.username == b.username
      && a.email == b.email
      && a.firstName == b.firstName
      && a.lastName == b.lastName
      && a.createdAt == b.createdAt
      && a.updatedAt == b.updatedAt
      && a.resetToken == b.resetToken
      && a.resetTokenExpiry == b.resetTokenExpiry
      && a.roles == b.roles
  }

  ghost function UserHash(a: User): int
  {
    ObjectsHash([LongHash(a.id), StringHash(a.username), StringHash(a.email),
                 OptStringHash(a.firstName), OptStringHash(a.lastName),
                 LongHash(a.createdAt), LongHash(a.updatedAt), BoolHash(a.enabled),
                 OptStringHash(a.resetToken), OptLongHash(a.resetTokenExpiry), StringSetHash(a.roles)])
  }

  /** The password is ignored; roles, reset token and expiry are compared. */
  lemma UserEqualsIgnoresPassword(a: User, b: User)
    ensures UserEquals(a, Same(b)) <==> a.(password := b.password) == b
    ensures !UserEquals(a, Null) && !UserEquals(a, Other)
  {
  }

  lemma UserHashAgreesWithEquals(a: User, b: User)
    requires UserEquals(a, Same(b))
    ensures UserHash(a) == UserHash(b)
  {
  }
}
