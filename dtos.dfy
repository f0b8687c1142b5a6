/** The data-transfer records and the checks their constructors make. A Java record whose
    canonical constructor may throw is a datatype plus a `New...` function returning
    `Result`; every component keeps its nullability (`Option`). `Valid()` is the
    constructor's check, so a record value that satisfies it is one Java can construct. */
module Dtos {
  import opened Common

  // ---------------------------------------------------------------------------
  // BookDto

  datatype BookDto = BookDto(
    id: Option<Id>,
    title: Option<string>,
    author: Option<string>,
    publicationDate: Option<int>,
    description: Option<string>,
    isbn: Option<string>,
    coverImageUrl: Option<string>)
  {
    predicate Valid() {
      NonBlank(title) && NonBlank(author) && publicationDate.Some?
    }
  }

  /** The canonical constructor: title, then author, then publication date. */
  function NewBookDto(id: Option<Id>, title: Option<string>, author: Option<string>,
                      publicationDate: Option<int>, description: Option<string>,
                      isbn: Option<string>, coverImageUrl: Option<string>): (r: Result<BookDto>)
    ensures NullOrBlank(title) ==> r == Err(TitleEmpty)
    ensures NonBlank(title) && NullOrBlank(author) ==> r == Err(AuthorEmpty)
    ensures NonBlank(title) && NonBlank(author) && publicationDate.None? ==> r == Err(PublicationDateNull)
    ensures r.Ok? <==> NonBlank(title) && NonBlank(author) && publicationDate.Some?
    ensures r.Ok? ==> r.value.Valid() && r.value == BookDto(id, title, author, publicationDate, description, isbn, coverImageUrl)
  {
    if NullOrBlank(title) then Err(TitleEmpty)
    else if NullOrBlank(author) then Err(AuthorEmpty)
    else if publicationDate.None? then Err(PublicationDateNull)
    else Ok(BookDto(id, title, author, publicationDate, description, isbn, coverImageUrl))
  }

  /** Id, description, ISBN and cover URL never make construction fail: any values of
      them can be put into a constructed record. */
  lemma BookDtoOptionalFieldsUnconstrained(d: BookDto, id: Option<Id>, description: Option<string>,
                                           isbn: Option<string>, coverImageUrl: Option<string>)
    requires d.Valid()
    ensures NewBookDto(id, d.title, d.author, d.publicationDate, description, isbn, coverImageUrl).Ok?
  {
  }

  // ---------------------------------------------------------------------------
  // ReadingListCreateDto

  /** Its constructor never throws: every pair of (nullable) strings is a value. */
  datatype ReadingListCreateDto = ReadingListCreateDto(name: Option<string>, description: Option<string>)

  /** `validateForProcessing`: throws exactly when the name is null or blank. */
  function ValidateForProcessing(d: ReadingListCreateDto): (o: Outcome)
    ensures o.Fail? <==> NullOrBlank(d.name)
    ensures o.Fail? ==> o.error == NameEmpty
  {
    if NullOrBlank(d.name) then Fail(NameEmpty) else Pass
  }

  /** `createEmpty`. */
  function EmptyReadingListCreateDto(): (d: ReadingListCreateDto)
    ensures d.name == Some("") && d.description == Some("")
  {
    ReadingListCreateDto(Some(""), Some(""))
  }

  /** The empty form value does not pass the processing check. */
  lemma EmptyReadingListCreateDtoFailsValidation()
    ensures ValidateForProcessing(EmptyReadingListCreateDto()) == Fail(NameEmpty)
  {
  }

  /** The description is never looked at. */
  lemma ValidateForProcessingIgnoresDescription(d: ReadingListCreateDto, description: Option<string>)
    ensures ValidateForProcessing(d.(description := description)) == ValidateForProcessing(d)
  {
  }

  // ---------------------------------------------------------------------------
  // ReadingListDto

  datatype ReadingListDto = ReadingListDto(
    id: Option<Id>,
    name: Option<string>,
    description: Option<string>,
    createdAt: Option<int>,
    userId: Option<Id>,
    username: Option<string>,
    books: set<BookDto>)
  {
    predicate Valid() {
      NonBlank(name) && userId.Some?
    }
  }

  /** The canonical constructor: name, then user id. */
  function NewReadingListDto(id: Option<Id>, name: Option<string>, description: Option<string>,
                             createdAt: Option<int>, userId: Option<Id>, username: Option<string>,
                             books: set<BookDto>): (r: Result<ReadingListDto>)
    ensures NullOrBlank(name) ==> r == Err(NameEmpty)
    ensures NonBlank(name) && userId.None? ==> r == Err(UserIdNull)
    ensures r.Ok? <==> NonBlank(name) && userId.Some?
    ensures r.Ok? ==> r.value.Valid() && r.value == ReadingListDto(id, name, description, createdAt, userId, username, books)
  {
    if NullOrBlank(name) then Err(NameEmpty)
    else if userId.None? then Err(UserIdNull)
    else Ok(ReadingListDto(id, name, description, createdAt, userId, username, books))
  }

  // ---------------------------------------------------------------------------
  // ReadingListFormDto

  /** The mutable form-binding bean: two nullable fields behind setters. */
  class ReadingListFormDto {
    var name: Option<string>
    var description: Option<string>

    /** The no-argument constructor leaves both fields null. */
    constructor ()
      ensures name.None? && description.None?
    {
      name := None;
      description := None;
    }

    constructor WithFields(name: Option<string>, description: Option<string>)
      ensures this.name == name && this.description == description
    {
      this.name := name;
      this.description := description;
    }

    method SetName(name: Option<string>)
      modifies this
      ensures this.name == name && description == old(description)
    {
      this.name := name;
    }

    method SetDescription(description: Option<string>)
      modifies this
      ensures this.description == description && name == old(name)
    {
      this.description := description;
    }

    /** `toCreateDto`: the form's current name and description, unchanged. */
    function ToCreateDto(): (d: ReadingListCreateDto)
      reads this
      ensures d.name == name && d.description == description
    {
      ReadingListCreateDto(name, description)
    }
  }

  /** A form built with the no-argument constructor converts to a record that fails
      `validateForProcessing`. */
  method DefaultFormToCreateDto() returns (d: ReadingListCreateDto)
    ensures ValidateForProcessing(d) == Fail(NameEmpty)
  {
    var form := new ReadingListFormDto();
    d := form.ToCreateDto();
  }

  // ---------------------------------------------------------------------------
  // UserRegistrationDto

  datatype UserRegistrationDto = UserRegistrationDto(
    username: Option<string>,
    email: Option<string>,
    password: Option<string>,
    firstName: Option<string>,
    lastName: Option<string>)
  {
    /** A blank username switches every check off (the empty form). */
    predicate Valid() {
      NonBlank(username) ==> NonBlank(email) && NonBlank(password) && |password.value| >= MinPasswordLength
    }
  }

  const MinPasswordLength: nat := 8

  /** The canonical constructor. The checks run only when the username is non-blank:
      email, then blank password, then password length. */
  function NewUserRegistrationDto(username: Option<string>, email: Option<string>, password: Option<string>,
                                  firstName: Option<string>, lastName: Option<string>): (r: Result<UserRegistrationDto>)
    ensures NullOrBlank(username) ==> r.Ok?
    ensures NonBlank(username) && NullOrBlank(email) ==> r == Err(EmailEmpty)
    ensures NonBlank(username) && NonBlank(email) && NullOrBlank(password) ==> r == Err(PasswordEmpty)
    ensures NonBlank(username) && NonBlank(email) && NonBlank(password) && |password.value| < MinPasswordLength
            ==> r == Err(PasswordTooShort)
    ensures r.Ok? ==> r.value.Valid() && r.value == UserRegistrationDto(username, email, password, firstName, lastName)
  {
    if NonBlank(username) then
      if NullOrBlank(email) then Err(EmailEmpty)
      else if NullOrBlank(password) then Err(PasswordEmpty)
      else if |password.value| < MinPasswordLength then Err(PasswordTooShort)
      else Ok(UserRegistrationDto(username, email, password, firstName, lastName))
    else Ok(UserRegistrationDto(username, email, password, firstName, lastName))
  }

  /** `createEmpty`: five empty strings, which the constructor accepts. */
  function EmptyUserRegistrationDto(): (r: Result<UserRegistrationDto>)
    ensures r.Ok? && r.value.username == Some("") && r.value.email == Some("") && r.value.password == Some("")
  {
    NewUserRegistrationDto(Some(""), Some(""), Some(""), Some(""), Some(""))
  }

  /** A non-blank username and email with a non-blank password of at least eight characters
      is always accepted: the email's format is not checked here. A password of eight
      spaces is long enough but blank, so the non-blank condition cannot be dropped. */
  lemma RegistrationAcceptsLongPasswords(username: string, email: string, password: string,
                                         firstName: Option<string>, lastName: Option<string>)
    requires NonBlank(Some(username)) && NonBlank(Some(email))
    requires NonBlank(Some(password)) && |password| >= MinPasswordLength
    ensures NewUserRegistrationDto(Some(username), Some(email), Some(password), firstName, lastName).Ok?
  {
  }

  lemma RegistrationRejectsBlankLongPassword()
    ensures NewUserRegistrationDto(Some("reader"), Some("r@x.org"), Some("        "), None, None) == Err(PasswordEmpty)
  {
    assert IsBlank("        ");
    assert !IsBlank("reader") by { assert !IsWhitespace("reader"[0]); }
    assert !IsBlank("r@x.org") by { assert !IsWhitespace("r@x.org"[0]); }
  }

  // ---------------------------------------------------------------------------
  // UserDto

  datatype UserDto = UserDto(
    id: Option<Id>,
    username: Option<string>,
    email: Option<string>,
    firstName: Option<string>,
    lastName: Option<string>,
    createdAt: Option<int>,
    roles: Option<set<string>>)
  {
    predicate Valid() {
      NonBlank(username) && NonBlank(email)
    }
  }

  /** The canonical constructor: username, then email. */
  function NewUserDto(id: Option<Id>, username: Option<string>, email: Option<string>,
                      firstName: Option<string>, lastName: Option<string>, createdAt: Option<int>,
                      roles: Option<set<string>>): (r: Result<UserDto>)
    ensures NullOrBlank(username) ==> r == Err(UsernameEmpty)
    ensures NonBlank(username) && NullOrBlank(email) ==> r == Err(EmailEmpty)
    ensures r.Ok? <==> NonBlank(username) && NonBlank(email)
    ensures r.Ok? ==> r.value.Valid() && r.value == UserDto(id, username, email, firstName, lastName, createdAt, roles)
  {
    if NullOrBlank(username) then Err(UsernameEmpty)
    else if NullOrBlank(email) then Err(EmailEmpty)
    else Ok(UserDto(id, username, email, firstName, lastName, createdAt, roles))
  }

  // ---------------------------------------------------------------------------
  // LoginDto

  datatype LoginDto = LoginDto(username: Option<string>, password: Option<string>)

  /** The canonical constructor: username, then password; no minimum length. */
  function NewLoginDto(username: Option<string>, password: Option<string>): (r: Result<LoginDto>)
    ensures NullOrBlank(username) ==> r == Err(UsernameEmpty)
    ensures NonBlank(username) && NullOrBlank(password) ==> r == Err(PasswordEmpty)
    ensures r.Ok? <==> NonBlank(username) && NonBlank(password)
    ensures r.Ok? ==> r.value == LoginDto(username, password)
  {
    if NullOrBlank(username) then Err(UsernameEmpty)
    else if NullOrBlank(password) then Err(PasswordEmpty)
    else Ok(LoginDto(username, password))
  }

  /** A one-character password is accepted at login, though registration would refuse it. */
  lemma LoginHasNoMinimumLength()
    ensures NewLoginDto(Some("reader"), Some("x")).Ok?
    ensures NewUserRegistrationDto(Some("reader"), Some("r@x.org"), Some("x"), None, None) == Err(PasswordTooShort)
  {
    assert !IsBlank("reader") by { assert !IsWhitespace("reader"[0]); }
    assert !IsBlank("r@x.org") by { assert !IsWhitespace("r@x.org"[0]); }
    assert !IsBlank("x") by { assert !IsWhitespace("x"[0]); }
  }
}
