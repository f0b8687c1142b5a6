/** Types shared by every part of the book-club model: identifiers, nullable values,
    the errors the services throw, and Java's notion of a blank string. */
module Common {

  /** A database identifier (`Long` generated by the IDENTITY strategy). */
  type Id = nat

  /** A Java reference that may be `null`. */
  datatype Option<+T> = None | Some(value: T)

  /** One constructor per exception the modelled code throws (or catches and reports). */
  datatype Error =
    | UserNotFound
    | BookNotFound
    | ReadingListNotFound
    | ReviewNotFound
    | CategoryNotFound
    | BooksNotFound(missing: seq<Id>)
    | NameEmpty
    | TitleEmpty
    | AuthorEmpty
    | PublicationDateNull
    | UserIdNull
    | UsernameEmpty
    | EmailEmpty
    | PasswordEmpty
    | PasswordTooShort
    | PasswordsDoNotMatch
    | InvalidResetToken
    | IsbnTaken
    | UsernameExists
    | EmailExists
    | CategoryExists
    | AlreadyReviewed
    | NotReviewAuthor
    | InvalidIsbnFormat
    | FutureDate
    | NonUniqueResult
    | NullReference
    | NoListChosen
    | AuthenticationRequired

  /** The value of a call that returns normally, or the exception it throws. */
  datatype Result<+T> = Ok(value: T) | Err(error: Error)

  /** A check that passes or throws (a `void` method that may throw). */
  datatype Outcome = Pass | Fail(error: Error)

  /** `Character.isWhitespace` on a code point: the Unicode space, line and paragraph
      separators other than the no-break spaces, and the ASCII controls U+0009..U+000D
      and U+001C..U+001F. */
  predicate IsWhitespace(c: char)
  {
    var n := c as int;
    || n == 0x20
    || 0x09 <= n <= 0x0D
    || 0x1C <= n <= 0x1F
    || n == 0x1680
    || 0x2000 <= n <= 0x2006
    || 0x2008 <= n <= 0x200A
    || n == 0x2028
    || n == 0x2029
    || n == 0x205F
    || n == 0x3000
  }

  /** `String.isBlank`: empty, or whitespace only. */
  predicate IsBlank(s: string)
  {
    forall i :: 0 <= i < |s| ==> IsWhitespace(s[i])
  }

  /** The guard `s == null || s.isBlank()` that recurs throughout the code. */
  predicate NullOrBlank(s: Option<string>)
  {
    s.None? || IsBlank(s.value)
  }

  /** A non-null string with at least one non-whitespace character. */
  predicate NonBlank(s: Option<string>)
  {
    !NullOrBlank(s)
  }

  /** A string is non-blank exactly when it holds some non-whitespace character;
      in particular it is then non-empty. */
  lemma NonBlankWitness(s: string)
    ensures NonBlank(Some(s)) <==> exists i :: 0 <= i < |s| && !IsWhitespace(s[i])
    ensures NonBlank(Some(s)) ==> |s| > 0
  {
  }

  /** A subset is no larger than its superset, and a proper subset is smaller. */
  lemma SubsetCardinality(a: set<Id>, b: set<Id>)
    requires a <= b
    ensures |a| <= |b|
    ensures a < b ==> |a| < |b|
  {
    assert b == a + (b - a);
    if a < b {
      var x :| x in b - a;
    }
  }
}
