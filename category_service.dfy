/** `CategoryServiceImpl`: categories with unique names, and the book count each one
    reports. */
module CategoryService {
  import opened Common
  import opened Entities
  import opened Store

  /** `CategoryDto` as `convertToDto` fills it. */
  datatype CategoryDto = CategoryDto(
    id: Id,
    name: string,
    description: Option<string>,
    createdAt: int,
    updatedAt: int,
    bookCount: nat)

  /** `convertToDto`: the category's fields, and as `bookCount` the size of its `books`
      (the inverse side of `book_categories`), which can never exceed the number of
      stored books. */
  function ConvertToDto(t: Tables, id: Id): (d: CategoryDto)
    requires Inv(t) && id in t.categories
    ensures d.id == id && d.name == t.categories[id].name && d.description == t.categories[id].description
    ensures d.createdAt == t.categories[id].createdAt && d.updatedAt == t.categories[id].updatedAt
    ensures d.bookCount == |BooksInCategory(t, id)| && d.bookCount <= |t.books|
    ensures d.bookCount == 0 <==> forall b :: b in t.books ==> (b, id) !in t.tagged
  {
    var c := t.categories[id];
    var books := BooksInCategory(t, id);
    TaggedBooksAreStored(t, id);
    assert books == {} ==> forall b :: b in t.books ==> (b, id) !in t.tagged by {
      forall b | b in t.books ensures b in books <==> (b, id) in t.tagged {
        TaggedView(t, id, b);
      }
    }
    CategoryDto(c.id, c.name, c.description, c.createdAt, c.updatedAt, |books|)
  }

  /** A book is in a category's `books` exactly when the (book, category) row exists. */
  lemma TaggedView(t: Tables, id: Id, b: Id)
    ensures b in BooksInCategory(t, id) <==> (b, id) in t.tagged
  {
    if (b, id) in t.tagged {
      assert (b, id).0 == b;
    }
  }

  lemma TaggedBooksAreStored(t: Tables, id: Id)
    requires LinksValid(t)
    ensures BooksInCategory(t, id) <= t.books.Keys
    ensures |BooksInCategory(t, id)| <= |t.books|
  {
    var books := BooksInCategory(t, id);
    assert books <= t.books.Keys;
    assert t.books.Keys == books + (t.books.Keys - books);
  }

  /** Under unique names, `updateCategory`'s rename guard (a different name that some
      category holds) rejects exactly the names another category holds: keeping one's own
      name always passes. */
  lemma RenameGuardIsOthersCheck(t: Tables, id: Id, name: string)
    requires Inv(t) && id in t.categories
    ensures (t.categories[id].name != name && CategoryNameTaken(t, name))
            <==> exists j :: j in t.categories && j != id && t.categories[j].name == name
  {
    if t.categories[id].name != name && CategoryNameTaken(t, name) {
      var j :| j in t.categories && t.categories[j].name == name;
      assert j != id;
    }
  }

  /** Inserting a category under the next id after the name check passed. */
  lemma NewCategoryKeepsInv(t: Tables, c: Category)
    requires Inv(t) && c.id == t.nextId && !CategoryNameTaken(t, c.name)
    ensures c.id !in t.categories
    ensures Inv(t.(categories := t.categories[c.id := c], nextId := c.id + 1))
    ensures BooksInCategory(t.(categories := t.categories[c.id := c], nextId := c.id + 1), c.id) == {}
  {
    FreshIdUnused(t);
    BumpKeepsInv(t);
    var t' := t.(nextId := t.nextId + 1);
    PutCategoryKeepsInv(t', c);
    assert t'.(categories := t'.categories[c.id := c]) == t.(categories := t.categories[c.id := c], nextId := c.id + 1);
    forall b ensures b !in BooksInCategory(t, c.id) {
      TaggedView(t, c.id, b);
    }
  }

  /** `createCategory`: fails when a category with exactly that name exists; otherwise the
      new category holds the given name and description and no books. */
  method CreateCategory(st: Store, name: string, description: Option<string>, now: int) returns (r: Result<CategoryDto>)
    requires st.Valid()
    modifies st
    ensures st.Valid()
    ensures r.Err? <==> CategoryNameTaken(old(st.Snapshot()), name)
    ensures r.Err? ==> r.error == CategoryExists && st.Snapshot() == old(st.Snapshot())
    ensures r.Ok? ==>
      var id := old(st.nextId);
      id !in old(st.categories)
      && st.Snapshot() == old(st.Snapshot()).(categories := old(st.categories)[id := Category(id, name, description, now, now)],
                                             nextId := id + 1)
      && r.value == ConvertToDto(st.Snapshot(), id) && r.value.name == name && r.value.bookCount == 0
  {
    if CategoryNameTaken(st.Snapshot(), name) {
      return Err(CategoryExists);
    }
    var id := st.nextId;
    var c := Category(id, name, description, now, now);
    NewCategoryKeepsInv(st.Snapshot(), c);
    st.categories, st.nextId := st.categories[id := c], id + 1;
    r := Ok(ConvertToDto(st.Snapshot(), id));
  }

  /** `updateCategory`: the lookup, then the rename guard; only name, description and
      modification time change. */
  method UpdateCategory(st: Store, id: Id, name: string, description: Option<string>, now: int)
    returns (r: Result<CategoryDto>)
    requires st.Valid()
    modifies st
    ensures st.Valid()
    ensures id !in old(st.categories) ==> r == Err(CategoryNotFound)
    ensures id in old(st.categories) && old(st.categories[id].name) != name && CategoryNameTaken(old(st.Snapshot()), name)
            ==> r == Err(CategoryExists)
    ensures r.Ok? <==> id in old(st.categories)
                       && forall j :: j in old(st.categories) && j != id ==> old(st.categories[j].name) != name
    ensures r.Err? ==> st.Snapshot() == old(st.Snapshot())
    ensures r.Ok? ==>
      st.Snapshot() == old(st.Snapshot()).(categories := old(st.categories)[id := old(st.categories[id]).(name := name, description := description, updatedAt := now)])
      && r.value == ConvertToDto(st.Snapshot(), id)
  {
    if id !in st.categories {
      return Err(CategoryNotFound);
    }
    var c := st.categories[id];
    RenameGuardIsOthersCheck(st.Snapshot(), id, name);
    if c.name != name && CategoryNameTaken(st.Snapshot(), name) {
      return Err(CategoryExists);
    }
    var c' := c.(name := name, description := description, updatedAt := now);
    PutCategoryKeepsInv(st.Snapshot(), c');
    st.categories := st.categories[id := c'];
    r := Ok(ConvertToDto(st.Snapshot(), id));
  }

  /** `deleteCategory`: the lookup, then the category goes (with its join rows); the books
      stay. */
  method DeleteCategory(st: Store, id: Id) returns (o: Outcome)
    requires st.Valid()
    modifies st
    ensures st.Valid()
    ensures o.Fail? <==> id !in old(st.categories)
    ensures o.Fail? ==> o.error == CategoryNotFound && st.Snapshot() == old(st.Snapshot())
    ensures o.Pass? ==> st.Snapshot() == WithoutCategory(old(st.Snapshot()), id)
    ensures o.Pass? ==> id !in st.categories && st.books == old(st.books) && !CategoryNameTaken(st.Snapshot(), old(st.categories[id].name))
  {
    if id !in st.categories {
      return Fail(CategoryNotFound);
    }
    WithoutCategoryKeepsInv(st.Snapshot(), id);
    var t := WithoutCategory(st.Snapshot(), id);
    ghost var name := st.categories[id].name;
    forall j | j in t.categories ensures t.categories[j].name != name {
      assert j in st.categories && j != id;
    }
    st.categories, st.tagged := t.categories, t.tagged;
    o := Pass;
  }
}
