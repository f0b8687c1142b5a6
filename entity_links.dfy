/** The entity methods that change associations and collections in place:
    `ReadingList.addBook`/`removeBook` (both sides of the reading-list/book link) and
    `User.addRole`/`removeRole`/`addReadingList`/`removeReadingList`. The two Java
    sets `ReadingList.books` and `Book.readingLists` are the two views `BooksIn` and
    `ListsHolding` of the single join relation, so they can never disagree. */
module EntityLinks {
  import opened Common
  import opened JavaObjects
  import opened Entities
  import opened Store

  // ---------------------------------------------------------------------------
  // The join relation and its two views

  /** A book is in a list's `books` exactly when the list is in the book's `readingLists`. */
  lemma ViewsAgree(t: Tables, list: Id, book: Id)
    ensures book in BooksIn(t, list) <==> (list, book) in t.members
    ensures list in ListsHolding(t, book) <==> (list, book) in t.members
  {
    if (list, book) in t.members {
      assert (list, book).1 == book;
      assert (list, book).0 == list;
    }
  }

  /** Within one store every stored book is a distinct row, so `Book.equals` between two
      stored books holds exactly when they are the same row: a `HashSet<Book>` of stored
      books behaves as a set of ids. */
  lemma StoredBooksEqualIffSameId(t: Tables, i: Id, j: Id)
    requires KeysMatch(t) && i in t.books && j in t.books
    ensures BookEquals(t.books[i], Same(t.books[j])) <==> i == j
  {
    if i != j {
      assert t.books[i].id == i && t.books[j].id == j;
    }
  }

  /** `addBook` on the relation: the book joins this list's books and the list joins this
      book's lists; every other list's books and every other book's lists stay the same. */
  lemma AddMemberViews(t: Tables, list: Id, book: Id)
    ensures BooksIn(t.(members := t.members + {(list, book)}), list) == BooksIn(t, list) + {book}
    ensures ListsHolding(t.(members := t.members + {(list, book)}), book) == ListsHolding(t, book) + {list}
    ensures forall l :: l != list ==> BooksIn(t.(members := t.members + {(list, book)}), l) == BooksIn(t, l)
    ensures forall b :: b != book ==> ListsHolding(t.(members := t.members + {(list, book)}), b) == ListsHolding(t, b)
  {
    var t' := t.(members := t.members + {(list, book)});
    ViewsAgree(t', list, book);
    forall b ensures b in BooksIn(t', list) <==> b in BooksIn(t, list) + {book} {
      ViewsAgree(t', list, b);
      ViewsAgree(t, list, b);
    }
    forall l ensures l in ListsHolding(t', book) <==> l in ListsHolding(t, book) + {list} {
      ViewsAgree(t', l, book);
      ViewsAgree(t, l, book);
    }
    forall l | l != list ensures BooksIn(t', l) == BooksIn(t, l) {
      forall b ensures b in BooksIn(t', l) <==> b in BooksIn(t, l) {
        ViewsAgree(t', l, b);
        ViewsAgree(t, l, b);
      }
    }
    forall b | b != book ensures ListsHolding(t', b) == ListsHolding(t, b) {
      forall l ensures l in ListsHolding(t', b) <==> l in ListsHolding(t, b) {
        ViewsAgree(t', l, b);
        ViewsAgree(t, l, b);
      }
    }
  }

  /** `removeBook` on the relation: the mirror image of `AddMemberViews`. */
  lemma RemoveMemberViews(t: Tables, list: Id, book: Id)
    ensures BooksIn(t.(members := t.members - {(list, book)}), list) == BooksIn(t, list) - {book}
    ensures ListsHolding(t.(members := t.members - {(list, book)}), book) == ListsHolding(t, book) - {list}
    ensures forall l :: l != list ==> BooksIn(t.(members := t.members - {(list, book)}), l) == BooksIn(t, l)
    ensures forall b :: b != book ==> ListsHolding(t.(members := t.members - {(list, book)}), b) == ListsHolding(t, b)
  {
    var t' := t.(members := t.members - {(list, book)});
    forall b ensures b in BooksIn(t', list) <==> b in BooksIn(t, list) - {book} {
      ViewsAgree(t', list, b);
      ViewsAgree(t, list, b);
    }
    forall l ensures l in ListsHolding(t', book) <==> l in ListsHolding(t, book) - {list} {
      ViewsAgree(t', l, book);
      ViewsAgree(t, l, book);
    }
    forall l | l != list ensures BooksIn(t', l) == BooksIn(t, l) {
      forall b ensures b in BooksIn(t', l) <==> b in BooksIn(t, l) {
        ViewsAgree(t', l, b);
        ViewsAgree(t, l, b);
      }
    }
    forall b | b != book ensures ListsHolding(t', b) == ListsHolding(t, b) {
      forall l ensures l in ListsHolding(t', b) <==> l in ListsHolding(t, b) {
        ViewsAgree(t', l, b);
        ViewsAgree(t, l, b);
      }
    }
  }

  // ---------------------------------------------------------------------------
  // ReadingList.addBook / removeBook

  /** `ReadingList.addBook`: `books.add(book)` and `book.getReadingLists().add(this)`.
      Adding a book that is already there changes nothing, since both are sets. */
  method AddBook(st: Store, list: Id, book: Id)
    requires st.Valid() && list in st.lists && book in st.books
    modifies st
    ensures st.Valid()
    ensures st.Snapshot() == old(st.Snapshot()).(members := old(st.members) + {(list, book)})
    ensures (list, book) in old(st.members) ==> st.Snapshot() == old(st.Snapshot())
  {
    SetMembersKeepsInv(st.Snapshot(), st.members + {(list, book)});
    st.members := st.members + {(list, book)};
  }

  /** `ReadingList.removeBook`: removes the link from both sides; removing a book that is
      not there changes nothing. */
  method RemoveBook(st: Store, list: Id, book: Id)
    requires st.Valid()
    modifies st
    ensures st.Valid()
    ensures st.Snapshot() == old(st.Snapshot()).(members := old(st.members) - {(list, book)})
    ensures (list, book) !in old(st.members) ==> st.Snapshot() == old(st.Snapshot())
  {
    SetMembersKeepsInv(st.Snapshot(), st.members - {(list, book)});
    st.members := st.members - {(list, book)};
  }

  /** Setting a list's owner moves it into the new owner's reading lists and out of
      every other user's. */
  lemma SetOwnerView(t: Tables, list: Id, user: Id, owner: Option<Id>)
    requires list in t.lists
    ensures owner == Some(user) ==>
      ListsOwnedBy(t.(lists := t.lists[list := t.lists[list].(owner := owner)]), user) == ListsOwnedBy(t, user) + {list}
    ensures owner != Some(user) ==>
      ListsOwnedBy(t.(lists := t.lists[list := t.lists[list].(owner := owner)]), user) == ListsOwnedBy(t, user) - {list}
  {
    var t' := t.(lists := t.lists[list := t.lists[list].(owner := owner)]);
    if owner == Some(user) {
      forall id ensures id in ListsOwnedBy(t', user) <==> id in ListsOwnedBy(t, user) + {list} {
      }
    } else {
      forall id ensures id in ListsOwnedBy(t', user) <==> id in ListsOwnedBy(t, user) - {list} {
      }
    }
  }

  // ---------------------------------------------------------------------------
  // User.addRole / removeRole / addReadingList / removeReadingList

  /** `User.addRole`: the role joins the set; the other roles and every other field stay;
      adding a role the user already has changes nothing. */
  method AddRole(st: Store, user: Id, role: string)
    requires st.Valid() && user in st.users
    modifies st
    ensures st.Valid()
    ensures st.users == old(st.users)[user := old(st.users[user]).(roles := old(st.users[user].roles) + {role})]
    ensures st.Snapshot() == old(st.Snapshot()).(users := st.users)
    ensures role in old(st.users[user].roles) ==> st.Snapshot() == old(st.Snapshot())
  {
    var u := st.users[user];
    var u' := u.(roles := u.roles + {role});
    PutUserKeepsInv(st.Snapshot(), u');
    if role in u.roles {
      assert u.roles + {role} == u.roles;
      assert st.users[user := u'] == st.users;
    }
    st.users := st.users[user := u'];
  }

  /** `User.removeRole`: the role leaves the set; removing an absent role changes nothing. */
  method RemoveRole(st: Store, user: Id, role: string)
    requires st.Valid() && user in st.users
    modifies st
    ensures st.Valid()
    ensures st.users == old(st.users)[user := old(st.users[user]).(roles := old(st.users[user].roles) - {role})]
    ensures st.Snapshot() == old(st.Snapshot()).(users := st.users)
    ensures role !in old(st.users[user].roles) ==> st.Snapshot() == old(st.Snapshot())
  {
    var u := st.users[user];
    var u' := u.(roles := u.roles - {role});
    PutUserKeepsInv(st.Snapshot(), u');
    if role !in u.roles {
      assert u.roles - {role} == u.roles;
      assert st.users[user := u'] == st.users;
    }
    st.users := st.users[user := u'];
  }

  /** `User.addReadingList`: the list's `user` becomes this user, which puts the list among
      the user's reading lists (and, the view being derived, out of any former owner's). */
  method AddReadingList(st: Store, user: Id, list: Id)
    requires st.Valid() && user in st.users && list in st.lists
    modifies st
    ensures st.Valid()
    ensures st.lists == old(st.lists)[list := old(st.lists[list]).(owner := Some(user))]
    ensures st.Snapshot() == old(st.Snapshot()).(lists := st.lists)
    ensures ListsOwnedBy(st.Snapshot(), user) == ListsOwnedBy(old(st.Snapshot()), user) + {list}
  {
    var l := st.lists[list];
    PutListKeepsInv(st.Snapshot(), l.(owner := Some(user)));
    SetOwnerView(st.Snapshot(), list, user, Some(user));
    st.lists := st.lists[list := l.(owner := Some(user))];
  }

  /** `User.removeReadingList`: `readingList.setUser(null)`, whichever user the list
      belonged to; the list leaves this user's reading lists. */
  method RemoveReadingList(st: Store, user: Id, list: Id)
    requires st.Valid() && user in st.users && list in st.lists
    modifies st
    ensures st.Valid()
    ensures st.lists == old(st.lists)[list := old(st.lists[list]).(owner := None)]
    ensures st.Snapshot() == old(st.Snapshot()).(lists := st.lists)
    ensures ListsOwnedBy(st.Snapshot(), user) == ListsOwnedBy(old(st.Snapshot()), user) - {list}
  {
    var l := st.lists[list];
    PutListKeepsInv(st.Snapshot(), l.(owner := None));
    SetOwnerView(st.Snapshot(), list, user, None);
    st.lists := st.lists[list := l.(owner := None)];
  }
}
