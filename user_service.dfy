/** `UserServiceImpl`: registration with unique usernames and emails, the default role
    and enabled flag, profile updates, deletion and the availability checks. */
module UserService {
  import opened Common
  import opened Entities
  import opened Dtos
  import opened Store

  // ---------------------------------------------------------------------------
  // Conversion and queries

  /** `convertToDto`: every field but the password (and reading lists), through the
      checking constructor of `UserDto`. */
  function UserToDto(u: User): (r: Result<UserDto>)
    ensures r.Ok? <==> NonBlank(Some(u.username)) && NonBlank(Some(u.email))
    ensures r.Ok? ==> r.value.Valid() && r.value.id == Some(u.id) && r.value.username == Some(u.username)
                      && r.value.email == Some(u.email) && r.value.roles == Some(u.roles)
                      && r.value.firstName == u.firstName && r.value.lastName == u.lastName
  {
    NewUserDto(Some(u.id), Some(u.username), Some(u.email), u.firstName, u.lastName, Some(u.createdAt), Some(u.roles))
  }

  /** The password never reaches the DTO. */
  lemma UserToDtoHidesPassword(u: User, password: string)
    ensures UserToDto(u.(password := password)) == UserToDto(u)
  {
  }

  /** Every stored user converts. */
  lemma StoredUsersConvert(t: Tables, id: Id)
    requires Inv(t) && id in t.users
    ensures UserToDto(t.users[id]).Ok?
  {
  }

  /** `isUsernameAvailable`: no stored user has that username. */
  function IsUsernameAvailable(t: Tables, username: string): (r: bool)
    ensures r <==> forall id :: id in t.users ==> t.users[id].username != username
  {
    !UsernameTaken(t, username)
  }

  /** `isEmailAvailable`: no stored user has that email. */
  function IsEmailAvailable(t: Tables, email: string): (r: bool)
    ensures r <==> forall id :: id in t.users ==> t.users[id].email != email
  {
    !EmailTaken(t, email)
  }

  // ---------------------------------------------------------------------------
  // Commands

  /** The user `registerUser` builds: fields from the DTO, the encoded password, enabled,
      the single role `ROLE_USER`, and no reset token. */
  function NewUser(reg: UserRegistrationDto, id: Id, encode: string -> string, now: int): (u: User)
    requires reg.username.Some? && reg.email.Some? && reg.password.Some?
    ensures u.id == id && u.username == reg.username.value && u.email == reg.email.value
    ensures u.password == encode(reg.password.value)
    ensures u.firstName == reg.firstName && u.lastName == reg.lastName
    ensures u.enabled && u.roles == {RoleUser} && u.resetToken.None? && u.resetTokenExpiry.None?
  {
    var u := FreshUser(id, reg.username.value, reg.email.value, encode(reg.password.value), reg.firstName, reg.lastName, now);
    u.(roles := u.roles + {RoleUser})
  }

  /** The user the next id names owns no reading list yet: a new user's `readingLists`
      starts empty. */
  lemma NextIdOwnsNoLists(t: Tables)
    requires Inv(t)
    ensures ListsOwnedBy(t, t.nextId) == {}
  {
    forall l | l in t.lists ensures t.lists[l].owner != Some(t.nextId) {
      if t.lists[l].owner.Some? {
        assert t.lists[l].owner.value in t.users;
      }
    }
  }

  lemma NewUserKeepsInv(t: Tables, u: User)
    requires Inv(t) && u.id == t.nextId
    requires NonBlank(Some(u.username)) && NonBlank(Some(u.email))
    requires !UsernameTaken(t, u.username) && !EmailTaken(t, u.email)
    requires u.resetToken.None? && u.resetTokenExpiry.None?
    ensures u.id !in t.users
    ensures Inv(t.(users := t.users[u.id := u], nextId := u.id + 1))
  {
    FreshIdUnused(t);
    BumpKeepsInv(t);
    var t' := t.(nextId := t.nextId + 1);
    PutUserKeepsInv(t', u);
    assert t'.(users := t'.users[u.id := u]) == t.(users := t.users[u.id := u], nextId := u.id + 1);
  }

  /** `registerUser`: the username check, then the email check; the new user is saved and
      converted. A conversion failure (a blank username, which the registration DTO lets
      through) rolls the transaction back. */
  method RegisterUser(st: Store, reg: UserRegistrationDto, encode: string -> string, now: int)
    returns (r: Result<UserDto>)
    requires st.Valid() && reg.Valid()
    requires reg.username.Some? && reg.email.Some? && reg.password.Some?
    modifies st
    ensures st.Valid()
    ensures UsernameTaken(old(st.Snapshot()), reg.username.value) ==> r == Err(UsernameExists)
    ensures !UsernameTaken(old(st.Snapshot()), reg.username.value) && EmailTaken(old(st.Snapshot()), reg.email.value)
            ==> r == Err(EmailExists)
    ensures r.Ok? <==> !UsernameTaken(old(st.Snapshot()), reg.username.value) && !EmailTaken(old(st.Snapshot()), reg.email.value)
                       && NonBlank(reg.username)
    ensures r.Err? ==> st.Snapshot() == old(st.Snapshot())
    ensures r.Ok? ==>
      var u := NewUser(reg, old(st.nextId), encode, now);
      u.id !in old(st.users)
      && st.Snapshot() == old(st.Snapshot()).(users := old(st.users)[u.id := u], nextId := u.id + 1)
      && r == UserToDto(u)
      && ListsOwnedBy(st.Snapshot(), u.id) == {}
      && !IsUsernameAvailable(st.Snapshot(), reg.username.value) && !IsEmailAvailable(st.Snapshot(), reg.email.value)
  {
    if UsernameTaken(st.Snapshot(), reg.username.value) {
      return Err(UsernameExists);
    }
    if EmailTaken(st.Snapshot(), reg.email.value) {
      return Err(EmailExists);
    }
    var id := st.nextId;
    var u := NewUser(reg, id, encode, now);
    var dto := UserToDto(u);
    if dto.Err? {
      return dto;
    }
    NewUserKeepsInv(st.Snapshot(), u);
    NextIdOwnsNoLists(st.Snapshot());
    st.users, st.nextId := st.users[id := u], id + 1;
    assert st.users[id] == u;
    r := dto;
  }

  /** Under unique emails, `updateUser`'s guard (a different email that some user holds)
      rejects exactly the emails another user holds: keeping one's own email passes. */
  lemma EmailGuardIsOthersCheck(t: Tables, id: Id, email: string)
    requires Inv(t) && id in t.users
    ensures (t.users[id].email != email && EmailTaken(t, email))
            <==> exists j :: j in t.users && j != id && t.users[j].email == email
  {
    if t.users[id].email != email && EmailTaken(t, email) {
      var j :| j in t.users && t.users[j].email == email;
      assert j != id;
    }
  }

  /** `updateUser`: the lookup, then the email guard; only email, first and last name (and
      the modification time) change. */
  method UpdateUser(st: Store, id: Id, dto: UserDto, now: int) returns (r: Result<UserDto>)
    requires st.Valid() && dto.Valid()
    modifies st
    ensures st.Valid()
    ensures id !in old(st.users) ==> r == Err(UserNotFound)
    ensures id in old(st.users) && old(st.users[id].email) != dto.email.value && EmailTaken(old(st.Snapshot()), dto.email.value)
            ==> r == Err(EmailExists)
    ensures r.Ok? <==> id in old(st.users)
                       && forall j :: j in old(st.users) && j != id ==> old(st.users[j].email) != dto.email.value
    ensures r.Err? ==> st.Snapshot() == old(st.Snapshot())
    ensures r.Ok? ==>
      var u := old(st.users[id]).(email := dto.email.value, firstName := dto.firstName, lastName := dto.lastName, updatedAt := now);
      st.Snapshot() == old(st.Snapshot()).(users := old(st.users)[id := u])
      && r == UserToDto(u)
      && u.username == old(st.users[id].username) && u.password == old(st.users[id].password)
      && u.roles == old(st.users[id].roles) && u.enabled == old(st.users[id].enabled)
  {
    if id !in st.users {
      return Err(UserNotFound);
    }
    var u := st.users[id];
    EmailGuardIsOthersCheck(st.Snapshot(), id, dto.email.value);
    if u.email != dto.email.value && EmailTaken(st.Snapshot(), dto.email.value) {
      return Err(EmailExists);
    }
    var u' := u.(email := dto.email.value, firstName := dto.firstName, lastName := dto.lastName, updatedAt := now);
    PutUserKeepsInv(st.Snapshot(), u');
    st.users := st.users[id := u'];
    r := UserToDto(u');
  }

  /** `deleteUser`: the existence check, then the user goes, with the reading lists it owns
      (`User.readingLists` cascades) and their join rows. */
  method DeleteUser(st: Store, id: Id) returns (o: Outcome)
    requires st.Valid()
    modifies st
    ensures st.Valid()
    ensures o.Fail? <==> id !in old(st.users)
    ensures o.Fail? ==> o.error == UserNotFound && st.Snapshot() == old(st.Snapshot())
    ensures o.Pass? ==> st.Snapshot() == WithoutUser(old(st.Snapshot()), id)
    ensures o.Pass? ==> id !in st.users && ListsOwnedBy(st.Snapshot(), id) == {}
                        && IsUsernameAvailable(st.Snapshot(), old(st.users[id].username))
  {
    if id !in st.users {
      return Fail(UserNotFound);
    }
    WithoutUserKeepsInv(st.Snapshot(), id);
    var t := WithoutUser(st.Snapshot(), id);
    ghost var name := st.users[id].username;
    forall j | j in t.users ensures t.users[j].username != name {
      assert j in st.users && j != id;
    }
    st.users, st.lists, st.members := t.users, t.lists, t.members;
    o := Pass;
  }
}
