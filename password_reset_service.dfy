/** `PasswordResetService`: a one-hour reset token per user, checked against the clock and
    consumed by a successful reset. The UUID generator, the clock (seconds) and the
    password encoder are parameters; the e-mail is not modelled. */
module PasswordResetService {
  import opened Common
  import opened Entities
  import opened Store

  /** `LocalDateTime.now().plusHours(1)`, in seconds. */
  const TokenLifetime: int := 3600

  /** Some user holds `token`. */
  predicate TokenKnown(t: Tables, token: string)
  {
    exists id :: id in t.users && t.users[id].resetToken == Some(token)
  }

  /** Some user holds `token` and its expiry is strictly after `now`. */
  predicate TokenValid(t: Tables, token: string, now: int)
  {
    exists id :: id in t.users && t.users[id].resetToken == Some(token)
                 && t.users[id].resetTokenExpiry.Some? && t.users[id].resetTokenExpiry.value > now
  }

  /** A token no stored user holds: what `UUID.randomUUID()` is taken to produce. */
  predicate Fresh(t: Tables, token: string)
  {
    forall id :: id in t.users ==> t.users[id].resetToken != Some(token)
  }

  /** Tokens are unique, so the holder found by a lookup decides validity for everyone. */
  lemma HolderDecidesValidity(t: Tables, id: Id, token: string, now: int)
    requires Inv(t) && id in t.users && t.users[id].resetToken == Some(token)
    ensures t.users[id].resetTokenExpiry.Some?
    ensures TokenValid(t, token, now) <==> t.users[id].resetTokenExpiry.value > now
  {
    if TokenValid(t, token, now) {
      var j :| j in t.users && t.users[j].resetToken == Some(token)
               && t.users[j].resetTokenExpiry.Some? && t.users[j].resetTokenExpiry.value > now;
      assert j == id;
    }
  }

  // ---------------------------------------------------------------------------
  // initiatePasswordReset

  /** The user with `email` gets a fresh token and its expiry: every other user is
      unchanged, the invariant still holds, and the token is valid before the expiry. */
  lemma IssueToken(t: Tables, id: Id, email: string, token: string, expiry: int)
    requires Inv(t) && id in t.users && t.users[id].email == email && Fresh(t, token)
    ensures var t' := t.(users := t.users[id := t.users[id].(resetToken := Some(token), resetTokenExpiry := Some(expiry))]);
      && Inv(t')
      && (forall j :: j in t.users ==>
            t'.users[j] == if t.users[j].email == email
                           then t.users[j].(resetToken := Some(token), resetTokenExpiry := Some(expiry))
                           else t.users[j])
      && (forall now :: now < expiry ==> TokenValid(t', token, now))
  {
    var u' := t.users[id].(resetToken := Some(token), resetTokenExpiry := Some(expiry));
    PutUserKeepsInv(t, u');
    var t' := t.(users := t.users[id := u']);
    forall now | now < expiry ensures TokenValid(t', token, now) {
      assert id in t'.users && t'.users[id].resetToken == Some(token);
    }
  }

  /** `initiatePasswordReset`: for an unknown email, `false` and no change; otherwise the
      user with that email gets the token, expiring an hour from now, and the result is
      `true`. */
  method InitiatePasswordReset(st: Store, email: string, token: string, now: int) returns (sent: bool)
    requires st.Valid() && Fresh(st.Snapshot(), token)
    modifies st
    ensures st.Valid()
    ensures sent <==> EmailTaken(old(st.Snapshot()), email)
    ensures !sent ==> st.Snapshot() == old(st.Snapshot())
    ensures st.Snapshot() == old(st.Snapshot()).(users := st.users) && st.users.Keys == old(st.users.Keys)
    ensures forall id :: id in st.users ==>
      st.users[id] == if old(st.users[id].email) == email
                      then old(st.users[id]).(resetToken := Some(token), resetTokenExpiry := Some(now + TokenLifetime))
                      else old(st.users[id])
    ensures sent ==> TokenValid(st.Snapshot(), token, now)
  {
    if !EmailTaken(st.Snapshot(), email) {
      return false;
    }
    var id :| id in st.users && st.users[id].email == email;
    IssueToken(st.Snapshot(), id, email, token, now + TokenLifetime);
    st.users := st.users[id := st.users[id].(resetToken := Some(token), resetTokenExpiry := Some(now + TokenLifetime))];
    sent := true;
  }

  /** A second `initiatePasswordReset` for the same email replaces the token: the first
      token no longer names any user, so it neither validates nor resets. */
  lemma SecondInitiateInvalidatesFirst(t: Tables, id: Id, token2: string, expiry: int)
    requires Inv(t) && id in t.users && t.users[id].resetToken.Some?
    requires t.users[id].resetToken != Some(token2)
    ensures !TokenKnown(t.(users := t.users[id := t.users[id].(resetToken := Some(token2), resetTokenExpiry := Some(expiry))]),
                        t.users[id].resetToken.value)
  {
    var old1 := t.users[id].resetToken;
    var t' := t.(users := t.users[id := t.users[id].(resetToken := Some(token2), resetTokenExpiry := Some(expiry))]);
    forall j | j in t'.users ensures t'.users[j].resetToken != old1 {
      if j != id {
        assert t.users[j].resetToken == t'.users[j].resetToken;
      }
    }
  }

  // ---------------------------------------------------------------------------
  // validateResetToken

  /** `validateResetToken`: `false` for a token nobody holds; for the holder's token,
      whether its expiry is after `now`. */
  method ValidateResetToken(st: Store, token: string, now: int) returns (ok: bool)
    requires st.Valid()
    ensures ok <==> TokenValid(st.Snapshot(), token, now)
  {
    if !TokenKnown(st.Snapshot(), token) {
      return false;
    }
    var id :| id in st.users && st.users[id].resetToken == Some(token);
    HolderDecidesValidity(st.Snapshot(), id, token, now);
    ok := st.users[id].resetTokenExpiry.value > now;
  }

  /** A token is valid for exactly the hour after it is issued. */
  lemma TokenValidForOneHour(t: Tables, id: Id, token: string, issued: int, now: int)
    requires Inv(t) && id in t.users
    requires t.users[id].resetToken == Some(token) && t.users[id].resetTokenExpiry == Some(issued + TokenLifetime)
    ensures TokenValid(t, token, now) <==> now < issued + TokenLifetime
  {
    HolderDecidesValidity(t, id, token, now);
  }

  // ---------------------------------------------------------------------------
  // resetPassword

  /** The holder of `token` gets the encoded password and loses the token: every other
      user is unchanged, the invariant still holds, and nobody holds the token any more. */
  lemma ConsumeToken(t: Tables, id: Id, token: string, encoded: string)
    requires Inv(t) && id in t.users && t.users[id].resetToken == Some(token)
    ensures var t' := t.(users := t.users[id := t.users[id].(password := encoded, resetToken := None, resetTokenExpiry := None)]);
      && Inv(t')
      && (forall j :: j in t.users ==>
            t'.users[j] == if t.users[j].resetToken == Some(token)
                           then t.users[j].(password := encoded, resetToken := None, resetTokenExpiry := None)
                           else t.users[j])
      && !TokenKnown(t', token)
  {
    var u' := t.users[id].(password := encoded, resetToken := None, resetTokenExpiry := None);
    PutUserKeepsInv(t, u');
    forall j | j in t.users && j != id ensures t.users[j].resetToken != Some(token) {
    }
  }

  /** `resetPassword`: succeeds exactly for a held, unexpired token; the holder's password
      becomes the encoded new password and the token and expiry are cleared. Every other
      case changes nothing. */
  method ResetPassword(st: Store, token: string, newPassword: string, encode: string -> string, now: int)
    returns (ok: bool)
    requires st.Valid()
    modifies st
    ensures st.Valid()
    ensures ok <==> TokenValid(old(st.Snapshot()), token, now)
    ensures !ok ==> st.Snapshot() == old(st.Snapshot())
    ensures st.Snapshot() == old(st.Snapshot()).(users := st.users) && st.users.Keys == old(st.users.Keys)
    ensures ok ==> forall id :: id in st.users ==>
      st.users[id] == if old(st.users[id].resetToken) == Some(token)
                      then old(st.users[id]).(password := encode(newPassword), resetToken := None, resetTokenExpiry := None)
                      else old(st.users[id])
    ensures ok ==> !TokenKnown(st.Snapshot(), token)
  {
    if !TokenKnown(st.Snapshot(), token) {
      return false;
    }
    var id :| id in st.users && st.users[id].resetToken == Some(token);
    var u := st.users[id];
    HolderDecidesValidity(st.Snapshot(), id, token, now);
    if !(u.resetTokenExpiry.value > now) {
      return false;
    }
    ConsumeToken(st.Snapshot(), id, token, encode(newPassword));
    st.users := st.users[id := u.(password := encode(newPassword), resetToken := None, resetTokenExpiry := None)];
    ok := true;
  }

  /** Once a reset has consumed a token, neither validating it nor resetting with it
      succeeds again, at any later time. */
  method ConsumedTokenIsDead(st: Store, token: string, first: string, second: string,
                             encode: string -> string, now: int, later: int)
    returns (reset1: bool, valid: bool, reset2: bool)
    requires st.Valid()
    modifies st
    ensures reset1 ==> !valid && !reset2
  {
    reset1 := ResetPassword(st, token, first, encode, now);
    valid := ValidateResetToken(st, token, later);
    reset2 := ResetPassword(st, token, second, encode, later);
  }
}
