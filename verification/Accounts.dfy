/** Accounts, tokens, sessions and sign-in links, and the service's transactions over them. */
module Accounts {
  import opened Wrappers

  /** Row ids are opaque numbers; a password stands for its hash. */
  type Id = nat
  type Password = nat

  datatype Status = Active | Suspended | Deleted
  datatype Purpose = PasswordReset | EmailVerification
  datatype Provider = Naver | Kakao | Google
  datatype AttemptPurpose = Login | LinkAccount | DeleteAccount

  datatype User = User(status: Status, password: Option<Password>, email: Option<string>, verifiedAt: Option<int>)
  datatype Token = Token(user: Id, purpose: Purpose, expiresAt: int, consumedAt: Option<int>)
  datatype Session = Session(user: Id, expiresAt: int, revokedAt: Option<int>)
  datatype Link = Link(user: Id, provider: Provider, subject: Id)
  datatype Attempt = Attempt(provider: Provider, purpose: AttemptPurpose, user: Option<Id>, expiresAt: int,
                             consumedAt: Option<int>)

  datatype Tables = Tables(
    users: map<Id, User>,
    tokens: map<Id, Token>,
    sessions: map<Id, Session>,
    links: map<Id, Link>,
    attempts: map<Id, Attempt>)

  datatype Error =
    | TokenInvalid | AccountUnavailable | NotLinked | LastSignInMethod | SessionInvalid | StateInvalid
    | IdentityLinked | ProviderLinked

  // ---- Reads ---------------------------------------------------------------------------------

  predicate IsActive(t: Tables, user: Id) {
    user in t.users && t.users[user].status == Active
  }

  predicate IsLive(token: Token, purpose: Purpose, user: Id) {
    token.user == user && token.purpose == purpose && token.consumedAt == None
  }

  /** Whom a session signs in at time `now`. */
  function Authenticated(t: Tables, session: Id, now: int): Option<Id> {
    if session !in t.sessions then None
    else
      var s := t.sessions[session];
      if s.revokedAt.Some? || s.expiresAt <= now || !IsActive(t, s.user) then None else Some(s.user)
  }

  function LinkOf(t: Tables, user: Id, provider: Provider): set<Id> {
    set l | l in t.links && t.links[l].user == user && t.links[l].provider == provider
  }

  function LinksOf(t: Tables, user: Id): set<Id> {
    set l | l in t.links && t.links[l].user == user
  }

  function LinksTo(t: Tables, provider: Provider, subject: Id): set<Id> {
    set l | l in t.links && t.links[l].provider == provider && t.links[l].subject == subject
  }

  // ---- The transactions ----------------------------------------------------------------------

  /** Marks every live token of the user and purpose as consumed. */
  function ConsumeAll(tokens: map<Id, Token>, user: Id, purpose: Purpose, now: int): map<Id, Token> {
    map k | k in tokens :: if IsLive(tokens[k], purpose, user) then tokens[k].(consumedAt := Some(now)) else tokens[k]
  }

  /** A new token replaces the live ones of its user and purpose. */
  function IssueToken(t: Tables, id: Id, user: Id, purpose: Purpose, expiresAt: int, now: int): Tables {
    t.(tokens := ConsumeAll(t.tokens, user, purpose, now)[id := Token(user, purpose, expiresAt, None)])
  }

  /** The guarded consumption, and with it every other live token of the same user and purpose. */
  function ConsumeToken(t: Tables, id: Id, purpose: Purpose, user: Id, now: int): Option<Tables> {
    if id !in t.tokens || t.tokens[id].consumedAt.Some? || t.tokens[id].expiresAt <= now then None
    else Some(t.(tokens := ConsumeAll(t.tokens[id := t.tokens[id].(consumedAt := Some(now))], user, purpose, now)))
  }

  function RevokeAll(sessions: map<Id, Session>, user: Id, now: int): map<Id, Session> {
    map k | k in sessions ::
      if sessions[k].user == user && sessions[k].revokedAt == None then sessions[k].(revokedAt := Some(now))
      else sessions[k]
  }

  /** The reset transaction: the token is consumed, the password replaced, and every session revoked. */
  function ResetPassword(t: Tables, token: Id, user: Id, password: Password, now: int): Option<Tables> {
    var consumed := ConsumeToken(t, token, PasswordReset, user, now);
    if consumed == None || user !in t.users then None
    else Some(consumed.value.(users := t.users[user := t.users[user].(password := Some(password))],
                              sessions := RevokeAll(t.sessions, user, now)))
  }

  function VerifyEmail(t: Tables, token: Id, user: Id, now: int): Option<Tables> {
    var consumed := ConsumeToken(t, token, EmailVerification, user, now);
    if consumed == None || user !in t.users then None
    else Some(consumed.value.(users := t.users[user := t.users[user].(verifiedAt := Some(now))]))
  }

  function ClaimAttempt(t: Tables, attempt: Id, now: int): Option<Tables> {
    if attempt !in t.attempts || t.attempts[attempt].consumedAt.Some? || t.attempts[attempt].expiresAt <= now then None
    else Some(t.(attempts := t.attempts[attempt := t.attempts[attempt].(consumedAt := Some(now))]))
  }

  /** The two uniqueness rules of the link table. */
  predicate LinkFits(t: Tables, link: Link) {
    LinkOf(t, link.user, link.provider) == {} && LinksTo(t, link.provider, link.subject) == {}
  }

  function RotateSession(t: Tables, session: Id, next: Id, expiresAt: int, now: int): Option<Tables> {
    if session !in t.sessions then None
    else Some(t.(sessions := t.sessions[session := t.sessions[session].(revokedAt := Some(now))]
                                        [next := Session(t.sessions[session].user, expiresAt, None)]))
  }

  /** Deleting an account removes its tokens, attempts, links and sessions, and what identifies its user. */
  function Anonymize(t: Tables, user: Id): Tables
    requires user in t.users
  {
    Tables(t.users[user := User(Deleted, None, None, None)],
           map k | k in t.tokens && t.tokens[k].user != user :: t.tokens[k],
           map k | k in t.sessions && t.sessions[k].user != user :: t.sessions[k],
           map k | k in t.links && t.links[k].user != user :: t.links[k],
           map k | k in t.attempts && t.attempts[k].user != Some(user) :: t.attempts[k])
  }

  /** No row but the emptied user row is the user's. */
  ghost predicate Forgotten(t: Tables, user: Id) {
    && user in t.users && t.users[user] == User(Deleted, None, None, None)
    && (forall k :: k in t.tokens ==> t.tokens[k].user != user)
    && (forall k :: k in t.sessions ==> t.sessions[k].user != user)
    && (forall k :: k in t.links ==> t.links[k].user != user)
    && (forall k :: k in t.attempts ==> t.attempts[k].user != Some(user))
  }

  /** The rows of every other user are as before. */
  ghost predicate SameOthers(t: Tables, t': Tables, user: Id) {
    && t'.users.Keys == t.users.Keys && (forall u :: u in t.users && u != user ==> t'.users[u] == t.users[u])
    && (forall k :: k in t.tokens && t.tokens[k].user != user ==> k in t'.tokens && t'.tokens[k] == t.tokens[k])
    && (forall k :: k in t.sessions && t.sessions[k].user != user ==>
          k in t'.sessions && t'.sessions[k] == t.sessions[k])
    && (forall k :: k in t.links && t.links[k].user != user ==> k in t'.links && t'.links[k] == t.links[k])
    && (forall k :: k in t.attempts && t.attempts[k].user != Some(user) ==>
          k in t'.attempts && t'.attempts[k] == t.attempts[k])
  }

  /** Exactly the unconsumed tokens of the user and purpose have become consumed. */
  ghost predicate Consumed(tokens: map<Id, Token>, after: map<Id, Token>, user: Id, purpose: Purpose, now: int) {
    && after.Keys == tokens.Keys
    && forall k :: k in tokens ==>
         after[k] == if tokens[k].user == user && tokens[k].purpose == purpose && tokens[k].consumedAt == None
                     then tokens[k].(consumedAt := Some(now)) else tokens[k]
  }

  /** Exactly the sessions of the user that were not revoked have become revoked. */
  ghost predicate Revoked(sessions: map<Id, Session>, after: map<Id, Session>, user: Id, now: int) {
    && after.Keys == sessions.Keys
    && forall k :: k in sessions ==>
         after[k] == if sessions[k].user == user && sessions[k].revokedAt == None
                     then sessions[k].(revokedAt := Some(now)) else sessions[k]
  }

  // ---- Whole requests ------------------------------------------------------------------------

  /** The service when no other request comes between a request's reads and its transaction. */
  class AuthService {
    var users: map<Id, User>
    var tokens: map<Id, Token>
    var sessions: map<Id, Session>
    var links: map<Id, Link>
    var attempts: map<Id, Attempt>

    ghost function Value(): Tables
      reads this
    {
      Tables(users, tokens, sessions, links, attempts)
    }

    constructor ()
      ensures Value() == Tables(map[], map[], map[], map[], map[])
    {
      users, tokens, sessions, links, attempts := map[], map[], map[], map[], map[];
    }

    /** A session signs in exactly when it is stored, not revoked and not over, and its user's account is active. */
    method Authenticate(session: Id, now: int) returns (r: Result<Id, Error>)
      ensures r == if session in sessions && sessions[session].revokedAt == None && now < sessions[session].expiresAt
                      && sessions[session].user in users && users[sessions[session].user].status == Active
                   then Ok(sessions[session].user) else Err(SessionInvalid)
      ensures r == match Authenticated(Value(), session, now)
                   case None => Err(SessionInvalid)
                   case Some(user) => Ok(user)
    {
      if session !in sessions || sessions[session].revokedAt.Some? || sessions[session].expiresAt <= now {
        return Err(SessionInvalid);
      }
      var user := sessions[session].user;
      if user !in users || users[user].status != Active {
        return Err(SessionInvalid);
      }
      return Ok(user);
    }

    /** A refresh swaps one session for another of the same user. */
    method Refresh(session: Id, next: Id, expiresAt: int, now: int) returns (r: Result<Id, Error>)
      requires next !in sessions
      modifies this`sessions
      ensures r == match Authenticated(old(Value()), session, now)
                   case None => Err(SessionInvalid)
                   case Some(user) => Ok(user)
      ensures r == if session in old(sessions) && old(sessions)[session].revokedAt == None
                      && now < old(sessions)[session].expiresAt && old(sessions)[session].user in users
                      && users[old(sessions)[session].user].status == Active
                   then Ok(old(sessions)[session].user) else Err(SessionInvalid)
      ensures sessions == if r.Err? then old(sessions)
                          else old(sessions)[session := old(sessions)[session].(revokedAt := Some(now))]
                                            [next := Session(r.value, expiresAt, None)]
      ensures Some(Value()) == if r.Ok? then RotateSession(old(Value()), session, next, expiresAt, now)
              else Some(old(Value()))
      ensures r.Ok? && now < expiresAt ==>
                Authenticated(Value(), next, now) == Some(r.value) && Authenticated(Value(), session, now) == None
    {
      r := Authenticate(session, now);
      if r.Ok? {
        sessions := sessions[session := sessions[session].(revokedAt := Some(now))];
        sessions := sessions[next := Session(r.value, expiresAt, None)];
      }
    }

    /** Asking for a reset leaves at most the new token live, and tells the caller nothing. */
    method RequestPasswordReset(user: Option<Id>, token: Id, expiresAt: int, now: int)
      requires token !in tokens
      modifies this`tokens
      ensures if user.Some? && user.value in users && users[user.value].status == Active
                 && users[user.value].password.Some?
              then && tokens.Keys == old(tokens).Keys + {token}
                   && tokens[token] == Token(user.value, PasswordReset, expiresAt, None)
                   && forall k :: k in old(tokens) ==>
                        var t := old(tokens)[k];
                        tokens[k] == if t.user == user.value && t.purpose == PasswordReset && t.consumedAt == None
                                     then t.(consumedAt := Some(now)) else t
              else tokens == old(tokens)
      ensures Value() == if user.Some? && IsActive(old(Value()), user.value) && users[user.value].password.Some?
                         then IssueToken(old(Value()), token, user.value, PasswordReset, expiresAt, now)
                         else old(Value())
      ensures Value() != old(Value()) ==>
                forall k :: k in tokens && k != token ==>
                  tokens[k].user != user.value || tokens[k].purpose != PasswordReset || tokens[k].consumedAt.Some?
    {
      if user.Some? && user.value in users && users[user.value].status == Active && users[user.value].password.Some? {
        tokens := ConsumeAll(tokens, user.value, PasswordReset, now);
        tokens := tokens[token := Token(user.value, PasswordReset, expiresAt, None)];
      }
    }

    /** A usable token resets the password of its user once, and signs every session of the user out. */
    method ConfirmPasswordReset(token: Id, password: Password, now: int) returns (r: Option<Error>)
      modifies this`users, this`tokens, this`sessions
      ensures r == if token in old(tokens) && old(tokens)[token].purpose == PasswordReset
                      && old(tokens)[token].consumedAt == None && now < old(tokens)[token].expiresAt
                      && old(tokens)[token].user in old(users)
                      && old(users)[old(tokens)[token].user].status == Active
                      && old(users)[old(tokens)[token].user].password.Some?
                   then None else Some(TokenInvalid)
      ensures r.Some? ==> Value() == old(Value())
      ensures r == None ==>
                var user := old(tokens)[token].user;
                && Some(Value()) == ResetPassword(old(Value()), token, user, password, now)
                && users == old(users)[user := old(users)[user].(password := Some(password))]
                && Consumed(old(tokens), tokens, user, PasswordReset, now)
                && tokens[token].consumedAt == Some(now)
                && Revoked(old(sessions), sessions, user, now)
                && (forall k :: k in tokens && tokens[k].user == user && tokens[k].purpose == PasswordReset ==>
                      tokens[k].consumedAt.Some?)
                && forall s :: s in sessions && sessions[s].user == user ==> Authenticated(Value(), s, now) == None
    {
      if token !in tokens || tokens[token].purpose != PasswordReset || tokens[token].consumedAt.Some?
         || tokens[token].expiresAt <= now {
        return Some(TokenInvalid);
      }
      var user := tokens[token].user;
      if user !in users || users[user].status != Active || users[user].password == None {
        return Some(TokenInvalid);
      }
      tokens := ConsumeAll(tokens[token := tokens[token].(consumedAt := Some(now))], user, PasswordReset, now);
      users := users[user := users[user].(password := Some(password))];
      sessions := RevokeAll(sessions, user, now);
      return None;
    }

    method ConfirmEmailVerification(token: Id, now: int) returns (r: Option<Error>)
      modifies this`users, this`tokens
      ensures r == if token in old(tokens) && old(tokens)[token].purpose == EmailVerification
                      && old(tokens)[token].consumedAt == None && now < old(tokens)[token].expiresAt
                      && old(tokens)[token].user in old(users)
                      && old(users)[old(tokens)[token].user].status == Active
                   then None else Some(TokenInvalid)
      ensures r.Some? ==> Value() == old(Value())
      ensures r == None ==>
                var user := old(tokens)[token].user;
                && Some(Value()) == VerifyEmail(old(Value()), token, user, now)
                && users == old(users)[user := old(users)[user].(verifiedAt := Some(now))]
                && Consumed(old(tokens), tokens, user, EmailVerification, now)
                && tokens[token].consumedAt == Some(now)
                && forall k :: k in tokens && tokens[k].user == user && tokens[k].purpose == EmailVerification ==>
                     tokens[k].consumedAt.Some?
    {
      if token !in tokens || tokens[token].purpose != EmailVerification || tokens[token].consumedAt.Some?
         || tokens[token].expiresAt <= now {
        return Some(TokenInvalid);
      }
      var user := tokens[token].user;
      if user !in users || users[user].status != Active {
        return Some(TokenInvalid);
      }
      tokens := ConsumeAll(tokens[token := tokens[token].(consumedAt := Some(now))], user, EmailVerification, now);
      users := users[user := users[user].(verifiedAt := Some(now))];
      return None;
    }

    /** Unlinking is refused for the last way to sign in. */
    method UnlinkOAuthAccount(user: Id, provider: Provider) returns (r: Option<Error>)
      modifies this`links
      ensures r == if user !in users || users[user].status != Active then Some(AccountUnavailable)
                   else if forall l :: l in old(links) && old(links)[l].user == user ==>
                             old(links)[l].provider != provider
                   then Some(NotLinked)
                   else if users[user].password == None && |set l | l in old(links) && old(links)[l].user == user| == 1
                   then Some(LastSignInMethod)
                   else None
      ensures r.Some? ==> Value() == old(Value())
      ensures r == None ==> exists l :: l in old(links) && old(links)[l].user == user
                              && old(links)[l].provider == provider && links == old(links) - {l}
    {
      if user !in users || users[user].status != Active {
        return Some(AccountUnavailable);
      }
      var t := Tables(users, tokens, sessions, links, attempts);
      var linked := LinkOf(t, user, provider);
      assert forall l :: l in links && links[l].user == user && links[l].provider == provider ==> l in linked;
      if linked == {} {
        return Some(NotLinked);
      }
      assert linked <= LinksOf(t, user) == set l | l in links && links[l].user == user;
      if users[user].password == None && |LinksOf(t, user)| <= 1 {
        return Some(LastSignInMethod);
      }
      var l :| l in linked;
      links := links - {l};
      return None;
    }

    /** Linking keeps each identity on one account and each provider once per account. */
    method LinkOAuthIdentity(user: Id, provider: Provider, subject: Id, id: Id) returns (r: Option<Error>)
      requires id !in links
      modifies this`links
      ensures r == if user !in users || users[user].status != Active then Some(AccountUnavailable)
                   else if exists l :: l in old(links) && old(links)[l] == Link(user, provider, subject) then None
                   else if exists l :: l in old(links) && old(links)[l].provider == provider
                                    && old(links)[l].subject == subject
                   then Some(IdentityLinked)
                   else if exists l :: l in old(links) && old(links)[l].user == user
                                    && old(links)[l].provider == provider
                   then Some(ProviderLinked)
                   else None
      ensures links == if r == None && Link(user, provider, subject) !in old(links).Values
                       then old(links)[id := Link(user, provider, subject)] else old(links)
      ensures links == if r == None && LinkFits(old(Value()), Link(user, provider, subject))
                       then old(links)[id := Link(user, provider, subject)] else old(links)
    {
      if user !in users || users[user].status != Active {
        return Some(AccountUnavailable);
      }
      var t := Tables(users, tokens, sessions, links, attempts);
      var taken := LinksTo(t, provider, subject);
      assert forall l :: l in links && links[l].provider == provider && links[l].subject == subject ==> l in taken;
      if taken != {} {
        if l :| l in taken && links[l].user == user {
          assert links[l] == Link(user, provider, subject);
          return None;
        }
        return Some(IdentityLinked);
      }
      var linked := LinkOf(t, user, provider);
      assert forall l :: l in links && links[l].user == user && links[l].provider == provider ==> l in linked;
      if linked != {} {
        return Some(ProviderLinked);
      }
      links := links[id := Link(user, provider, subject)];
      return None;
    }

    /** The first step of completing an OAuth sign-in: the attempt is claimed once, whatever follows. */
    method ClaimOAuthAttempt(attempt: Id, provider: Provider, now: int) returns (r: Option<Error>)
      modifies this`attempts
      ensures r == if attempt in old(attempts) && old(attempts)[attempt].provider == provider
                      && old(attempts)[attempt].consumedAt == None && now < old(attempts)[attempt].expiresAt
                   then None else Some(StateInvalid)
      ensures attempts == if r.Some? then old(attempts)
                          else old(attempts)[attempt := old(attempts)[attempt].(consumedAt := Some(now))]
      ensures if r == None then Some(Value()) == ClaimAttempt(old(Value()), attempt, now) else Value() == old(Value())
      ensures r == None ==> ClaimAttempt(Value(), attempt, now) == None
    {
      if attempt !in attempts || attempts[attempt].provider != provider || attempts[attempt].consumedAt.Some?
         || attempts[attempt].expiresAt <= now {
        return Some(StateInvalid);
      }
      attempts := attempts[attempt := attempts[attempt].(consumedAt := Some(now))];
      return None;
    }

    /** Nothing that signs the user in or identifies it is left, and no other user's rows change. */
    method AnonymizeAccount(user: Id) returns (r: Option<Error>)
      modifies this
      ensures r == if user in old(users) && old(users)[user].status == Active then None else Some(AccountUnavailable)
      ensures if r == None then Value() == Anonymize(old(Value()), user) else Value() == old(Value())
      ensures r == None ==> Forgotten(Value(), user) && SameOthers(old(Value()), Value(), user)
    {
      if user !in users || users[user].status != Active {
        return Some(AccountUnavailable);
      }
      var t := Anonymize(Tables(users, tokens, sessions, links, attempts), user);
      users, tokens, sessions, links, attempts := t.users, t.tokens, t.sessions, t.links, t.attempts;
      return None;
    }
  }
}
