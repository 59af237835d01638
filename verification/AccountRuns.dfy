/** Every interleaving of account requests: each commits its transaction with reads made at any earlier time. */
module AccountRuns {
  import opened Wrappers
  import opened Accounts

  /** The tables, the kind every token ever issued had, the row ids ever used, and the tokens and attempts that were
      used, in order. */
  datatype System = System(
    tables: Tables,
    issued: map<Id, (Id, Purpose)>,
    usedSessions: set<Id>,
    usedAttempts: set<Id>,
    confirmed: seq<Id>,
    claimed: seq<Id>)

  const START: System := System(Tables(map[], map[], map[], map[], map[]), map[], {}, {}, [], [])

  /** The transactions that requests commit. A request's own checks were made on an earlier state and are not repeated;
      ids are fresh. */
  datatype Step =
    | SignUp(user: Id, password: Password, email: Option<string>, session: Id, token: Id, expiresAt: int, now: int)
    | OAuthSignUp(user: Id, email: Option<string>, verifiedAt: Option<int>, link: Id, provider: Provider, subject: Id)
    | LogIn(user: Id, session: Id, expiresAt: int)
    | Refresh(session: Id, next: Id, expiresAt: int, now: int)
    | LogOut(session: Id, now: int)
    | Request(user: Id, purpose: Purpose, token: Id, expiresAt: int, now: int)
    | ConfirmReset(token: Id, password: Password, now: int)
    | ConfirmVerification(token: Id, now: int)
    | StartOAuth(attempt: Id, provider: Provider, attemptPurpose: AttemptPurpose, actor: Option<Id>, expiresAt: int)
    | Claim(attempt: Id, now: int)
    | Connect(link: Id, user: Id, provider: Provider, subject: Id)
    | Unlink(link: Id)
    | Delete(user: Id)
    | SetStatus(user: Id, status: Status)

  /** A transaction commits, or fails and changes nothing. */
  function Result(s: System, t: Option<Tables>): System {
    if t == None then s else s.(tables := t.value)
  }

  ghost predicate Next(s: System, step: Step, s': System) {
    var t := s.tables;
    match step
    case SignUp(user, password, email, session, token, expiresAt, now) =>
      && user !in t.users && session !in s.usedSessions && token !in s.issued
      && s' == s.(issued := s.issued[token := (user, EmailVerification)], usedSessions := s.usedSessions + {session},
                  tables := t.(users := t.users[user := User(Active, Some(password), email, None)],
                               sessions := t.sessions[session := Session(user, expiresAt, None)],
                               tokens := t.tokens[token := Token(user, EmailVerification, expiresAt, None)]))
    case OAuthSignUp(user, email, verifiedAt, link, provider, subject) =>
      && user !in t.users && link !in t.links
      && s' == if !LinkFits(t, Link(user, provider, subject)) then s
               else s.(tables := t.(users := t.users[user := User(Active, None, email, verifiedAt)],
                                    links := t.links[link := Link(user, provider, subject)]))
    case LogIn(user, session, expiresAt) =>
      && user in t.users && session !in s.usedSessions
      && s' == s.(usedSessions := s.usedSessions + {session},
                  tables := t.(sessions := t.sessions[session := Session(user, expiresAt, None)]))
    case Refresh(session, next, expiresAt, now) =>
      && next !in s.usedSessions
      && s' == Result(s, RotateSession(t, session, next, expiresAt, now)).(usedSessions := s.usedSessions + {next})
    case LogOut(session, now) =>
      s' == if session !in t.sessions then s
            else s.(tables := t.(sessions := t.sessions[session := t.sessions[session].(revokedAt := Some(now))]))
    case Request(user, purpose, token, expiresAt, now) =>
      && user in t.users && token !in s.issued
      && s' == s.(issued := s.issued[token := (user, purpose)],
                  tables := IssueToken(t, token, user, purpose, expiresAt, now))
    case ConfirmReset(token, password, now) =>
      && token in s.issued && s.issued[token].1 == PasswordReset
      && (var r := ResetPassword(t, token, s.issued[token].0, password, now);
          s' == Result(s, r).(confirmed := if r == None then s.confirmed else s.confirmed + [token]))
    case ConfirmVerification(token, now) =>
      && token in s.issued && s.issued[token].1 == EmailVerification
      && (var r := VerifyEmail(t, token, s.issued[token].0, now);
          s' == Result(s, r).(confirmed := if r == None then s.confirmed else s.confirmed + [token]))
    case StartOAuth(attempt, provider, purpose, actor, expiresAt) =>
      && attempt !in s.usedAttempts
      && s' == s.(usedAttempts := s.usedAttempts + {attempt},
                  tables := t.(attempts := t.attempts[attempt := Attempt(provider, purpose, actor, expiresAt, None)]))
    case Claim(attempt, now) =>
      var r := ClaimAttempt(t, attempt, now);
      s' == Result(s, r).(claimed := if r == None then s.claimed else s.claimed + [attempt])
    case Connect(link, user, provider, subject) =>
      && user in t.users && link !in t.links
      && s' == if LinkFits(t, Link(user, provider, subject))
               then s.(tables := t.(links := t.links[link := Link(user, provider, subject)])) else s
    case Unlink(link) => s' == s.(tables := t.(links := t.links - {link}))
    case Delete(user) => user in t.users && s' == s.(tables := Anonymize(t, user))
    case SetStatus(user, status) =>
      && user in t.users && t.users[user].status != Deleted && status != Deleted
      && s' == s.(tables := t.(users := t.users[user := t.users[user].(status := status)]))
  }

  ghost predicate IsRun(states: seq<System>, steps: seq<Step>) {
    && |states| == |steps| + 1 && states[0] == START
    && forall i :: 0 <= i < |steps| ==> Next(states[i], steps[i], states[i + 1])
  }

  // ---- What each transaction writes ----------------------------------------------------------

  /** The account has no link of this provider, and nobody has this identity. */
  ghost predicate IsNewIdentity(t: Tables, link: Link) {
    forall k :: k in t.links && t.links[k].provider == link.provider ==>
      t.links[k].user != link.user && t.links[k].subject != link.subject
  }

  lemma FitsExactlyNew(t: Tables, link: Link)
    ensures LinkFits(t, link) <==> IsNewIdentity(t, link)
  {
    if LinkFits(t, link) {
      forall k | k in t.links && t.links[k].provider == link.provider
        ensures t.links[k].user != link.user && t.links[k].subject != link.subject
      {
        assert k !in LinkOf(t, link.user, link.provider) && k !in LinksTo(t, link.provider, link.subject);
      }
    }
  }

  /** A new account is active; one made with an identity has it as its only link, if the identity is new. */
  lemma SignUpsAreExact(s: System, step: Step, s': System)
    requires Next(s, step, s')
    ensures step.SignUp? ==>
              var token := Token(step.user, EmailVerification, step.expiresAt, None);
              s'.tables == Tables(s.tables.users[step.user := User(Active, Some(step.password), step.email, None)],
                                  s.tables.tokens[step.token := token],
                                  s.tables.sessions[step.session := Session(step.user, step.expiresAt, None)],
                                  s.tables.links, s.tables.attempts)
    ensures step.OAuthSignUp? ==>
              var link := Link(step.user, step.provider, step.subject);
              s'.tables == if !IsNewIdentity(s.tables, link) then s.tables
                           else Tables(s.tables.users[step.user := User(Active, None, step.email, step.verifiedAt)],
                                       s.tables.tokens, s.tables.sessions, s.tables.links[step.link := link],
                                       s.tables.attempts)
  {
    if step.OAuthSignUp? {
      FitsExactlyNew(s.tables, Link(step.user, step.provider, step.subject));
    }
  }

  /** Signing in stores a session until its end, and signing out revokes it; no other session changes. */
  lemma SessionsAreExact(s: System, step: Step, s': System)
    requires Next(s, step, s')
    ensures step.LogIn? ==>
              s'.tables == s.tables.(sessions := s.tables.sessions[
                                       step.session := Session(step.user, step.expiresAt, None)])
    ensures step.LogOut? && step.session !in s.tables.sessions ==> s' == s
    ensures step.LogOut? && step.session in s.tables.sessions ==>
              var was := s.tables.sessions[step.session];
              s'.tables == s.tables.(sessions := s.tables.sessions[
                                       step.session := Session(was.user, was.expiresAt, Some(step.now))])
    ensures step.Refresh? && step.session !in s.tables.sessions ==> s'.tables == s.tables
    ensures step.Refresh? && step.session in s.tables.sessions ==>
              var was := s.tables.sessions[step.session];
              s'.tables == s.tables.(sessions := s.tables.sessions[
                                       step.session := Session(was.user, was.expiresAt, Some(step.now))][
                                       step.next := Session(was.user, step.expiresAt, None)])
  {
  }

  /** A request stores a live token and consumes the account's others of its purpose; starting and ending a link,
      starting an attempt and a new status write their own row only, and a deleted account keeps no row. */
  lemma RowsAreExact(s: System, step: Step, s': System)
    requires Next(s, step, s')
    ensures step.Request? ==>
              && s'.tables == s.tables.(tokens := s'.tables.tokens)
              && s'.tables.tokens.Keys == s.tables.tokens.Keys + {step.token}
              && s'.tables.tokens[step.token] == Token(step.user, step.purpose, step.expiresAt, None)
              && forall k :: k in s.tables.tokens && k != step.token ==>
                   var was := s.tables.tokens[k];
                   s'.tables.tokens[k] ==
                   if was.user == step.user && was.purpose == step.purpose && was.consumedAt == None
                   then Token(was.user, was.purpose, was.expiresAt, Some(step.now)) else was
    ensures step.Connect? ==>
              var link := Link(step.user, step.provider, step.subject);
              s'.tables == if IsNewIdentity(s.tables, link)
                           then s.tables.(links := s.tables.links[step.link := link]) else s.tables
    ensures step.Unlink? ==> s'.tables == s.tables.(links := s.tables.links - {step.link})
    ensures step.StartOAuth? ==>
              s'.tables == s.tables.(attempts := s.tables.attempts[
                                       step.attempt := Attempt(step.provider, step.attemptPurpose, step.actor,
                                                               step.expiresAt, None)])
    ensures step.SetStatus? ==>
              var was := s.tables.users[step.user];
              && was.status != Deleted && step.status != Deleted
              && s'.tables == s.tables.(users := s.tables.users[
                                          step.user := User(step.status, was.password, was.email, was.verifiedAt)])
    ensures step.Delete? ==> Forgotten(s'.tables, step.user) && SameOthers(s.tables, s'.tables, step.user)
  {
    if step.Connect? {
      FitsExactlyNew(s.tables, Link(step.user, step.provider, step.subject));
    }
  }

  // ---- Tokens --------------------------------------------------------------------------------

  type Issued = map<Id, (Id, Purpose)>

  ghost predicate IsLiveToken(tokens: map<Id, Token>, k: Id) {
    k in tokens && tokens[k].consumedAt == None
  }

  /** At most one live token per user and purpose; every stored token is as it was issued. */
  ghost predicate TokensInv(tokens: map<Id, Token>, issued: Issued) {
    && (forall k :: k in tokens ==> k in issued && issued[k] == (tokens[k].user, tokens[k].purpose))
    && (forall j, k :: IsLiveToken(tokens, j) && IsLiveToken(tokens, k) && issued[j] == issued[k] ==> j == k)
  }

  lemma IssueKeepsTokens(t: Tables, issued: Issued, id: Id, user: Id, purpose: Purpose, expiresAt: int, now: int)
    requires TokensInv(t.tokens, issued) && id !in issued
    ensures TokensInv(IssueToken(t, id, user, purpose, expiresAt, now).tokens, issued[id := (user, purpose)])
  {
    var after := IssueToken(t, id, user, purpose, expiresAt, now).tokens;
    forall k | IsLiveToken(after, k) && k != id
      ensures IsLiveToken(t.tokens, k) && issued[k] != (user, purpose)
    {
    }
  }

  lemma ConsumeKeepsTokens(t: Tables, issued: Issued, id: Id, purpose: Purpose, user: Id, now: int)
    requires TokensInv(t.tokens, issued) && ConsumeToken(t, id, purpose, user, now).Some?
    ensures TokensInv(ConsumeToken(t, id, purpose, user, now).value.tokens, issued)
  {
    var after := ConsumeToken(t, id, purpose, user, now).value.tokens;
    forall k | IsLiveToken(after, k)
      ensures IsLiveToken(t.tokens, k)
    {
    }
  }

  /** Every token was issued to a user that is still on record. */
  ghost predicate KnownUsers(s: System) {
    forall k :: k in s.issued ==> s.issued[k].0 in s.tables.users
  }

  lemma StepKeepsUsers(s: System, step: Step, s': System)
    requires KnownUsers(s) && Next(s, step, s')
    ensures KnownUsers(s')
    ensures forall u :: u in s.tables.users ==> u in s'.tables.users
  {
  }

  lemma StepKeepsTokens(s: System, step: Step, s': System)
    requires KnownUsers(s) && TokensInv(s.tables.tokens, s.issued) && Next(s, step, s')
    ensures TokensInv(s'.tables.tokens, s'.issued)
  {
    if step.Request? {
      IssueKeepsTokens(s.tables, s.issued, step.token, step.user, step.purpose, step.expiresAt, step.now);
    } else if step.ConfirmReset? && s'.confirmed != s.confirmed {
      ConsumeKeepsTokens(s.tables, s.issued, step.token, PasswordReset, s.issued[step.token].0, step.now);
    } else if step.ConfirmVerification? && s'.confirmed != s.confirmed {
      ConsumeKeepsTokens(s.tables, s.issued, step.token, EmailVerification, s.issued[step.token].0, step.now);
    } else if step.SignUp? {
      SignUpKeepsTokens(s, step, s');
    }
  }

  /** A token of a user that did not exist is the only one of that user. */
  lemma SignUpKeepsTokens(s: System, step: Step, s': System)
    requires KnownUsers(s) && TokensInv(s.tables.tokens, s.issued) && Next(s, step, s') && step.SignUp?
    ensures TokensInv(s'.tables.tokens, s'.issued)
  {
  }

  /** Used tokens were issued, are consumed or gone, and were used once. */
  ghost predicate ConfirmedInv(s: System) {
    && (forall i :: 0 <= i < |s.confirmed| ==>
          s.confirmed[i] in s.issued
            && (s.confirmed[i] in s.tables.tokens ==> s.tables.tokens[s.confirmed[i]].consumedAt.Some?))
    && (forall i, j :: 0 <= i < j < |s.confirmed| ==> s.confirmed[i] != s.confirmed[j])
  }

  lemma StepKeepsConfirmed(s: System, step: Step, s': System)
    requires ConfirmedInv(s) && Next(s, step, s')
    ensures ConfirmedInv(s')
  {
  }

  /** In every run: each token is used at most once, and a user has at most one live token of each purpose. */
  lemma {:induction false} TokensAreUsedOnce(states: seq<System>, steps: seq<Step>, i: nat)
    requires IsRun(states, steps) && i < |states|
    ensures KnownUsers(states[i]) && TokensInv(states[i].tables.tokens, states[i].issued) && ConfirmedInv(states[i])
  {
    if i > 0 {
      TokensAreUsedOnce(states, steps, i - 1);
      StepKeepsUsers(states[i - 1], steps[i - 1], states[i]);
      StepKeepsTokens(states[i - 1], steps[i - 1], states[i]);
      StepKeepsConfirmed(states[i - 1], steps[i - 1], states[i]);
    }
  }

  /** In every run a token is used exactly when it is stored as issued, unconsumed and not over, for a user on record;
      a reset then sets the password, a confirmation the time. */
  lemma UsedExactlyWhenLive(states: seq<System>, steps: seq<Step>, i: nat)
    requires IsRun(states, steps) && i < |steps| && (steps[i].ConfirmReset? || steps[i].ConfirmVerification?)
    ensures var s, s', step := states[i], states[i + 1], steps[i];
            var tokens, users := s.tables.tokens, s.tables.users;
            if step.token in tokens && tokens[step.token].consumedAt == None && step.now < tokens[step.token].expiresAt
               && tokens[step.token].user in users
            then
              var user := tokens[step.token].user;
              && s'.confirmed == s.confirmed + [step.token]
              && tokens[step.token].purpose == (if step.ConfirmReset? then PasswordReset else EmailVerification)
              && s'.tables.users == users[user :=
                   if step.ConfirmReset? then users[user].(password := Some(step.password))
                   else users[user].(verifiedAt := Some(step.now))]
            else s' == s
  {
    TokensAreUsedOnce(states, steps, i);
  }

  // ---- OAuth attempts ------------------------------------------------------------------------

  /** Claimed attempts are consumed or gone, and were claimed once. */
  ghost predicate ClaimedInv(s: System) {
    && (forall i :: 0 <= i < |s.claimed| ==>
          && s.claimed[i] in s.usedAttempts
          && (s.claimed[i] in s.tables.attempts ==> s.tables.attempts[s.claimed[i]].consumedAt.Some?))
    && (forall i, j :: 0 <= i < j < |s.claimed| ==> s.claimed[i] != s.claimed[j])
    && (forall a :: a in s.tables.attempts ==> a in s.usedAttempts)
  }

  lemma StepKeepsClaimed(s: System, step: Step, s': System)
    requires ClaimedInv(s) && Next(s, step, s')
    ensures ClaimedInv(s')
  {
  }

  /** In every run each OAuth attempt is claimed at most once. */
  lemma {:induction false} AttemptsAreClaimedOnce(states: seq<System>, steps: seq<Step>, i: nat)
    requires IsRun(states, steps) && i < |states|
    ensures ClaimedInv(states[i])
  {
    if i > 0 {
      AttemptsAreClaimedOnce(states, steps, i - 1);
      StepKeepsClaimed(states[i - 1], steps[i - 1], states[i]);
    }
  }

  /** In every run an attempt is claimed exactly when it is stored, unclaimed and not over. */
  lemma ClaimedExactlyWhenLive(states: seq<System>, steps: seq<Step>, i: nat)
    requires IsRun(states, steps) && i < |steps| && steps[i].Claim?
    ensures var s, s', step := states[i], states[i + 1], steps[i];
            if step.attempt in s.tables.attempts && s.tables.attempts[step.attempt].consumedAt == None
               && step.now < s.tables.attempts[step.attempt].expiresAt
            then && s'.claimed == s.claimed + [step.attempt]
                 && step.attempt in s'.tables.attempts
                 && s'.tables.attempts[step.attempt].consumedAt == Some(step.now)
            else s' == s
  {
    assert Next(states[i], steps[i], states[i + 1]);
  }

  // ---- Links ---------------------------------------------------------------------------------

  /** No identity is linked twice, and no account has two links to one provider. */
  ghost predicate LinksInv(links: map<Id, Link>) {
    forall j, k :: j in links && k in links && j != k && links[j].provider == links[k].provider ==>
      links[j].user != links[k].user && links[j].subject != links[k].subject
  }

  lemma NewLinkFits(t: Tables, id: Id, link: Link)
    requires LinksInv(t.links) && LinkFits(t, link)
    ensures LinksInv(t.links[id := link])
  {
    forall k | k in t.links && t.links[k].provider == link.provider
      ensures t.links[k].user != link.user && t.links[k].subject != link.subject
    {
      assert k !in LinkOf(t, link.user, link.provider) && k !in LinksTo(t, link.provider, link.subject);
    }
  }

  lemma StepKeepsLinks(s: System, step: Step, s': System)
    requires LinksInv(s.tables.links) && Next(s, step, s')
    ensures LinksInv(s'.tables.links)
  {
    if step.OAuthSignUp? && s' != s {
      NewLinkFits(s.tables, step.link, Link(step.user, step.provider, step.subject));
    } else if step.Connect? && s' != s {
      NewLinkFits(s.tables, step.link, Link(step.user, step.provider, step.subject));
    }
  }

  /** In every run each identity stays on one account and each account has at most one link to a provider. */
  lemma {:induction false} LinksStayUnique(states: seq<System>, steps: seq<Step>, i: nat)
    requires IsRun(states, steps) && i < |states|
    ensures LinksInv(states[i].tables.links)
  {
    if i > 0 {
      LinksStayUnique(states, steps, i - 1);
      StepKeepsLinks(states[i - 1], steps[i - 1], states[i]);
    }
  }

  // ---- Sessions ------------------------------------------------------------------------------

  /** A session that no longer signs anyone in: revoked or removed, and its id is spent. */
  ghost predicate IsOver(s: System, session: Id) {
    session in s.usedSessions && (session in s.tables.sessions ==> s.tables.sessions[session].revokedAt.Some?)
  }

  lemma OverStaysOver(s: System, step: Step, s': System, session: Id)
    requires IsOver(s, session) && Next(s, step, s')
    ensures IsOver(s', session)
  {
  }

  lemma {:induction false} OverForGood(states: seq<System>, steps: seq<Step>, i: nat, j: nat, session: Id, now: int)
    requires IsRun(states, steps) && i <= j < |states| && IsOver(states[i], session)
    ensures IsOver(states[j], session) && Authenticated(states[j].tables, session, now) == None
    decreases j - i
  {
    if i < j {
      OverStaysOver(states[i], steps[i], states[i + 1], session);
      OverForGood(states, steps, i + 1, j, session, now);
    }
  }

  lemma SessionsAreSpent(s: System, step: Step, s': System)
    requires Next(s, step, s') && forall k :: k in s.tables.sessions ==> k in s.usedSessions
    ensures forall k :: k in s'.tables.sessions ==> k in s'.usedSessions
  {
  }

  lemma {:induction false} StoredSessionsAreSpent(states: seq<System>, steps: seq<Step>, i: nat)
    requires IsRun(states, steps) && i < |states|
    ensures forall k :: k in states[i].tables.sessions ==> k in states[i].usedSessions
  {
    if i > 0 {
      StoredSessionsAreSpent(states, steps, i - 1);
      SessionsAreSpent(states[i - 1], steps[i - 1], states[i]);
    }
  }

  /** The session is the one that was issued to `user` until `expiresAt`, or gone for good. */
  ghost predicate IsIssued(s: System, session: Id, user: Id, expiresAt: int) {
    && session in s.usedSessions
    && (session in s.tables.sessions ==>
          s.tables.sessions[session].user == user && s.tables.sessions[session].expiresAt == expiresAt)
  }

  lemma StaysAsIssued(s: System, step: Step, s': System, session: Id, user: Id, expiresAt: int)
    requires IsIssued(s, session, user, expiresAt) && Next(s, step, s')
    ensures IsIssued(s', session, user, expiresAt)
  {
  }

  lemma {:induction false} IssuedForGood(states: seq<System>, steps: seq<Step>, i: nat, j: nat, session: Id, user: Id,
                                         expiresAt: int)
    requires IsRun(states, steps) && i <= j < |states| && IsIssued(states[i], session, user, expiresAt)
    ensures IsIssued(states[j], session, user, expiresAt)
    decreases j - i
  {
    if i < j {
      StaysAsIssued(states[i], steps[i], states[i + 1], session, user, expiresAt);
      IssuedForGood(states, steps, i + 1, j, session, user, expiresAt);
    }
  }

  /** A session signs in no one but its own user, and no one from its end on, whatever requests come after it. */
  lemma ExpiredNeverAuthenticates(states: seq<System>, steps: seq<Step>, i: nat, j: nat, session: Id, now: int)
    requires IsRun(states, steps) && i <= j < |states| && session in states[i].tables.sessions
    ensures var issued, r := states[i].tables.sessions[session], Authenticated(states[j].tables, session, now);
            && (issued.expiresAt <= now ==> r == None)
            && (r.Some? ==> r.value == issued.user && now < issued.expiresAt)
  {
    var issued := states[i].tables.sessions[session];
    StoredSessionsAreSpent(states, steps, i);
    IssuedForGood(states, steps, i, j, session, issued.user, issued.expiresAt);
  }

  /** A completed reset ends every session its user has then, for good. */
  lemma ResetEndsSessions(states: seq<System>, steps: seq<Step>, i: nat, j: nat, session: Id, now: int)
    requires IsRun(states, steps) && i < j < |states| && steps[i].ConfirmReset?
    requires states[i + 1].confirmed != states[i].confirmed && session in states[i].tables.sessions
    requires steps[i].token in states[i].issued
             && states[i].tables.sessions[session].user == states[i].issued[steps[i].token].0
    ensures Authenticated(states[j].tables, session, now) == None
  {
    StoredSessionsAreSpent(states, steps, i);
    OverForGood(states, steps, i + 1, j, session, now);
  }

  // ---- Deleted accounts ----------------------------------------------------------------------

  lemma DeletedStaysDeleted(s: System, step: Step, s': System, user: Id)
    requires Next(s, step, s') && user in s.tables.users && s.tables.users[user].status == Deleted
    ensures user in s'.tables.users && s'.tables.users[user].status == Deleted
  {
  }

  /** A deleted account never signs in again, whatever requests were under way. */
  lemma {:induction false} DeletedNeverAuthenticates(states: seq<System>, steps: seq<Step>, i: nat, j: nat, user: Id,
                                                     session: Id, now: int)
    requires IsRun(states, steps) && i <= j < |states|
    requires user in states[i].tables.users && states[i].tables.users[user].status == Deleted
    ensures user in states[j].tables.users && states[j].tables.users[user].status == Deleted
    ensures Authenticated(states[j].tables, session, now) != Some(user)
    decreases j - i
  {
    if i < j {
      DeletedStaysDeleted(states[i], steps[i], states[i + 1], user);
      DeletedNeverAuthenticates(states, steps, i + 1, j, user, session, now);
    }
  }

  // ---- A way to sign in ----------------------------------------------------------------------

  ghost predicate IsLinked(t: Tables, user: Id) {
    exists l :: l in t.links && t.links[l].user == user
  }

  /** Every account that is not deleted has a password or a link. */
  ghost predicate CanSignIn(t: Tables) {
    forall u :: u in t.users && t.users[u].status != Deleted ==> t.users[u].password.Some? || IsLinked(t, u)
  }

  /** The check of an unlink request, made on the state it commits to. */
  ghost predicate ChecksHold(t: Tables, step: Step) {
    step.Unlink? ==>
      && step.link in t.links && t.links[step.link].user in t.users
      && (t.users[t.links[step.link].user].password.Some? || |LinksOf(t, t.links[step.link].user)| > 1)
  }

  lemma AnotherLink(t: Tables, user: Id, link: Id)
    requires |LinksOf(t, user)| > 1
    ensures exists l :: l in t.links && t.links[l].user == user && l != link
  {
    var rest := LinksOf(t, user) - {link};
    assert LinksOf(t, user) <= rest + {link};
    if rest == {} {
      SubsetSize(LinksOf(t, user), {link});
    }
    var l :| l in rest;
  }

  lemma UnlinkKeepsSignIn(t: Tables, step: Step)
    requires CanSignIn(t) && step.Unlink? && ChecksHold(t, step)
    ensures CanSignIn(t.(links := t.links - {step.link}))
  {
    var t' := t.(links := t.links - {step.link});
    forall u | u in t.users && t.users[u].status != Deleted && t.users[u].password == None
      ensures IsLinked(t', u)
    {
      if t.links[step.link].user == u {
        AnotherLink(t, u, step.link);
        var l :| l in t.links && t.links[l].user == u && l != step.link;
        assert l in t'.links;
      } else {
        var l :| l in t.links && t.links[l].user == u;
        assert l in t'.links;
      }
    }
  }

  lemma DeleteKeepsSignIn(t: Tables, user: Id)
    requires CanSignIn(t) && user in t.users
    ensures CanSignIn(Anonymize(t, user))
  {
    var t' := Anonymize(t, user);
    forall u | u in t'.users && t'.users[u].status != Deleted && t'.users[u].password == None
      ensures IsLinked(t', u)
    {
      var l :| l in t.links && t.links[l].user == u;
      assert l in t'.links;
    }
  }

  lemma NewLinkKeepsSignIn(t: Tables, users: map<Id, User>, id: Id, link: Link)
    requires CanSignIn(t) && id !in t.links
    requires forall u :: u in users && users[u].status != Deleted && users[u].password == None ==>
               u == link.user || (u in t.users && t.users[u] == users[u])
    ensures CanSignIn(t.(users := users, links := t.links[id := link]))
  {
    var t' := t.(users := users, links := t.links[id := link]);
    forall u | u in users && users[u].status != Deleted && users[u].password == None
      ensures IsLinked(t', u)
    {
      if u == link.user {
        assert id in t'.links;
      } else {
        var l :| l in t.links && t.links[l].user == u;
        assert l in t'.links;
      }
    }
  }

  /** A request whose checks hold when it commits leaves everyone a way to sign in. */
  lemma StepKeepsSignIn(s: System, step: Step, s': System)
    requires CanSignIn(s.tables) && Next(s, step, s') && ChecksHold(s.tables, step)
    ensures CanSignIn(s'.tables)
  {
    var t := s.tables;
    if step.Unlink? {
      UnlinkKeepsSignIn(t, step);
    } else if step.Delete? {
      DeleteKeepsSignIn(t, step.user);
    } else if step.OAuthSignUp? && s' != s {
      NewLinkKeepsSignIn(t, s'.tables.users, step.link, Link(step.user, step.provider, step.subject));
    } else if step.Connect? && s' != s {
      NewLinkKeepsSignIn(t, t.users, step.link, Link(step.user, step.provider, step.subject));
    } else {
      SameLinksKeepSignIn(s, step, s');
    }
  }

  lemma SameLinksKeepSignIn(s: System, step: Step, s': System)
    requires CanSignIn(s.tables) && Next(s, step, s')
    requires s' == s || !(step.Unlink? || step.Delete? || step.OAuthSignUp? || step.Connect?)
    ensures CanSignIn(s'.tables)
  {
    assert s'.tables.links == s.tables.links;
    forall u | u in s'.tables.users && s'.tables.users[u].status != Deleted && s'.tables.users[u].password == None
      ensures IsLinked(s'.tables, u)
    {
      assert u in s.tables.users && s.tables.users[u].status != Deleted && s.tables.users[u].password == None;
      var l :| l in s.tables.links && s.tables.links[l].user == u;
      assert l in s'.tables.links;
    }
  }

  /** The unlink takes the last way to sign in from an account that is not deleted. */
  ghost predicate Strands(t: Tables, step: Step) {
    && step.Unlink? && step.link in t.links
    && (var u := t.links[step.link].user;
        && u in t.users && t.users[u].status != Deleted && t.users[u].password == None && LinksOf(t, u) == {step.link})
  }

  /** What an unlink that strands nobody leaves: the owner's password, or a second link. */
  lemma StrandsNobody(t: Tables, step: Step)
    requires CanSignIn(t) && step.Unlink? && !Strands(t, step)
    ensures CanSignIn(t.(links := t.links - {step.link}))
  {
    var t' := t.(links := t.links - {step.link});
    forall u | u in t.users && t.users[u].status != Deleted && t.users[u].password == None
      ensures IsLinked(t', u)
    {
      var l :| l in t.links && t.links[l].user == u;
      assert l in LinksOf(t, u);
      if l == step.link {
        var other :| other in LinksOf(t, u) && other != step.link;
        assert other in t'.links;
      } else {
        assert l in t'.links;
      }
    }
  }

  /** Exactly the stranding unlinks end the guarantee; no other step of any request does. */
  lemma StepIsExact(s: System, step: Step, s': System)
    requires CanSignIn(s.tables) && Next(s, step, s')
    ensures CanSignIn(s'.tables) <==> !Strands(s.tables, step)
  {
    if !step.Unlink? {
      StepKeepsSignIn(s, step, s');
    } else if Strands(s.tables, step) {
      var u := s.tables.links[step.link].user;
      forall l | l in s'.tables.links
        ensures s'.tables.links[l].user != u
      {
        assert l in s.tables.links && l !in LinksOf(s.tables, u);
      }
      assert !IsLinked(s'.tables, u);
    } else {
      StrandsNobody(s.tables, step);
    }
  }

  /** For a link of an account that is not deleted: unlinking it keeps everyone a way to sign in if and only if the
      request's own check still holds when it commits. */
  lemma UnlinkIsExact(s: System, link: Id, s': System)
    requires CanSignIn(s.tables) && Next(s, Unlink(link), s')
    requires link in s.tables.links
    requires var u := s.tables.links[link].user; u in s.tables.users && s.tables.users[u].status != Deleted
    ensures CanSignIn(s'.tables) <==> ChecksHold(s.tables, Unlink(link))
  {
    var u := s.tables.links[link].user;
    StepIsExact(s, Unlink(link), s');
    assert link in LinksOf(s.tables, u);
    if |LinksOf(s.tables, u)| > 1 {
      AnotherLink(s.tables, u, link);
    } else {
      OneLink(LinksOf(s.tables, u), link);
    }
  }

  lemma OneLink(links: set<Id>, link: Id)
    requires link in links && |links| <= 1
    ensures links == {link}
  {
    if l :| l in links && l != link {
      SubsetSize({link, l}, links);
    }
  }

  /** In every run the guarantee holds up to a state exactly when no unlink before it stranded its account: it first
      breaks at an unlink whose check no longer holds when it commits. */
  lemma {:induction false} SignInIsExact(states: seq<System>, steps: seq<Step>, i: nat)
    requires IsRun(states, steps) && i < |states|
    ensures (forall k :: 0 <= k <= i ==> CanSignIn(states[k].tables)) <==>
              forall k :: 0 <= k < i ==> !Strands(states[k].tables, steps[k])
  {
    if i > 0 {
      SignInIsExact(states, steps, i - 1);
      if CanSignIn(states[i - 1].tables) {
        StepIsExact(states[i - 1], steps[i - 1], states[i]);
      }
    }
  }

  /** When requests run one at a time, every account that is not deleted keeps a password or a link. */
  lemma {:induction false} EveryoneCanSignIn(states: seq<System>, steps: seq<Step>, i: nat)
    requires IsRun(states, steps) && i < |states| && forall k :: 0 <= k < i ==> ChecksHold(states[k].tables, steps[k])
    ensures CanSignIn(states[i].tables)
  {
    if i > 0 {
      EveryoneCanSignIn(states, steps, i - 1);
      StepKeepsSignIn(states[i - 1], steps[i - 1], states[i]);
    }
  }

  /** Two unlink requests that both read the account's two links leave it with neither. */
  lemma ConcurrentUnlinksLoseSignIn(s: System, user: Id, first: Id, second: Id, s1: System, s2: System)
    requires first != second && LinksOf(s.tables, user) == {first, second}
    requires user in s.tables.users && s.tables.users[user].status == Active && s.tables.users[user].password == None
    requires Next(s, Unlink(first), s1) && Next(s1, Unlink(second), s2)
    ensures ChecksHold(s.tables, Unlink(first)) && ChecksHold(s.tables, Unlink(second))
    ensures !CanSignIn(s2.tables)
  {
    assert first in LinksOf(s.tables, user) && second in LinksOf(s.tables, user);
    forall l | l in s2.tables.links
      ensures s2.tables.links[l].user != user
    {
      assert l in s.tables.links && l !in LinksOf(s.tables, user);
    }
  }

  const FIRST: Link := Link(0, Naver, 0)
  const SECOND: Link := Link(0, Kakao, 0)

  /** Account 0, signed up through a provider, with the given links. */
  function WithLinks(links: map<Id, Link>): System {
    START.(tables := START.tables.(users := map[0 := User(Active, None, None, None)], links := links))
  }

  lemma SignsUpAndConnects()
    ensures Next(START, OAuthSignUp(0, None, None, 0, Naver, 0), WithLinks(map[0 := FIRST]))
    ensures Next(WithLinks(map[0 := FIRST]), Connect(1, 0, Kakao, 0), WithLinks(map[0 := FIRST, 1 := SECOND]))
  {
    assert LinkFits(START.tables, FIRST) && LinkFits(WithLinks(map[0 := FIRST]).tables, SECOND);
    assert map[0 := FIRST][1 := SECOND] == map[0 := FIRST, 1 := SECOND];
  }

  lemma UnlinksBoth()
    ensures Next(WithLinks(map[0 := FIRST, 1 := SECOND]), Unlink(0), WithLinks(map[1 := SECOND]))
    ensures Next(WithLinks(map[1 := SECOND]), Unlink(1), WithLinks(map[]))
  {
    assert map[0 := FIRST, 1 := SECOND] - {0} == map[1 := SECOND] && map[1 := SECOND] - {1} == map[];
  }

  lemma OneLinkSignsIn()
    ensures CanSignIn(WithLinks(map[1 := SECOND]).tables)
  {
    var t := WithLinks(map[1 := SECOND]).tables;
    assert IsLinked(t, 0) by {
      assert 1 in t.links;
    }
  }

  /** Such a state is reachable: a sign-up through one provider, a second provider linked, and two unlink requests whose
      checks both held on the state with two links. */
  lemma UnlinksReachStranded() returns (states: seq<System>, steps: seq<Step>)
    ensures IsRun(states, steps) && |steps| == 4 && steps[2] == Unlink(0) && steps[3] == Unlink(1)
    ensures ChecksHold(states[2].tables, steps[2]) && ChecksHold(states[2].tables, steps[3])
    ensures CanSignIn(states[3].tables) && !CanSignIn(states[4].tables)
  {
    var both, one, none := WithLinks(map[0 := FIRST, 1 := SECOND]), WithLinks(map[1 := SECOND]), WithLinks(map[]);
    steps := [OAuthSignUp(0, None, None, 0, Naver, 0), Connect(1, 0, Kakao, 0), Unlink(0), Unlink(1)];
    states := [START, WithLinks(map[0 := FIRST]), both, one, none];
    SignsUpAndConnects();
    UnlinksBoth();
    OneLinkSignsIn();
    assert LinksOf(both.tables, 0) == {0, 1};
    ConcurrentUnlinksLoseSignIn(both, 0, 0, 1, one, none);
  }
}
