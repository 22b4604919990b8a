/** Refresh tokens over whole runs of the authentication handlers, each handler one step. */
module Tokens {
  import opened Text

  datatype UserRow = UserRow(password: string, active: bool, verified: bool)

  datatype TokenRow = TokenRow(userId: nat, revoked: bool, expiresAt: int)

  datatype ResetRow = ResetRow(userId: nat, used: bool, expiresAt: int)

  datatype Error = BadRequest | Unauthorized | Forbidden

  /** What a handler answers: a new refresh token, a plain acknowledgement, an acknowledgement that carries the
      reset token if one was made, or an error. */
  datatype Answer = Issued(token: nat) | Done | Acknowledged(reset: Option<nat>) | Refused(error: Error)

  /** The tables; a token stands for its hash and its place in its table, in order of issue. */
  datatype Tables = Tables(users: map<nat, UserRow>, tokens: seq<TokenRow>, resets: seq<ResetRow>)

  /** A request. now is the clock when it is served, lifetime that of the token it may issue. */
  datatype Request =
    | Login(user: nat, password: string, now: int, lifetime: int)
    | Refresh(token: nat, now: int, lifetime: int)
    | Logout(user: nat, token: nat)
    | Forgot(user: nat, now: int, lifetime: int)
    | Reset(reset: nat, password: string, now: int)
    | Change(user: nat, current: string, password: string)
    | SetActive(user: nat, active: bool)
    | Register(user: nat, password: string)
    | Verify(user: nat)
    | Delete(user: nat)

  function Issue(t: Tables, user: nat, expiresAt: int): (Tables, Answer) {
    (t.(tokens := t.tokens + [TokenRow(user, false, expiresAt)]), Issued(|t.tokens|))
  }

  /** All refresh tokens of the user, revoked. */
  function RevokeAll(tokens: seq<TokenRow>, user: nat): (revoked: seq<TokenRow>)
    ensures |revoked| == |tokens|
    ensures forall i :: 0 <= i < |tokens| ==>
      revoked[i] == if tokens[i].userId == user then tokens[i].(revoked := true) else tokens[i]
  {
    seq(|tokens|, i requires 0 <= i < |tokens| =>
      if tokens[i].userId == user then tokens[i].(revoked := true) else tokens[i])
  }

  /** One handler run. */
  function Serve(t: Tables, r: Request): (Tables, Answer) {
    match r
    case Login(u, password, now, lifetime) =>
      if u !in t.users || t.users[u].password != password then (t, Refused(Unauthorized))
      else if !t.users[u].active || !t.users[u].verified then (t, Refused(Forbidden))
      else Issue(t, u, now + lifetime)
    case Refresh(k, now, lifetime) =>
      if k >= |t.tokens| || t.tokens[k].revoked || t.tokens[k].expiresAt < now then (t, Refused(Unauthorized))
      else
        var u := t.tokens[k].userId;
        var rotated := t.(tokens := t.tokens[k := t.tokens[k].(revoked := true)]);
        if u !in t.users || !t.users[u].active then (rotated, Refused(Unauthorized))
        else Issue(rotated, u, now + lifetime)
    case Logout(u, k) =>
      if u !in t.users then (t, Refused(Unauthorized))
      else if !t.users[u].active then (t, Refused(Forbidden))
      else (if k < |t.tokens| then t.(tokens := t.tokens[k := t.tokens[k].(revoked := true)]) else t, Done)
    case Forgot(u, now, lifetime) =>
      if u in t.users
      then (t.(resets := t.resets + [ResetRow(u, false, now + lifetime)]), Acknowledged(Some(|t.resets|)))
      else (t, Acknowledged(None))
    case Reset(k, password, now) =>
      if k >= |t.resets| || t.resets[k].used || t.resets[k].expiresAt < now then (t, Refused(BadRequest))
      else
        var u := t.resets[k].userId;
        (Tables(if u in t.users then t.users[u := t.users[u].(password := password)] else t.users,
                RevokeAll(t.tokens, u), t.resets[k := t.resets[k].(used := true)]), Done)
    case Change(u, current, password) =>
      if u !in t.users then (t, Refused(Unauthorized))
      else if !t.users[u].active then (t, Refused(Forbidden))
      else if t.users[u].password != current then (t, Refused(BadRequest))
      else (t.(users := t.users[u := t.users[u].(password := password)], tokens := RevokeAll(t.tokens, u)), Done)
    case SetActive(u, active) =>
      (if u in t.users then t.(users := t.users[u := t.users[u].(active := active)]) else t, Done)
    case Register(u, password) =>
      (if u in t.users then t else t.(users := t.users[u := UserRow(password, true, false)]), Done)
    case Verify(u) =>
      (if u in t.users then t.(users := t.users[u := t.users[u].(verified := true)]) else t, Done)
    case Delete(u) => (t.(users := t.users - {u}), Done)
  }

  /** The answer to a request for a reset tells whether the user exists, and names the new row if so. */
  lemma ForgotTells(t: Tables, user: nat, now: int, lifetime: int)
    ensures var (t', answer) := Serve(t, Forgot(user, now, lifetime));
      && answer.Acknowledged? && (answer.reset.Some? <==> user in t.users)
      && (answer.reset.Some? ==>
            && answer.reset.value < |t'.resets| && answer.reset.value >= |t.resets|
            && t'.resets[answer.reset.value] == ResetRow(user, false, now + lifetime))
  {
  }

  ghost predicate IsRun(states: seq<Tables>, requests: seq<Request>) {
    && |states| == |requests| + 1 && states[0] == Tables(map[], [], [])
    && forall i :: 0 <= i < |requests| ==> states[i + 1] == Serve(states[i], requests[i]).0
  }

  /** Request i exchanged token k for a new one. */
  ghost predicate Exchanges(states: seq<Tables>, requests: seq<Request>, i: nat, k: nat)
    requires i < |requests| <= |states|
  {
    requests[i].Refresh? && requests[i].token == k && Serve(states[i], requests[i]).1.Issued?
  }

  /** Request i set a new password for the user. */
  ghost predicate NewPassword(states: seq<Tables>, requests: seq<Request>, i: nat, user: nat)
    requires i < |requests| <= |states|
  {
    && Serve(states[i], requests[i]).1 == Done
    && (requests[i].Change? ==> requests[i].user == user)
    && (requests[i].Reset? ==> states[i].resets[requests[i].reset].userId == user)
    && (requests[i].Change? || requests[i].Reset?)
  }

  /** Token rows are never dropped, keep their user, and stay revoked. */
  lemma {:induction false} RowsLast(states: seq<Tables>, requests: seq<Request>, i: nat, j: nat, k: nat)
    requires IsRun(states, requests) && i <= j < |states| && k < |states[i].tokens|
    ensures k < |states[j].tokens| && states[j].tokens[k].userId == states[i].tokens[k].userId
    ensures states[i].tokens[k].revoked ==> states[j].tokens[k].revoked
    ensures states[j].tokens[k].expiresAt == states[i].tokens[k].expiresAt
    decreases j
  {
    if i < j {
      RowsLast(states, requests, i, j - 1, k);
      assert states[j] == Serve(states[j - 1], requests[j - 1]).0;
    }
  }

  /** Request j puts an end to token k, issued before it: the token was offered in its lifetime while unrevoked,
      or logged out, or its user got a new password. */
  ghost predicate Ends(states: seq<Tables>, requests: seq<Request>, j: nat, k: nat)
    requires j < |requests| <= |states|
  {
    && k < |states[j].tokens|
    && (|| (requests[j].Refresh? && requests[j].token == k && requests[j].now <= states[j].tokens[k].expiresAt)
        || (requests[j].Logout? && requests[j].token == k && Serve(states[j], requests[j]).1 == Done)
        || NewPassword(states, requests, j, states[j].tokens[k].userId))
  }

  /** A token is revoked exactly when an earlier request of the run put an end to it. */
  lemma {:induction false} RevokedExactly(states: seq<Tables>, requests: seq<Request>, i: nat, k: nat)
    requires IsRun(states, requests) && i < |states| && k < |states[i].tokens|
    ensures states[i].tokens[k].revoked <==> exists j: nat | j < i :: Ends(states, requests, j, k)
  {
    if i > 0 {
      assert states[i] == Serve(states[i - 1], requests[i - 1]).0;
      if k < |states[i - 1].tokens| {
        RevokedExactly(states, requests, i - 1, k);
        EndsNow(states, requests, i - 1, k);
        if states[i].tokens[k].revoked && !states[i - 1].tokens[k].revoked {
          assert Ends(states, requests, i - 1, k);
        }
      } else {
        forall j: nat | j < i ensures !Ends(states, requests, j, k) { NotYet(states, requests, j, i - 1, k); }
      }
    }
  }

  lemma EndsNow(states: seq<Tables>, requests: seq<Request>, j: nat, k: nat)
    requires IsRun(states, requests) && j < |requests| && k < |states[j].tokens|
    ensures states[j + 1].tokens[k].revoked <==> states[j].tokens[k].revoked || Ends(states, requests, j, k)
  {
    assert states[j + 1] == Serve(states[j], requests[j]).0;
  }

  lemma NotYet(states: seq<Tables>, requests: seq<Request>, j: nat, i: nat, k: nat)
    requires IsRun(states, requests) && j <= i < |states| && k >= |states[i].tokens|
    ensures k >= |states[j].tokens|
  {
    if k < |states[j].tokens| { RowsLast(states, requests, j, i, k); }
  }

  /** A refresh token is exchanged exactly when it was issued, no earlier request put an end to it, its time has
      not passed, and its user is there and active. */
  lemma ExchangedExactly(states: seq<Tables>, requests: seq<Request>, i: nat)
    requires IsRun(states, requests) && i < |requests| && requests[i].Refresh?
    ensures Serve(states[i], requests[i]).1.Issued?
      <==> var s, k := states[i], requests[i].token;
           && k < |s.tokens| && !(exists j: nat | j < i :: Ends(states, requests, j, k))
           && requests[i].now <= s.tokens[k].expiresAt
           && s.tokens[k].userId in s.users && s.users[s.tokens[k].userId].active
  {
    if requests[i].token < |states[i].tokens| { RevokedExactly(states, requests, i, requests[i].token); }
  }

  /** Each refresh token is exchanged at most once in any run. */
  lemma ExchangedOnce(states: seq<Tables>, requests: seq<Request>, i: nat, j: nat, k: nat)
    requires IsRun(states, requests) && i < j < |requests|
    requires Exchanges(states, requests, i, k)
    ensures !Exchanges(states, requests, j, k)
  {
    assert states[i + 1] == Serve(states[i], requests[i]).0;
    RowsLast(states, requests, i + 1, j, k);
  }

  /** No token issued before a password reset or change is exchanged after it. */
  lemma NoneSurvivesNewPassword(states: seq<Tables>, requests: seq<Request>, i: nat, j: nat, k: nat)
    requires IsRun(states, requests) && i < j < |requests|
    requires k < |states[i].tokens| && NewPassword(states, requests, i, states[i].tokens[k].userId)
    ensures !Exchanges(states, requests, j, k)
  {
    assert states[i + 1] == Serve(states[i], requests[i]).0;
    RowsLast(states, requests, i + 1, j, k);
  }

  /** Nor is one exchanged after it was logged out. */
  lemma NoneSurvivesLogout(states: seq<Tables>, requests: seq<Request>, i: nat, j: nat, k: nat)
    requires IsRun(states, requests) && i < j < |requests|
    requires requests[i].Logout? && requests[i].token == k && Serve(states[i], requests[i]).1 == Done
    requires k < |states[i].tokens|
    ensures !Exchanges(states, requests, j, k)
  {
    assert states[i + 1] == Serve(states[i], requests[i]).0;
    RowsLast(states, requests, i + 1, j, k);
  }

  /** A token is exchanged for one of the same user, and only in its lifetime while its user is active. */
  lemma ExchangeKeepsUser(states: seq<Tables>, requests: seq<Request>, i: nat, k: nat)
    requires IsRun(states, requests) && i < |requests| && Exchanges(states, requests, i, k)
    ensures var s, s', n := states[i], states[i + 1], |states[i].tokens|;
      && k < n && |s'.tokens| == n + 1 && !s.tokens[k].revoked && s'.tokens[k].revoked
      && s'.tokens[n] == TokenRow(s.tokens[k].userId, false, requests[i].now + requests[i].lifetime)
      && requests[i].now <= s.tokens[k].expiresAt
      && s.tokens[k].userId in s.users && s.users[s.tokens[k].userId].active
  {
    assert states[i + 1] == Serve(states[i], requests[i]).0;
  }

  lemma {:induction false} ResetsLast(states: seq<Tables>, requests: seq<Request>, i: nat, j: nat, k: nat)
    requires IsRun(states, requests) && i <= j < |states| && k < |states[i].resets|
    ensures k < |states[j].resets| && states[j].resets[k].userId == states[i].resets[k].userId
    ensures states[i].resets[k].used ==> states[j].resets[k].used
    decreases j
  {
    if i < j {
      ResetsLast(states, requests, i, j - 1, k);
      assert states[j] == Serve(states[j - 1], requests[j - 1]).0;
    }
  }

  /** A password reset token works at most once. */
  lemma ResetOnce(states: seq<Tables>, requests: seq<Request>, i: nat, j: nat, k: nat)
    requires IsRun(states, requests) && i < j < |requests|
    requires requests[i].Reset? && requests[i].reset == k && Serve(states[i], requests[i]).1 == Done
    requires requests[j].Reset? && requests[j].reset == k
    ensures Serve(states[j], requests[j]).1 == Refused(BadRequest)
  {
    assert states[i + 1] == Serve(states[i], requests[i]).0;
    ResetsLast(states, requests, i + 1, j, k);
  }

  /** What request j makes of the user's account: it begins with a registration and ends with a deletion. */
  ghost function NextAccount(states: seq<Tables>, requests: seq<Request>, j: nat, u: nat, before: Option<UserRow>)
    : Option<UserRow>
    requires j < |requests| <= |states|
  {
    var r := requests[j];
    match before
    case None => if r.Register? && r.user == u then Some(UserRow(r.password, true, false)) else None
    case Some(a) =>
      if r.Delete? && r.user == u then None
      else if NewPassword(states, requests, j, u) then Some(a.(password := r.password))
      else if r.SetActive? && r.user == u then Some(a.(active := r.active))
      else if r.Verify? && r.user == u then Some(a.(verified := true))
      else before
  }

  /** The account that the first i requests leave to the user, if any. */
  ghost function Account(states: seq<Tables>, requests: seq<Request>, i: nat, u: nat): Option<UserRow>
    requires i <= |requests| <= |states|
  {
    if i == 0 then None else NextAccount(states, requests, i - 1, u, Account(states, requests, i - 1, u))
  }

  function UserOf(t: Tables, u: nat): Option<UserRow> {
    if u in t.users then Some(t.users[u]) else None
  }

  ghost predicate AccountFollows(states: seq<Tables>, requests: seq<Request>, j: nat, u: nat)
    requires j < |requests| < |states|
  {
    UserOf(states[j + 1], u) == NextAccount(states, requests, j, u, UserOf(states[j], u))
  }

  lemma AccountStep(states: seq<Tables>, requests: seq<Request>, j: nat, u: nat)
    requires IsRun(states, requests) && j < |requests|
    ensures AccountFollows(states, requests, j, u)
  {
    assert states[j + 1] == Serve(states[j], requests[j]).0;
  }

  lemma {:induction false} AccountSince(states: seq<Tables>, requests: seq<Request>, i: nat, u: nat)
    requires i <= |requests| < |states| && UserOf(states[0], u) == None
    requires forall j: nat | j < i :: AccountFollows(states, requests, j, u)
    ensures Account(states, requests, i, u) == UserOf(states[i], u)
  {
    if i > 0 {
      AccountSince(states, requests, i - 1, u);
      assert AccountFollows(states, requests, i - 1, u);
    }
  }

  lemma AccountExactly(states: seq<Tables>, requests: seq<Request>, i: nat, u: nat)
    requires IsRun(states, requests) && i < |states|
    ensures Account(states, requests, i, u) == UserOf(states[i], u)
  {
    forall j: nat | j < i ensures AccountFollows(states, requests, j, u) { AccountStep(states, requests, j, u); }
    AccountSince(states, requests, i, u);
  }

  /** In any run a login gets a token, its own user's and for its lifetime, exactly when the account is active and
      verified and the password is the last that was set for it; and changes nothing otherwise. */
  lemma LoginExactly(states: seq<Tables>, requests: seq<Request>, i: nat)
    requires IsRun(states, requests) && i < |requests| && requests[i].Login?
    ensures var r, account, answer := requests[i], Account(states, requests, i, requests[i].user),
                                      Serve(states[i], requests[i]).1;
      && (answer.Issued? <==> account == Some(UserRow(r.password, true, true)))
      && (answer == Refused(Unauthorized) <==> account.None? || account.value.password != r.password)
      && (answer.Issued? ==>
            && answer.token == |states[i].tokens|
            && states[i + 1].tokens == states[i].tokens + [TokenRow(r.user, false, r.now + r.lifetime)])
      && (!answer.Issued? ==> answer.Refused? && states[i + 1] == states[i])
  {
    AccountExactly(states, requests, i, requests[i].user);
    assert states[i + 1] == Serve(states[i], requests[i]).0;
  }

  /** A logout is done exactly for an active account, and a change of password for one whose last password it
      names. */
  lemma CallerExactly(states: seq<Tables>, requests: seq<Request>, i: nat)
    requires IsRun(states, requests) && i < |requests|
    ensures var r, answer := requests[i], Serve(states[i], requests[i]).1;
      r.Logout? || r.Change? ==>
        var account := Account(states, requests, i, r.user);
        && (answer == Refused(Unauthorized) <==> account.None?)
        && (answer == Refused(Forbidden) <==> account.Some? && !account.value.active)
        && (r.Change? ==> (answer == Done <==>
              account.Some? && account.value.active && account.value.password == r.current))
        && (r.Logout? ==> (answer == Done <==> account.Some? && account.value.active))
  {
    var r := requests[i];
    if r.Logout? || r.Change? { AccountExactly(states, requests, i, r.user); }
  }

  /** Request j asked for reset token k. */
  ghost predicate Asks(states: seq<Tables>, requests: seq<Request>, j: nat, k: nat)
    requires j < |requests| <= |states|
  {
    requests[j].Forgot? && Serve(states[j], requests[j]).1 == Acknowledged(Some(k))
  }

  ghost predicate Resets(states: seq<Tables>, requests: seq<Request>, j: nat, k: nat)
    requires j < |requests| <= |states|
  {
    requests[j].Reset? && requests[j].reset == k && Serve(states[j], requests[j]).1 == Done
  }

  /** One request makes row k of the reset tokens, or uses it, or leaves it. */
  lemma ResetStep(states: seq<Tables>, requests: seq<Request>, j: nat, k: nat)
    requires IsRun(states, requests) && j < |requests|
    ensures k < |states[j + 1].resets| <==> k < |states[j].resets| || Asks(states, requests, j, k)
    ensures k < |states[j].resets| ==>
              && !Asks(states, requests, j, k)
              && states[j + 1].resets[k]
                 == states[j].resets[k].(used := states[j].resets[k].used || Resets(states, requests, j, k))
    ensures k >= |states[j].resets| ==> !Resets(states, requests, j, k)
    ensures Asks(states, requests, j, k) ==>
              states[j + 1].resets[k] == ResetRow(requests[j].user, false, requests[j].now + requests[j].lifetime)
  {
    assert states[j + 1] == Serve(states[j], requests[j]).0;
  }

  /** The table has row k exactly when an earlier request asked for it, with that request's user and expiry. */
  lemma {:induction false} ResetAsked(states: seq<Tables>, requests: seq<Request>, i: nat, k: nat)
    requires IsRun(states, requests) && i < |states|
    ensures k < |states[i].resets| <==> exists j: nat | j < i :: Asks(states, requests, j, k)
    ensures forall j: nat | j < i && Asks(states, requests, j, k) ::
              && k < |states[i].resets| && states[i].resets[k].userId == requests[j].user
              && states[i].resets[k].expiresAt == requests[j].now + requests[j].lifetime
  {
    if i > 0 {
      ResetAsked(states, requests, i - 1, k);
      ResetStep(states, requests, i - 1, k);
    }
  }

  /** It is used exactly when an earlier request used it. */
  lemma {:induction false} ResetUsed(states: seq<Tables>, requests: seq<Request>, i: nat, k: nat)
    requires IsRun(states, requests) && i < |states|
    ensures (k < |states[i].resets| && states[i].resets[k].used)
            <==> exists j: nat | j < i :: Resets(states, requests, j, k)
  {
    if i > 0 {
      ResetUsed(states, requests, i - 1, k);
      ResetStep(states, requests, i - 1, k);
      if exists j: nat | j < i - 1 :: Resets(states, requests, j, k) { ResetsLast(states, requests, i - 1, i, k); }
    }
  }

  /** In any run a reset token sets the password exactly when it was asked for, within its lifetime, and not used
      before. */
  lemma ResetExactly(states: seq<Tables>, requests: seq<Request>, i: nat)
    requires IsRun(states, requests) && i < |requests| && requests[i].Reset?
    ensures Resets(states, requests, i, requests[i].reset)
      <==> && (exists j: nat | j < i :: Asks(states, requests, j, requests[i].reset)
                                        && requests[i].now <= requests[j].now + requests[j].lifetime)
           && !(exists j: nat | j < i :: Resets(states, requests, j, requests[i].reset))
  {
    ResetAsked(states, requests, i, requests[i].reset);
    ResetUsed(states, requests, i, requests[i].reset);
  }

  /** A token that outlives its user: offered in time, it is used up and nothing is issued for it. */
  function OrphanRequests(user: nat, password: string, now: int, lifetime: int): seq<Request> {
    [Register(user, password), Verify(user), Login(user, password, now, lifetime), Delete(user),
     Refresh(0, now, lifetime)]
  }

  function OrphanStates(user: nat, password: string, now: int, lifetime: int): seq<Tables> {
    var row := TokenRow(user, false, now + lifetime);
    [Tables(map[], [], []),
     Tables(map[user := UserRow(password, true, false)], [], []),
     Tables(map[user := UserRow(password, true, true)], [], []),
     Tables(map[user := UserRow(password, true, true)], [row], []),
     Tables(map[], [row], []),
     Tables(map[], [row.(revoked := true)], [])]
  }

  lemma OrphanRefused(user: nat, password: string, now: int, lifetime: nat)
    ensures var states, requests := OrphanStates(user, password, now, lifetime),
                                    OrphanRequests(user, password, now, lifetime);
      && IsRun(states, requests) && Serve(states[4], requests[4]).1 == Refused(Unauthorized)
      && !states[4].tokens[0].revoked && states[5].tokens[0].revoked
  {
    var states, requests := OrphanStates(user, password, now, lifetime),
                            OrphanRequests(user, password, now, lifetime);
    var none: map<nat, UserRow> := map[];
    assert map[user := UserRow(password, true, true)] - {user} == none;
    var row := TokenRow(user, false, now + lifetime);
    assert [row][0 := row.(revoked := true)] == [row.(revoked := true)];
    forall i | 0 <= i < |requests| ensures states[i + 1] == Serve(states[i], requests[i]).0 {
      assert i == 0 || i == 1 || i == 2 || i == 3 || i == 4;
    }
  }
}
