/** The handlers as they change the tables, row by row, in the order of their statements. */
module AuthRouter {
  import opened Text
  import opened Tokens

  class AuthStore {
    var users: map<nat, UserRow>
    var tokens: seq<TokenRow>
    var resets: seq<ResetRow>

    constructor ()
      ensures State() == Tables(map[], [], [])
    {
      users, tokens, resets := map[], [], [];
    }

    function State(): Tables
      reads this
    {
      Tables(users, tokens, resets)
    }

    /** Stores a new unrevoked row for the user; the answer names it. */
    method BuildTokenResponse(user: nat, expiresAt: int) returns (answer: Answer)
      modifies this`tokens
      ensures tokens == old(tokens) + [TokenRow(user, false, expiresAt)] && answer == Issued(|old(tokens)|)
    {
      answer := Issued(|tokens|);
      tokens := tokens + [TokenRow(user, false, expiresAt)];
    }

    method Login(user: nat, password: string, now: int, lifetime: int) returns (answer: Answer)
      modifies this
      ensures (State(), answer) == Serve(old(State()), Request.Login(user, password, now, lifetime))
    {
      if user !in users { return Refused(Unauthorized); }
      if users[user].password != password { return Refused(Unauthorized); }
      if !users[user].active { return Refused(Forbidden); }
      if !users[user].verified { return Refused(Forbidden); }
      answer := BuildTokenResponse(user, now + lifetime);
    }

    method RefreshToken(token: nat, now: int, lifetime: int) returns (answer: Answer)
      modifies this
      ensures (State(), answer) == Serve(old(State()), Request.Refresh(token, now, lifetime))
    {
      if token >= |tokens| { return Refused(Unauthorized); }
      var stored := tokens[token];
      if stored.revoked { return Refused(Unauthorized); }
      if stored.expiresAt < now { return Refused(Unauthorized); }
      tokens := tokens[token := stored.(revoked := true)];
      if stored.userId !in users || !users[stored.userId].active { return Refused(Unauthorized); }
      answer := BuildTokenResponse(stored.userId, now + lifetime);
    }

    /** The user that the bearer's access token names, as the handlers' dependency checks it. */
    method CurrentActiveUser(user: nat) returns (refusal: Answer)
      ensures refusal == if user !in users then Refused(Unauthorized)
                         else if !users[user].active then Refused(Forbidden) else Done
    {
      if user !in users { return Refused(Unauthorized); }
      if !users[user].active { return Refused(Forbidden); }
      return Done;
    }

    method Logout(user: nat, token: nat) returns (answer: Answer)
      modifies this`tokens
      ensures (State(), answer) == Serve(old(State()), Request.Logout(user, token))
    {
      answer := CurrentActiveUser(user);
      if answer.Done? && token < |tokens| {
        tokens := tokens[token := tokens[token].(revoked := true)];
      }
    }

    method ForgotPassword(user: nat, now: int, lifetime: int) returns (answer: Answer)
      modifies this`resets
      ensures (State(), answer) == Serve(old(State()), Request.Forgot(user, now, lifetime))
    {
      if user !in users { return Acknowledged(None); }
      answer := Acknowledged(Some(|resets|));
      resets := resets + [ResetRow(user, false, now + lifetime)];
    }

    method ResetPassword(reset: nat, password: string, now: int) returns (answer: Answer)
      modifies this
      ensures (State(), answer) == Serve(old(State()), Request.Reset(reset, password, now))
    {
      if reset >= |resets| { return Refused(BadRequest); }
      var stored := resets[reset];
      if stored.used { return Refused(BadRequest); }
      if stored.expiresAt < now { return Refused(BadRequest); }
      if stored.userId in users { users := users[stored.userId := users[stored.userId].(password := password)]; }
      resets := resets[reset := stored.(used := true)];
      tokens := RevokeAll(tokens, stored.userId);
      answer := Done;
    }

    method ChangePassword(user: nat, current: string, password: string) returns (answer: Answer)
      modifies this
      ensures (State(), answer) == Serve(old(State()), Request.Change(user, current, password))
    {
      answer := CurrentActiveUser(user);
      if answer != Done { return; }
      if users[user].password != current { return Refused(BadRequest); }
      users := users[user := users[user].(password := password)];
      tokens := RevokeAll(tokens, user);
    }
  }
}
