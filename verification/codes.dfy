/** The verification-code handlers: a small state machine per (email, type).
    Store replaces whatever codes the pair had with one fresh unused code
    that expires ten minutes later; verify consumes a matching unused,
    unexpired code exactly once. Both clocks (the server's `Date.now()` and
    the database's `NOW()`) are the parameter `now`, in milliseconds. */
module Codes {
  import opened Basics
  import opened Tables

  /** The `type` value whose successful verification also marks the user verified. */
  const Registration: string := "registration"

  /** The row belongs to the pair (email, type); NULL matches nothing. */
  predicate OfPair(row: CodeRow, email: Option<string>, kind: Option<string>) {
    SqlEq(row.email, email) && SqlEq(row.kind, kind)
  }

  /** The WHERE clause of verify-code: same email, code and type, unused, and
      expiring strictly after `now`. */
  predicate Redeemable(row: CodeRow, email: Option<string>, code: Option<string>, kind: Option<string>, now: nat) {
    OfPair(row, email, kind) && SqlEq(row.code, code) && row.used == 0 && row.expiresAt > now
  }

  /** POST /api/auth/store-code. The DELETE of the pair's earlier rows runs
      first; the INSERT then fails with 500 if email, code or type is NULL. */
  function StoreCode(s: State, now: nat, email: Option<string>, code: Option<string>, kind: Option<string>)
    : (r: Outcome<()>)
    requires CodesWellFormed(s)
    ensures CodesWellFormed(r.state)
    ensures r.state.users == s.users && r.state.tasks == s.tasks
    ensures r.reply.Ok? <==> email.Some? && code.Some? && kind.Some?
    ensures r.reply.Err? ==> r.reply.status == 500
    ensures forall k :: k in s.codes && !OfPair(s.codes[k], email, kind) ==>
              k in r.state.codes && r.state.codes[k] == s.codes[k]
    ensures forall k :: k in r.state.codes && !OfPair(r.state.codes[k], email, kind) ==>
              k in s.codes && r.state.codes[k] == s.codes[k]
    ensures r.reply.Err? ==> forall k :: k in r.state.codes ==> !OfPair(r.state.codes[k], email, kind)
    ensures r.reply.Ok? ==>
              exists k :: && k in r.state.codes
                          && r.state.codes[k] == CodeRow(email.value, code.value, kind.value, now + CodeLifetime, 0)
                          && forall j :: j in r.state.codes && OfPair(r.state.codes[j], email, kind) ==> j == k
  {
    var kept := map k | k in s.codes && !OfPair(s.codes[k], email, kind) :: s.codes[k];
    if email.None? || code.None? || kind.None? then
      Outcome(s.(codes := kept), Err(500, "Failed to store code"))
    else
      var id := s.nextCodeId;
      var row := CodeRow(email.value, code.value, kind.value, now + CodeLifetime, 0);
      var codes' := kept[id := row];
      assert id in codes' && codes'[id] == row;
      assert forall j :: j in codes' && OfPair(codes'[j], email, kind) ==> j == id;
      Outcome(s.(codes := codes', nextCodeId := id + 1), Ok(()))
  }

  /** POST /api/auth/verify-code. Without a redeemable row: 400 and no
      change. With one: that row is marked used and, for type
      "registration", the user with that email is marked verified. */
  function VerifyCode(s: State, now: nat, email: Option<string>, code: Option<string>, kind: Option<string>)
    : (r: Outcome<()>)
    requires CodesWellFormed(s)
    ensures CodesWellFormed(r.state)
    ensures r.state.tasks == s.tasks && r.state.nextCodeId == s.nextCodeId
    ensures r.state.codes.Keys == s.codes.Keys && r.state.users.Keys == s.users.Keys
    ensures r.reply.Ok? <==> exists k :: k in s.codes && Redeemable(s.codes[k], email, code, kind, now)
    ensures r.reply.Err? ==> r == Outcome(s, Err(400, "Invalid or expired code"))
    ensures r.reply.Ok? ==>
              exists k :: && k in s.codes && Redeemable(s.codes[k], email, code, kind, now)
                          && r.state.codes == s.codes[k := s.codes[k].(used := 1)]
    ensures kind != Some(Registration) ==> r.state.users == s.users
    ensures forall id :: id in s.users ==>
              if r.reply.Ok? && kind == Some(Registration) && SqlEq(s.users[id].email, email)
              then r.state.users[id] == s.users[id].(isVerified := 1)
              else r.state.users[id] == s.users[id]
  {
    if exists k :: k in s.codes && Redeemable(s.codes[k], email, code, kind, now) then
      var k :| k in s.codes && Redeemable(s.codes[k], email, code, kind, now);
      var codes' := s.codes[k := s.codes[k].(used := 1)];
      var users' :=
        if kind == Some(Registration) then
          map id | id in s.users ::
            if SqlEq(s.users[id].email, email) then s.users[id].(isVerified := 1) else s.users[id]
        else s.users;
      Outcome(s.(users := users', codes := codes'), Ok(()))
    else
      Outcome(s, Err(400, "Invalid or expired code"))
  }

  /** One-time consumption: a code that has just verified never verifies
      again, at any later or earlier time. */
  lemma VerifyTwiceFails(s: State, now: nat, later: nat,
                         email: Option<string>, code: Option<string>, kind: Option<string>)
    requires CodesWellFormed(s)
    requires VerifyCode(s, now, email, code, kind).reply.Ok?
    ensures VerifyCode(VerifyCode(s, now, email, code, kind).state, later, email, code, kind).reply.Err?
  {
    var s' := VerifyCode(s, now, email, code, kind).state;
    var k :| k in s.codes && Redeemable(s.codes[k], email, code, kind, now)
             && s'.codes == s.codes[k := s.codes[k].(used := 1)];
    forall j | j in s'.codes
      ensures !Redeemable(s'.codes[j], email, code, kind, later)
    {
      if j != k {
        assert s'.codes[j] == s.codes[j];
      }
    }
  }

  /** A freshly stored code verifies at any time before it expires, and at
      no time after. */
  lemma StoreThenVerify(s: State, now: nat, later: nat, email: string, code: string, kind: string)
    requires CodesWellFormed(s)
    ensures var s' := StoreCode(s, now, Some(email), Some(code), Some(kind)).state;
            VerifyCode(s', later, Some(email), Some(code), Some(kind)).reply.Ok?
            <==> later < now + CodeLifetime
  {
    var s' := StoreCode(s, now, Some(email), Some(code), Some(kind)).state;
    var k :| k in s'.codes
             && s'.codes[k] == CodeRow(email, code, kind, now + CodeLifetime, 0)
             && forall j :: j in s'.codes && OfPair(s'.codes[j], Some(email), Some(kind)) ==> j == k;
    if later < now + CodeLifetime {
      assert Redeemable(s'.codes[k], Some(email), Some(code), Some(kind), later);
    }
  }

  /** Storing a second code for the same pair invalidates the first. */
  lemma StoreSupersedes(s: State, now: nat, later: nat, email: string, first: string,
                        second: string, kind: string, check: nat)
    requires CodesWellFormed(s)
    requires first != second
    ensures var s1 := StoreCode(s, now, Some(email), Some(first), Some(kind)).state;
            var s2 := StoreCode(s1, later, Some(email), Some(second), Some(kind)).state;
            VerifyCode(s2, check, Some(email), Some(first), Some(kind)).reply.Err?
  {
    var s1 := StoreCode(s, now, Some(email), Some(first), Some(kind)).state;
    var s2 := StoreCode(s1, later, Some(email), Some(second), Some(kind)).state;
    var k :| k in s2.codes
             && s2.codes[k] == CodeRow(email, second, kind, later + CodeLifetime, 0)
             && forall j :: j in s2.codes && OfPair(s2.codes[j], Some(email), Some(kind)) ==> j == k;
    forall j | j in s2.codes
      ensures !Redeemable(s2.codes[j], Some(email), Some(first), Some(kind), check)
    {
      if OfPair(s2.codes[j], Some(email), Some(kind)) {
        assert j == k;
      }
    }
  }
}
