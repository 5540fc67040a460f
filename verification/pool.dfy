/**
 * Session-pool construction and teardown. Every credential goes through three
 * provider steps (create a session, open its connection, ask who the account
 * is); a failure at any step drops the credential, and a failure after the
 * session exists closes it first. Survivors join the pool in credential order.
 */
module Pool {
  import opened Errors
  import opened Lines

  /** What the session provider does with one credential. */
  datatype Login =
    | CreateFailed               // no session could be created from the token
    | OpenFailed                 // the session exists but its connection did not open
    | UserFailed                 // the connection opened but asking for "@me" failed
    | LoggedIn(username: string)

  /** The provider's answer for the credential at a given position. */
  type Provider = (nat, string) -> Login

  /** A session handle: the one created from the token at position `slot`. */
  datatype Session = Session(slot: nat, token: string)

  /** A pool entry: an open session and the account's display name. */
  datatype UserSession = UserSession(session: Session, username: string)

  /** The pool built from a credential list, and the sessions closed while building it. */
  datatype Build = Build(pool: seq<UserSession>, closed: seq<Session>)

  /** The session that the token at position `i` yields, if it is created at all. */
  function SessionFor(tokens: seq<string>, i: nat): Session
    requires i < |tokens|
  {
    Session(i, tokens[i])
  }

  /** The positions of the tokens behind a sequence of sessions. */
  function Slots(sessions: seq<Session>): (slots: seq<nat>)
    ensures |slots| == |sessions|
  {
    seq(|sessions|, k requires 0 <= k < |sessions| => sessions[k].slot)
  }

  /** The token at position `i` got a session that was closed again during construction. */
  predicate ClosedEarly(tokens: seq<string>, provider: Provider, i: nat)
    requires i < |tokens|
  {
    provider(i, tokens[i]).OpenFailed? || provider(i, tokens[i]).UserFailed?
  }

  /** Pool entry `u` is the session of its token, under the name the provider reported. */
  predicate PooledFrom(tokens: seq<string>, provider: Provider, u: UserSession) {
    && u.session.slot < |tokens|
    && u.session == SessionFor(tokens, u.session.slot)
    && provider(u.session.slot, u.session.token) == LoggedIn(u.username)
  }

  /** The session `s` is the one created from its own token. */
  predicate CreatedFrom(tokens: seq<string>, s: Session) {
    s.slot < |tokens| && s == SessionFor(tokens, s.slot)
  }

  /**
   * The loop of Initialize over a non-empty credential list: every pooled or
   * closed session is one created from its own token. BuildPoolExact states
   * which ones.
   */
  function BuildPool(tokens: seq<string>, provider: Provider): (b: Build)
    ensures |b.pool| + |b.closed| <= |tokens|
    ensures forall k :: 0 <= k < |b.pool| ==> CreatedFrom(tokens, b.pool[k].session)
    ensures forall k :: 0 <= k < |b.closed| ==> CreatedFrom(tokens, b.closed[k])
    decreases |tokens|
  {
    if |tokens| == 0 then Build([], [])
    else
      var i := |tokens| - 1;
      var b := BuildPool(tokens[..i], provider);
      var s := Session(i, tokens[i]);
      match provider(i, tokens[i])
      case CreateFailed => b
      case OpenFailed => Build(b.pool, b.closed + [s])
      case UserFailed => Build(b.pool, b.closed + [s])
      case LoggedIn(name) => Build(b.pool + [UserSession(s, name)], b.closed)
  }

  /**
   * The pool holds exactly the credentials whose three steps all succeeded,
   * under the name the provider reported, in credential order; exactly the
   * sessions that failed to open or to identify their account are closed, in
   * credential order.
   */
  predicate PoolExact(tokens: seq<string>, provider: Provider, b: Build) {
    && (forall k :: 0 <= k < |b.pool| ==> PooledFrom(tokens, provider, b.pool[k]))
    && Increasing(Slots(Close(b.pool)))
    && (forall i :: 0 <= i < |tokens| ==> (i in Slots(Close(b.pool)) <==> provider(i, tokens[i]).LoggedIn?))
  }

  predicate ClosedExact(tokens: seq<string>, provider: Provider, b: Build) {
    && (forall k :: 0 <= k < |b.closed| ==> CreatedFrom(tokens, b.closed[k]))
    && Increasing(Slots(b.closed))
    && (forall i :: 0 <= i < |tokens| ==> (i in Slots(b.closed) <==> ClosedEarly(tokens, provider, i)))
  }

  lemma BuildPoolExact(tokens: seq<string>, provider: Provider)
    ensures PoolExact(tokens, provider, BuildPool(tokens, provider))
    ensures ClosedExact(tokens, provider, BuildPool(tokens, provider))
  {
    PoolExactByInduction(tokens, provider);
    ClosedExactByInduction(tokens, provider);
  }

  lemma {:induction false} PoolExactByInduction(tokens: seq<string>, provider: Provider)
    ensures PoolExact(tokens, provider, BuildPool(tokens, provider))
    decreases |tokens|
  {
    if |tokens| > 0 {
      var i := |tokens| - 1;
      var b := BuildPool(tokens[..i], provider);
      PoolExactByInduction(tokens[..i], provider);
      var o := provider(i, tokens[i]);
      if o.LoggedIn? {
        PoolSlotsAppend(b.pool, UserSession(Session(i, tokens[i]), o.username));
      } else {
        assert BuildPool(tokens, provider).pool == b.pool;
      }
    }
  }

  lemma {:induction false} ClosedExactByInduction(tokens: seq<string>, provider: Provider)
    ensures ClosedExact(tokens, provider, BuildPool(tokens, provider))
    decreases |tokens|
  {
    if |tokens| > 0 {
      var i := |tokens| - 1;
      var b := BuildPool(tokens[..i], provider);
      ClosedExactByInduction(tokens[..i], provider);
      var o := provider(i, tokens[i]);
      if o.OpenFailed? || o.UserFailed? {
        SlotsAppend(b.closed, Session(i, tokens[i]));
      } else {
        assert BuildPool(tokens, provider).closed == b.closed;
      }
    }
  }

  lemma SlotsAppend(sessions: seq<Session>, s: Session)
    ensures Slots(sessions + [s]) == Slots(sessions) + [s.slot]
  {
  }

  lemma PoolSlotsAppend(pool: seq<UserSession>, u: UserSession)
    ensures Slots(Close(pool + [u])) == Slots(Close(pool)) + [u.session.slot]
  {
    CloseAppend(pool, u);
    SlotsAppend(Close(pool), u.session);
  }

  /**
   * Initialize: read the credential file and build the pool. Only an
   * unreadable file or a file without credentials is an error; credentials
   * that all fail to log in still give a successful, empty pool.
   */
  function Initialize(tokenFile: File, provider: Provider): (r: Result<Build>)
    ensures !tokenFile.Contents? ==> r == Err(TokensUnreadable)
    ensures tokenFile.Contents? ==> (r.Err? <==> ReadFile(tokenFile).value == [])
    ensures tokenFile.Contents? && r.Err? ==> r.error == NoTokens
    ensures r.Ok? ==> r.value == BuildPool(ReadFile(tokenFile).value, provider)
    ensures r.Err? ==> r.error != NoUsableAccounts
    ensures r.Ok? ==> |r.value.pool| + |r.value.closed| <= |ReadFile(tokenFile).value|
  {
    match ReadFile(tokenFile)
    case None => Err(TokensUnreadable)
    case Some(tokens) =>
      if |tokens| == 0 then Err(NoTokens) else Ok(BuildPool(tokens, provider))
  }

  /** Close: the sessions released at shutdown, one per pool entry, in pool order. */
  function Close(pool: seq<UserSession>): seq<Session> {
    seq(|pool|, k requires 0 <= k < |pool| => pool[k].session)
  }

  /** No session of a later position is released by the pool built from `tokens`. */
  lemma ReleasedBefore(tokens: seq<string>, provider: Provider, s: Session)
    requires s.slot >= |tokens|
    ensures multiset(Released(tokens, provider))[s] == 0
  {
    var b := BuildPool(tokens, provider);
    var all := Released(tokens, provider);
    assert forall k :: 0 <= k < |all| ==> all[k].slot < |tokens|;
    assert s !in all;
  }

  /** All sessions released over the life of the pool built from `tokens`. */
  function Released(tokens: seq<string>, provider: Provider): seq<Session> {
    var b := BuildPool(tokens, provider);
    b.closed + Close(b.pool)
  }

  lemma CloseAppend(pool: seq<UserSession>, u: UserSession)
    ensures Close(pool + [u]) == Close(pool) + [u.session]
  {
  }

  lemma MultisetInsert(a: seq<Session>, b: seq<Session>, s: Session)
    ensures multiset(a + [s] + b) == multiset(a + b) + multiset{s}
  {
  }

  /** The sessions a credential's own outcome adds to the releases. */
  function OwnRelease(tokens: seq<string>, provider: Provider, i: nat): multiset<Session>
    requires i < |tokens|
  {
    if provider(i, tokens[i]).CreateFailed? then multiset{} else multiset{SessionFor(tokens, i)}
  }

  /** Extending the credentials by one adds that credential's session to the releases, if it was created. */
  lemma ReleasedStep(tokens: seq<string>, provider: Provider)
    requires |tokens| > 0
    ensures multiset(Released(tokens, provider)) ==
      multiset(Released(tokens[..|tokens| - 1], provider)) + OwnRelease(tokens, provider, |tokens| - 1)
  {
    var n := |tokens| - 1;
    var b := BuildPool(tokens[..n], provider);
    var s := Session(n, tokens[n]);
    var o := provider(n, tokens[n]);
    if o.CreateFailed? {
      assert BuildPool(tokens, provider) == b;
    } else if o.OpenFailed? || o.UserFailed? {
      assert BuildPool(tokens, provider) == Build(b.pool, b.closed + [s]);
      MultisetInsert(b.closed, Close(b.pool), s);
    } else {
      assert BuildPool(tokens, provider) == Build(b.pool + [UserSession(s, o.username)], b.closed);
      CloseAppend(b.pool, UserSession(s, o.username));
      assert Released(tokens, provider) == b.closed + Close(b.pool) + [s];
    }
  }

  /**
   * Every session that was created is released exactly once: either during
   * construction, because it failed to open or identify its account, or at
   * shutdown, because it is in the pool. A token that never got a session
   * causes no release.
   */
  lemma {:induction false} SessionsReleasedOnce(tokens: seq<string>, provider: Provider, i: nat)
    requires i < |tokens|
    ensures multiset(Released(tokens, provider))[SessionFor(tokens, i)] ==
      if provider(i, tokens[i]).CreateFailed? then 0 else 1
    decreases |tokens|
  {
    var n := |tokens| - 1;
    if i < n {
      SessionsReleasedOnce(tokens[..n], provider, i);
      ReleasedEarlier(tokens, provider, i);
    } else {
      ReleasedLast(tokens, provider);
    }
  }

  /** A credential before the last one keeps the release count it had without the last one. */
  lemma ReleasedEarlier(tokens: seq<string>, provider: Provider, i: nat)
    requires i < |tokens| - 1
    requires multiset(Released(tokens[..|tokens| - 1], provider))[SessionFor(tokens[..|tokens| - 1], i)] ==
      if provider(i, tokens[..|tokens| - 1][i]).CreateFailed? then 0 else 1
    ensures multiset(Released(tokens, provider))[SessionFor(tokens, i)] ==
      if provider(i, tokens[i]).CreateFailed? then 0 else 1
  {
    ReleasedStep(tokens, provider);
    assert SessionFor(tokens[..|tokens| - 1], i) == SessionFor(tokens, i);
  }

  /** The last credential's session is released once if it was created, never otherwise. */
  lemma ReleasedLast(tokens: seq<string>, provider: Provider)
    requires |tokens| > 0
    ensures multiset(Released(tokens, provider))[SessionFor(tokens, |tokens| - 1)] ==
      if provider(|tokens| - 1, tokens[|tokens| - 1]).CreateFailed? then 0 else 1
  {
    ReleasedStep(tokens, provider);
    ReleasedBefore(tokens[..|tokens| - 1], provider, SessionFor(tokens, |tokens| - 1));
  }

  /** Corrected initialisation: an empty pool is reported as an error instead of returned. */
  function InitializeWithAccounts(tokenFile: File, provider: Provider): (r: Result<Build>)
    ensures r.Ok? ==> |r.value.pool| > 0
    ensures r.Ok? <==> Initialize(tokenFile, provider).Ok? && |Initialize(tokenFile, provider).value.pool| > 0
    ensures Initialize(tokenFile, provider).Err? ==> r == Initialize(tokenFile, provider)
    ensures r.Ok? ==> r == Initialize(tokenFile, provider)
    ensures Initialize(tokenFile, provider).Ok? && |Initialize(tokenFile, provider).value.pool| == 0 ==>
      r == Err(NoUsableAccounts)
  {
    match Initialize(tokenFile, provider)
    case Err(e) => Err(e)
    case Ok(b) => if |b.pool| == 0 then Err(NoUsableAccounts) else Ok(b)
  }

  /**
   * As written, Initialize succeeds with an empty pool whenever a non-empty
   * credential list is rejected token by token.
   */
  lemma InitializeAcceptsNoAccounts(tokenFile: File, provider: Provider)
    requires tokenFile.Contents? && ReadFile(tokenFile).value != []
    requires forall i :: 0 <= i < |ReadFile(tokenFile).value| ==>
      !provider(i, ReadFile(tokenFile).value[i]).LoggedIn?
    ensures Initialize(tokenFile, provider) == Ok(BuildPool(ReadFile(tokenFile).value, provider))
    ensures Initialize(tokenFile, provider).value.pool == []
  {
    NoLoginNoPool(ReadFile(tokenFile).value, provider);
  }

  /** Without a single successful login the pool stays empty. */
  lemma {:induction false} NoLoginNoPool(tokens: seq<string>, provider: Provider)
    requires forall i :: 0 <= i < |tokens| ==> !provider(i, tokens[i]).LoggedIn?
    ensures BuildPool(tokens, provider).pool == []
    decreases |tokens|
  {
    if |tokens| > 0 {
      NoLoginNoPool(tokens[..|tokens| - 1], provider);
    }
  }

  /** One rejected token is enough: the pool comes back empty and no error is reported. */
  lemma OneRejectedToken()
    ensures Initialize(Contents("bad-token\n"), (i, t) => CreateFailed) == Ok(Build([], []))
  {
    ReadFileRoundTrip(["bad-token"]);
    assert JoinLines(["bad-token"]) == "bad-token\n";
    InitializeAcceptsNoAccounts(Contents("bad-token\n"), (i, t) => CreateFailed);
  }

  /** The corrected initialisation reports the same situation as an error. */
  lemma InitializeWithAccountsRejectsNoAccounts()
    ensures InitializeWithAccounts(Contents("bad-token\n"), (i, t) => CreateFailed) == Err(NoUsableAccounts)
  {
    OneRejectedToken();
  }
}
