/**
 * What the escrow handler promises, stated about `Server.Step` and about
 * runs of handled connections. Concurrent handlers are modelled as a
 * sequence of atomic steps.
 */
module ServerProperties {
  import opened Server

  // ---------------------------------------------------------------------
  // Lockout
  // ---------------------------------------------------------------------

  /** A banned peer gets BANNED and nothing in the state changes. */
  lemma BannedPeerIsRefused(config: ServerConfig, s: ServerState, request: PrivateKeyExchange, peer: string, now: Minutes)
    requires peer in s.blacklist && s.blacklist[peer].BannedUntil > now
    ensures Step(config, s, request, peer, now) == Handled(s, Reply(Banned))
  {
  }

  /**
   * No password check happens for a banned peer: the outcome is the same
   * whatever the check and the master hash are, and whatever was sent.
   */
  lemma BannedIgnoresPasswordCheck(config1: ServerConfig, config2: ServerConfig, s: ServerState,
                                   request1: PrivateKeyExchange, request2: PrivateKeyExchange, peer: string, now: Minutes)
    requires IsBanned(s.blacklist, peer, now)
    ensures Step(config1, s, request1, peer, now) == Step(config2, s, request2, peer, now)
  {
  }

  /**
   * The lockout is keyed by the whole peer address, host and source port:
   * while one address is banned, any other address (the same host on
   * another port included) is refused exactly when its own record bans it,
   * and the ban of the first stays as it was.
   */
  lemma BanIsPerAddress(config: ServerConfig, s: ServerState, request: PrivateKeyExchange,
                        banned: string, peer: string, now: Minutes)
    requires IsBanned(s.blacklist, banned, now)
    requires peer != banned
    ensures var h := Step(config, s, request, peer, now);
      && (h.reply == Reply(Banned) <==> IsBanned(s.blacklist, peer, now))
      && banned in h.state.blacklist && h.state.blacklist[banned] == s.blacklist[banned]
  {
  }

  /** A first failure opens a record with count 1 that ends now, so it does not block yet. */
  lemma FirstFailureOpensRecord(config: ServerConfig, s: ServerState, request: PrivateKeyExchange, peer: string, now: Minutes)
    requires peer !in s.blacklist
    requires !config.checkPasswordHash(request.PasswordHash, config.masterPasswordHash)
    ensures var h := Step(config, s, request, peer, now);
      && h.reply == Reply(WrongCredentials)
      && h.state == s.(blacklist := s.blacklist[peer := Fail2Ban(peer, 1, now)])
      && !IsBanned(h.state.blacklist, peer, now)
  {
  }

  /**
   * A later failure while not banned: the count goes up by one and the lock
   * is extended by the old count, so BannedUntil strictly increases; nothing
   * else changes.
   */
  lemma RepeatedFailureEscalates(config: ServerConfig, s: ServerState, request: PrivateKeyExchange, peer: string, now: Minutes)
    requires GuardInvariant(s.blacklist)
    requires peer in s.blacklist && s.blacklist[peer].BannedUntil <= now
    requires !config.checkPasswordHash(request.PasswordHash, config.masterPasswordHash)
    ensures var h := Step(config, s, request, peer, now);
      var old_ := s.blacklist[peer];
      && h.reply == Reply(WrongCredentials)
      && h.state == s.(blacklist := s.blacklist[peer := Fail2Ban(peer, old_.FailCount + 1, old_.BannedUntil + old_.FailCount)])
      && h.state.blacklist[peer].BannedUntil > old_.BannedUntil
  {
  }

  /**
   * A successful check drops the peer's record and leaves every other
   * peer's record as it was.
   */
  lemma SuccessClearsOnlyThatPeer(config: ServerConfig, s: ServerState, request: PrivateKeyExchange, peer: string, now: Minutes)
    requires !IsBanned(s.blacklist, peer, now)
    requires config.checkPasswordHash(request.PasswordHash, config.masterPasswordHash)
    ensures var h := Step(config, s, request, peer, now);
      && h.state.blacklist == s.blacklist - {peer}
      && forall p :: p != peer ==> (p in h.state.blacklist <==> p in s.blacklist)
  {
  }

  /** After a success, the next failure starts the count from 1 again. */
  lemma SuccessResetsFailCount(config: ServerConfig, s: ServerState, good: PrivateKeyExchange, bad: PrivateKeyExchange,
                               peer: string, t1: Minutes, t2: Minutes)
    requires !IsBanned(s.blacklist, peer, t1)
    requires config.checkPasswordHash(good.PasswordHash, config.masterPasswordHash)
    requires !config.checkPasswordHash(bad.PasswordHash, config.masterPasswordHash)
    ensures var s1 := Step(config, s, good, peer, t1).state;
      var h := Step(config, s1, bad, peer, t2);
      h.reply == Reply(WrongCredentials) && h.state.blacklist[peer] == Fail2Ban(peer, 1, t2)
  {
    var h1 := Step(config, s, good, peer, t1);
    assert peer !in h1.state.blacklist;
  }

  /** The blacklist update alone: `n` failures from a peer with no record, the first at `start`. */
  function Failures(blacklist: Blacklist, peer: string, start: Minutes, n: nat): (r: Blacklist)
    decreases n
    ensures n > 0 ==> peer in r
  {
    if n == 0 then blacklist else RecordFailure(Failures(blacklist, peer, start, n - 1), peer, start)
  }

  /**
   * `n` applications of the failure update, the ban test of `Step` aside.
   * Only the first failure's time matters; afterwards the lock grows from
   * its own end (`LaterFailureIgnoresClock`), so one timestamp is as general
   * as many. After `n` failures the count is `n` and the lock ends n(n-1)/2
   * minutes after the first failure.
   */
  lemma {:induction false} FailuresEscalateQuadratically(blacklist: Blacklist, peer: string, start: Minutes, n: nat)
    requires peer !in blacklist && n > 0
    ensures Failures(blacklist, peer, start, n)[peer].FailCount == n
    ensures 2 * (Failures(blacklist, peer, start, n)[peer].BannedUntil - start) == n * (n - 1)
  {
    if n > 1 {
      FailuresEscalateQuadratically(blacklist, peer, start, n - 1);
    }
  }

  /** The time of any failure after the first one does not enter the update. */
  lemma LaterFailureIgnoresClock(blacklist: Blacklist, peer: string, t1: Minutes, t2: Minutes)
    requires peer in blacklist
    ensures RecordFailure(blacklist, peer, t1) == RecordFailure(blacklist, peer, t2)
  {
  }

  /**
   * Three wrong passwords from a fresh peer, each sent once the previous
   * lock is over, leave a lock ending three minutes after the first; a
   * fourth request inside that window is BANNED whatever it carries.
   */
  lemma ThreeFailuresThenBanned(config: ServerConfig, s: ServerState, bad: PrivateKeyExchange, any: PrivateKeyExchange,
                                peer: string, t1: Minutes, t2: Minutes, t3: Minutes, t4: Minutes)
    requires peer !in s.blacklist
    requires !config.checkPasswordHash(bad.PasswordHash, config.masterPasswordHash)
    requires t1 <= t2 && t1 + 1 <= t3 && t4 < t1 + 3
    ensures var s1 := Step(config, s, bad, peer, t1).state;
      var s2 := Step(config, s1, bad, peer, t2).state;
      var h3 := Step(config, s2, bad, peer, t3);
      && s2.blacklist[peer].BannedUntil > s1.blacklist[peer].BannedUntil
      && h3.state.blacklist[peer].BannedUntil > s2.blacklist[peer].BannedUntil
      && h3.state.blacklist[peer] == Fail2Ban(peer, 3, t1 + 3)
      && Step(config, h3.state, any, peer, t4) == Handled(h3.state, Reply(Banned))
  {
    var s1 := Step(config, s, bad, peer, t1).state;
    assert s1.blacklist[peer] == Fail2Ban(peer, 1, t1);
    var s2 := Step(config, s1, bad, peer, t2).state;
    assert s2.blacklist[peer] == Fail2Ban(peer, 2, t1 + 1);
  }

  /** Every handled connection keeps the lockout records well formed. */
  lemma StepPreservesGuardInvariant(config: ServerConfig, s: ServerState, request: PrivateKeyExchange, peer: string, now: Minutes)
    requires GuardInvariant(s.blacklist)
    ensures GuardInvariant(Step(config, s, request, peer, now).state.blacklist)
  {
  }

  /**
   * No record's lock ever moves earlier: a record that survives a step ends
   * no sooner than before.
   */
  lemma BannedUntilNeverDecreases(config: ServerConfig, s: ServerState, request: PrivateKeyExchange, peer: string, now: Minutes)
    requires GuardInvariant(s.blacklist)
    ensures var b := Step(config, s, request, peer, now).state.blacklist;
      forall p :: p in s.blacklist && p in b ==> b[p].BannedUntil >= s.blacklist[p].BannedUntil
  {
  }

  /** A wrong password from a peer that is not banned changes only the blacklist. */
  lemma FailureTouchesOnlyBlacklist(config: ServerConfig, s: ServerState, request: PrivateKeyExchange, peer: string, now: Minutes)
    requires !config.checkPasswordHash(request.PasswordHash, config.masterPasswordHash)
    ensures var h := Step(config, s, request, peer, now);
      && h.reply == (if IsBanned(s.blacklist, peer, now) then Reply(Banned) else Reply(WrongCredentials))
      && h.state.settings == s.settings && h.state.files == s.files && h.state.settingsLog == s.settingsLog
  {
  }

  // ---------------------------------------------------------------------
  // Escrow
  // ---------------------------------------------------------------------

  /** An authenticated request that passes the ban test. */
  ghost predicate Authenticated(config: ServerConfig, s: ServerState, request: PrivateKeyExchange, peer: string, now: Minutes) {
    !IsBanned(s.blacklist, peer, now) && config.checkPasswordHash(request.PasswordHash, config.masterPasswordHash)
  }

  /** STORE when a key is on record: refused, and nothing but the blacklist changes. */
  lemma StoreRefusedWhenKeyExists(config: ServerConfig, s: ServerState, request: PrivateKeyExchange, peer: string, now: Minutes)
    requires Authenticated(config, s, request, peer, now) && request.Type == StorePrivateKey
    requires PrivateKeySetting in s.settings
    ensures var h := Step(config, s, request, peer, now);
      h.reply == Reply(PrivateKeyAlreadyExists) && h.state == s.(blacklist := s.blacklist - {peer})
  {
  }

  /**
   * STORE with no key on record: the key is written to PRIVATE_KEY_LOCATION,
   * the setting points there, the settings are persisted once and the
   * reply is PRIVATE_KEY_SAVED.
   */
  lemma StoreSavesKey(config: ServerConfig, s: ServerState, request: PrivateKeyExchange, peer: string, now: Minutes)
    requires Authenticated(config, s, request, peer, now) && request.Type == StorePrivateKey
    requires PrivateKeySetting !in s.settings
    ensures var h := Step(config, s, request, peer, now);
      && h.reply == Reply(PrivateKeySaved)
      && h.state.files == s.files[config.privateKeyLocation := request.PrivateKey]
      && h.state.settings == s.settings[PrivateKeySetting := config.privateKeyLocation]
      && h.state.settingsLog == s.settingsLog + [h.state.settings]
  {
  }

  /** The same STORE twice gives SAVED, then ALREADY_EXISTS. */
  lemma RepeatedStoreRefused(config: ServerConfig, s: ServerState, request: PrivateKeyExchange, peer: string, t1: Minutes, t2: Minutes)
    requires Authenticated(config, s, request, peer, t1) && request.Type == StorePrivateKey
    requires PrivateKeySetting !in s.settings
    ensures var h1 := Step(config, s, request, peer, t1);
      var h2 := Step(config, h1.state, request, peer, t2);
      && h1.reply.Type == PrivateKeySaved
      && h2.reply.Type == PrivateKeyAlreadyExists
      && h2.state.files == h1.state.files && h2.state.settings == h1.state.settings
  {
    var h1 := Step(config, s, request, peer, t1);
    assert peer !in h1.state.blacklist;
  }

  /** GET on a recorded key file returns its contents unchanged, tagged GET_PRIVATE_KEY. */
  lemma GetReturnsStoredKey(config: ServerConfig, s: ServerState, request: PrivateKeyExchange, peer: string, now: Minutes)
    requires Authenticated(config, s, request, peer, now) && request.Type == GetPrivateKey
    requires PrivateKeySetting in s.settings
    requires s.settings[PrivateKeySetting] != "" && s.settings[PrivateKeySetting] in s.files
    ensures var h := Step(config, s, request, peer, now);
      && h.reply == PrivateKeyExchange("", s.files[s.settings[PrivateKeySetting]], GetPrivateKey)
      && h.state == s.(blacklist := s.blacklist - {peer})
  {
  }

  /**
   * A key escrowed by STORE comes back byte for byte
   * from a later GET, from any peer that is not banned, whatever was stored
   * at PRIVATE_KEY_LOCATION before (the write replaces the file).
   */
  lemma StoreThenGetReturnsKey(config: ServerConfig, s: ServerState, store: PrivateKeyExchange, get: PrivateKeyExchange,
                               peer1: string, peer2: string, t1: Minutes, t2: Minutes)
    requires config.privateKeyLocation != ""
    requires Authenticated(config, s, store, peer1, t1) && store.Type == StorePrivateKey
    requires PrivateKeySetting !in s.settings
    requires var s1 := Step(config, s, store, peer1, t1).state; Authenticated(config, s1, get, peer2, t2)
    requires get.Type == GetPrivateKey
    ensures var s1 := Step(config, s, store, peer1, t1).state;
      Step(config, s1, get, peer2, t2).reply == PrivateKeyExchange("", store.PrivateKey, GetPrivateKey)
  {
    var s1 := Step(config, s, store, peer1, t1).state;
    assert s1.settings[PrivateKeySetting] == config.privateKeyLocation;
    assert s1.files[config.privateKeyLocation] == store.PrivateKey;
  }

  /** An authenticated request of any other type gets the zero message. */
  lemma OtherTypeGetsZeroMessage(config: ServerConfig, s: ServerState, request: PrivateKeyExchange, peer: string, now: Minutes)
    requires Authenticated(config, s, request, peer, now)
    requires request.Type != GetPrivateKey && request.Type != StorePrivateKey
    ensures var h := Step(config, s, request, peer, now);
      h.reply == ZeroMessage && h.state == s.(blacklist := s.blacklist - {peer})
  {
  }

  /**
   * The reply never carries a password hash, its type is one of the reply
   * kinds (or empty), and only a GET reply can carry key material.
   */
  lemma ReplyShape(config: ServerConfig, s: ServerState, request: PrivateKeyExchange, peer: string, now: Minutes)
    ensures var r := Step(config, s, request, peer, now).reply;
      && r.PasswordHash == ""
      && r.Type in {Banned, WrongCredentials, GetPrivateKey, PrivateKeyAlreadyExists, PrivateKeySaved, ""}
      && (r.PrivateKey != "" ==> r.Type == GetPrivateKey)
  {
  }

  // ---------------------------------------------------------------------
  // Runs of connections
  // ---------------------------------------------------------------------

  /** One inbound connection: the decoded request, the peer and the arrival time. */
  datatype Connection = Connection(request: PrivateKeyExchange, peer: string, now: Minutes)

  /** A run: the final state and the replies, one per connection, in order. */
  datatype Trace = Trace(state: ServerState, replies: seq<PrivateKeyExchange>)

  /** Connections handled one after another, each atomically. */
  function Run(config: ServerConfig, s: ServerState, connections: seq<Connection>): (t: Trace)
    decreases |connections|
    ensures |t.replies| == |connections|
  {
    if connections == [] then Trace(s, [])
    else
      var c := connections[0];
      var h := Step(config, s, c.request, c.peer, c.now);
      var rest := Run(config, h.state, connections[1..]);
      Trace(rest.state, [h.reply] + rest.replies)
  }

  /** `b` agrees with `a` on every path of `a`. */
  ghost predicate Extends(a: map<string, string>, b: map<string, string>) {
    forall p :: p in a ==> p in b && b[p] == a[p]
  }

  /**
   * Once a key is on record it is never overwritten: over any run the
   * settings stay as they are, no existing file changes, and no reply is
   * PRIVATE_KEY_SAVED.
   */
  lemma {:induction false} EscrowedKeyIsNeverOverwritten(config: ServerConfig, s: ServerState, connections: seq<Connection>)
    requires PrivateKeySetting in s.settings
    ensures var t := Run(config, s, connections);
      && t.state.settings == s.settings
      && t.state.settingsLog == s.settingsLog
      && Extends(s.files, t.state.files)
      && forall i :: 0 <= i < |t.replies| ==> t.replies[i].Type != PrivateKeySaved
    decreases |connections|
  {
    if connections != [] {
      var c := connections[0];
      var h := Step(config, s, c.request, c.peer, c.now);
      assert h.state.settings == s.settings && h.state.settingsLog == s.settingsLog;
      assert Extends(s.files, h.state.files);
      EscrowedKeyIsNeverOverwritten(config, h.state, connections[1..]);
      var rest := Run(config, h.state, connections[1..]);
      assert Run(config, s, connections).replies == [h.reply] + rest.replies;
    }
  }

  /** Over any run, at most one connection is answered PRIVATE_KEY_SAVED. */
  lemma {:induction false} KeySavedAtMostOnce(config: ServerConfig, s: ServerState, connections: seq<Connection>)
    ensures var r := Run(config, s, connections).replies;
      forall i, j :: 0 <= i < j < |r| ==> !(r[i].Type == PrivateKeySaved && r[j].Type == PrivateKeySaved)
    decreases |connections|
  {
    if connections != [] {
      var c := connections[0];
      var h := Step(config, s, c.request, c.peer, c.now);
      var rest := Run(config, h.state, connections[1..]);
      var r := Run(config, s, connections).replies;
      assert r == [h.reply] + rest.replies;
      KeySavedAtMostOnce(config, h.state, connections[1..]);
      if h.reply.Type == PrivateKeySaved {
        assert PrivateKeySetting in h.state.settings;
        EscrowedKeyIsNeverOverwritten(config, h.state, connections[1..]);
      }
      forall i, j | 0 <= i < j < |r|
        ensures !(r[i].Type == PrivateKeySaved && r[j].Type == PrivateKeySaved)
      {
        assert r[j] == rest.replies[j - 1];
        if i > 0 {
          assert r[i] == rest.replies[i - 1];
        }
      }
    }
  }

  /** Every run keeps the lockout records well formed. */
  lemma {:induction false} RunPreservesGuardInvariant(config: ServerConfig, s: ServerState, connections: seq<Connection>)
    requires GuardInvariant(s.blacklist)
    ensures GuardInvariant(Run(config, s, connections).state.blacklist)
    decreases |connections|
  {
    if connections != [] {
      var c := connections[0];
      StepPreservesGuardInvariant(config, s, c.request, c.peer, c.now);
      RunPreservesGuardInvariant(config, Step(config, s, c.request, c.peer, c.now).state, connections[1..]);
    }
  }

  // ---------------------------------------------------------------------
  // The STORE write as the source performs it
  // ---------------------------------------------------------------------

  /**
   * The key file is opened O_WRONLY|O_CREATE without O_TRUNC: the new bytes
   * overwrite the front of an existing file and its longer tail remains.
   */
  function WriteWithoutTruncate(files: map<string, string>, path: string, data: string): (r: map<string, string>)
    ensures r.Keys == files.Keys + {path}
    ensures path !in files ==> r[path] == data
    ensures path in files ==> |r[path]| == if |files[path]| > |data| then |files[path]| else |data|
    ensures r[path][..|data|] == data
    ensures path in files && |files[path]| > |data| ==> r[path][|data|..] == files[path][|data|..]
    ensures forall p :: p in files && p != path ==> r[p] == files[p]
  {
    var previous := if path in files then files[path] else "";
    files[path := if |previous| > |data| then data + previous[|data|..] else data]
  }

  /**
   * A STORE onto a longer leftover file at PRIVATE_KEY_LOCATION (a key file
   * whose settings entry was lost) escrows a different key from the one
   * sent: "XY" over "ABCDEF" reads back as "XYCDEF".
   */
  lemma UntruncatedStoreCorruptsKey()
    ensures WriteWithoutTruncate(map["/home/u/harpocrates" := "ABCDEF"], "/home/u/harpocrates", "XY")["/home/u/harpocrates"] == "XYCDEF"
    ensures WriteWithoutTruncate(map["/home/u/harpocrates" := "ABCDEF"], "/home/u/harpocrates", "XY")["/home/u/harpocrates"] != "XY"
  {
    var r := WriteWithoutTruncate(map["/home/u/harpocrates" := "ABCDEF"], "/home/u/harpocrates", "XY");
    assert r["/home/u/harpocrates"] == "XY" + "CDEF";
  }
}
