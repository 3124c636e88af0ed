/**
 * The escrow server's per-connection handler (server/server.go) with its
 * fail2ban lockout. One call of `Handle` is one connection: a decoded
 * request, the peer's address and the current time in, exactly one reply
 * out, and the shared state (blacklist, settings, key files) updated.
 */
module Server {
  import Storage

  // Reply kinds (server/server.go:21-31).
  const WrongCredentials: string := "WRONG_CREDENTIALS"
  const Banned: string := "BANNED"
  const PrivateKeyAlreadyExists: string := "PRIVATE_KEY_ALREADY_EXISTS"
  const PrivateKeySaved: string := "MESSAGE_TYPE_PRIVATE_KEY_SAVED"
  // Request kinds; GET_PRIVATE_KEY also tags a successful GET reply.
  const GetPrivateKey: string := "GET_PRIVATE_KEY"
  const StorePrivateKey: string := "STORE_PRIVATE_KEY"

  /** The settings entry that records where the escrowed key lives. */
  const PrivateKeySetting: string := "private_key"

  /** The wire message, requests and replies alike. */
  datatype PrivateKeyExchange = PrivateKeyExchange(PasswordHash: string, PrivateKey: string, Type: string)

  /** A reply that carries only its kind. */
  function Reply(kind: string): PrivateKeyExchange
  {
    PrivateKeyExchange("", "", kind)
  }

  /** Go's zero `PrivateKeyExchange`, sent for a request of unknown type. */
  const ZeroMessage: PrivateKeyExchange := PrivateKeyExchange("", "", "")

  /** A point in time, in whole minutes. */
  type Minutes = int

  /** One peer's lockout record. */
  datatype Fail2Ban = Fail2Ban(IPAddr: string, FailCount: int, BannedUntil: Minutes)

  /** Peer address -> lockout record. */
  type Blacklist = map<string, Fail2Ban>

  /** The handler's ban test: a record exists and it ends strictly after now. */
  predicate IsBanned(blacklist: Blacklist, peer: string, now: Minutes) {
    peer in blacklist && blacklist[peer].BannedUntil > now
  }

  /**
   * A failed password check against `peer`: a first failure opens a record
   * that does not block yet; a later one adds one to the count and extends
   * the lock by the old count in minutes.
   */
  function RecordFailure(blacklist: Blacklist, peer: string, now: Minutes): (r: Blacklist)
    ensures r.Keys == blacklist.Keys + {peer}
    ensures forall p :: p in blacklist && p != peer ==> r[p] == blacklist[p]
    ensures peer !in blacklist ==> r[peer] == Fail2Ban(peer, 1, now)
    ensures peer in blacklist ==>
      && r[peer].IPAddr == blacklist[peer].IPAddr
      && r[peer].FailCount == blacklist[peer].FailCount + 1
      && r[peer].BannedUntil == blacklist[peer].BannedUntil + blacklist[peer].FailCount
  {
    if peer !in blacklist then
      blacklist[peer := Fail2Ban(peer, 1, now)]
    else
      var val := blacklist[peer];
      blacklist[peer := Fail2Ban(val.IPAddr, val.FailCount + 1, val.BannedUntil + val.FailCount)]
  }

  /** A successful password check: the peer's record, if any, is dropped. */
  function RecordSuccess(blacklist: Blacklist, peer: string): (r: Blacklist)
    ensures peer !in r
    ensures r.Keys == blacklist.Keys - {peer}
    ensures forall p :: p in r ==> r[p] == blacklist[p]
  {
    if peer in blacklist then blacklist - {peer} else blacklist
  }

  /** Every record is filed under its own address and counts at least one failure. */
  ghost predicate GuardInvariant(blacklist: Blacklist) {
    forall p :: p in blacklist ==> blacklist[p].IPAddr == p && blacklist[p].FailCount >= 1
  }

  /**
   * The mutable state the handlers share: the blacklist, the in-memory
   * settings map, the file contents by path, and every settings snapshot
   * handed to StoreSettings.
   */
  datatype ServerState = ServerState(
    blacklist: Blacklist,
    settings: map<string, string>,
    files: map<string, string>,
    settingsLog: seq<map<string, string>>)

  /**
   * What a handler cannot change: the password check (core.CheckPasswordHash,
   * not modelled), the master password hash and PRIVATE_KEY_LOCATION.
   */
  datatype ServerConfig = ServerConfig(
    checkPasswordHash: (string, string) -> bool,
    masterPasswordHash: string,
    privateKeyLocation: string)

  /** A handled connection: the new state and the one reply written. */
  datatype Handled = Handled(state: ServerState, reply: PrivateKeyExchange)

  /** Go's `settings[key]`: the value, or "" for a missing key. */
  function Setting(settings: map<string, string>, key: string): string
  {
    if key in settings then settings[key] else ""
  }

  /**
   * The contents read by opening `path` with O_RDONLY|O_CREATE: the empty
   * path cannot be opened and reads as nothing; a missing file is created
   * empty.
   */
  function ReadKeyFile(files: map<string, string>, path: string): (map<string, string>, string)
  {
    if path == "" then (files, "")
    else if path in files then (files, files[path])
    else (files[path := ""], "")
  }

  /** The handler's dispatch after a successful password check. */
  function Dispatch(config: ServerConfig, s: ServerState, request: PrivateKeyExchange): (h: Handled)
    ensures h.state.blacklist == s.blacklist
  {
    if request.Type == GetPrivateKey then
      var (files', contents) := ReadKeyFile(s.files, Setting(s.settings, PrivateKeySetting));
      Handled(s.(files := files'), PrivateKeyExchange("", contents, GetPrivateKey))
    else if request.Type == StorePrivateKey then
      if PrivateKeySetting in s.settings then
        Handled(s, Reply(PrivateKeyAlreadyExists))
      else
        var settings' := s.settings[PrivateKeySetting := config.privateKeyLocation];
        Handled(ServerState(s.blacklist, settings', s.files[config.privateKeyLocation := request.PrivateKey],
                            s.settingsLog + [settings']),
                Reply(PrivateKeySaved))
    else
      Handled(s, ZeroMessage)
  }

  /**
   * One connection, as a function of the state before it: the ban test,
   * then the password check with its blacklist update, then the dispatch.
   */
  function Step(config: ServerConfig, s: ServerState, request: PrivateKeyExchange, peer: string, now: Minutes): (h: Handled)
    ensures h.reply.PasswordHash == ""
  {
    if IsBanned(s.blacklist, peer, now) then
      Handled(s, Reply(Banned))
    else if !config.checkPasswordHash(request.PasswordHash, config.masterPasswordHash) then
      Handled(s.(blacklist := RecordFailure(s.blacklist, peer, now)), Reply(WrongCredentials))
    else
      Dispatch(config, s.(blacklist := RecordSuccess(s.blacklist, peer)), request)
  }

  /** The server: the state its handlers share, and the handler itself. */
  class EscrowServer {
    const config: ServerConfig
    var blacklist: Blacklist
    var settings: map<string, string>
    var files: map<string, string>
    var settingsLog: seq<map<string, string>>

    ghost predicate Valid()
      reads this
    {
      GuardInvariant(blacklist)
    }

    /** The fields, gathered as the state Step works on. */
    function State(): ServerState
      reads this
    {
      ServerState(blacklist, settings, files, settingsLog)
    }

    /**
     * A server over the locations of `storage`, with the settings read at
     * start-up and the files as they are on disk; the blacklist starts empty.
     */
    constructor (storage: Storage.StorageConfig, checkPasswordHash: (string, string) -> bool,
                 masterPasswordHash: string, initialSettings: map<string, string>, initialFiles: map<string, string>)
      ensures Valid()
      ensures config == ServerConfig(checkPasswordHash, masterPasswordHash, storage.privateKeyLocation)
      ensures State() == ServerState(map[], initialSettings, initialFiles, [])
    {
      config := ServerConfig(checkPasswordHash, masterPasswordHash, storage.privateKeyLocation);
      blacklist := map[];
      settings := initialSettings;
      files := initialFiles;
      settingsLog := [];
    }

    /** handleClient on an already decoded request from `peer` at time `now`. */
    method Handle(request: PrivateKeyExchange, peer: string, now: Minutes) returns (reply: PrivateKeyExchange)
      requires Valid()
      modifies this
      ensures Valid()
      ensures State() == Step(config, old(State()), request, peer, now).state
      ensures reply == Step(config, old(State()), request, peer, now).reply
    {
      if peer in blacklist {
        var val := blacklist[peer];
        if val.BannedUntil > now {
          reply := Reply(Banned);
          return;
        }
      }

      var authResult := config.checkPasswordHash(request.PasswordHash, config.masterPasswordHash);

      if !authResult {
        if peer !in blacklist {
          blacklist := blacklist[peer := Fail2Ban(peer, 1, now)];
        } else {
          var val := blacklist[peer];
          var bannedUntil := val.BannedUntil + val.FailCount;
          blacklist := blacklist[peer := Fail2Ban(val.IPAddr, val.FailCount + 1, bannedUntil)];
        }
        reply := Reply(WrongCredentials);
      } else {
        if peer in blacklist {
          blacklist := blacklist - {peer};
        }
        if request.Type == GetPrivateKey {
          var path := if PrivateKeySetting in settings then settings[PrivateKeySetting] else "";
          var contents := "";
          if path != "" {
            if path !in files {
              files := files[path := ""];
            }
            contents := files[path];
          }
          reply := PrivateKeyExchange("", contents, GetPrivateKey);
        } else if request.Type == StorePrivateKey {
          if PrivateKeySetting in settings {
            reply := Reply(PrivateKeyAlreadyExists);
          } else {
            files := files[config.privateKeyLocation := request.PrivateKey];
            settings := settings[PrivateKeySetting := config.privateKeyLocation];
            settingsLog := settingsLog + [settings];
            reply := Reply(PrivateKeySaved);
          }
        } else {
          reply := ZeroMessage;
        }
      }
    }
  }
}
