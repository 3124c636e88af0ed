# harpocrates: escrow server, lockout and password vault in Dafny

harpocrates is a single-user password manager. The user's vault of named
passwords is encrypted with an RSA key pair. The private key is escrowed on a
remote server and handed back only to a client that knows the master
password. This project models three stateful parts of it:

- **The escrow handler** (`handleClient`, server/server.go). It handles one
  decoded request per connection and writes exactly one reply. A ban check
  (the "fail2ban" record of the peer's address) comes first. Then the hash
  of the master password is checked; a failure creates or escalates the
  lockout record and a success clears it. Last, the handler dispatches:
  `GET_PRIVATE_KEY` returns the escrowed key, and `STORE_PRIVATE_KEY` saves
  it once.
  - Module `Server` holds the pure function `Step`, which describes one
    connection.
  - It also holds the class `EscrowServer`, whose fields are mutated in place
    the way the Go handler does it. Its `Handle` method is proved to agree
    with `Step`.
  - Module `ServerProperties` states the protocol's promises about `Step`,
    and about `Run`: a sequence of connections, each handled atomically.
- **The password vault** (`PasswordService`, service/password.go), as module
  `Vault`. It is a class over a `map<string, Password>`, with store, get,
  delete, list and the export rows. Encryption and decryption are function
  values, and `fits` says which plaintexts fit one OAEP block of the public
  key: at most k - 2*64 - 2 bytes for a k-byte modulus, so 382 bytes for a
  4096-bit key and 126 for a 2048-bit one. `RoundTrip` says decryption undoes
  encryption on every plaintext that fits. `OversizeDiscarded` says what
  happens to one that does not: it encrypts to nil, and nil decrypts to "".
  Persisting the vault means appending a snapshot of the whole map to
  `persisted`.
- **The storage locations** (service/storage.go), as module `Storage`.
  `NewStorage` builds the four file locations from the home directory, the
  path separator and the mode. `ReadPasswords` turns a nil decode into an
  empty map. The server takes `PRIVATE_KEY_LOCATION` from the
  `StorageConfig` it is constructed with.

Abstractions:
- Time is in whole minutes and is passed in as `now`.
- The file system is a map from path to contents.
- Settings persistence appends a snapshot to `settingsLog`.
- The password check (`core.CheckPasswordHash`) is a function field of
  `ServerConfig`.
- The home directory (`user.Current().HomeDir`) and the path separator are
  parameters.

Behaviour of the code that the model keeps:
- Reply tags. A saved key is answered `MESSAGE_TYPE_PRIVATE_KEY_SAVED` and a
  refused STORE is answered `PRIVATE_KEY_ALREADY_EXISTS`. A successful GET
  reuses the tag `GET_PRIVATE_KEY`.
- Undecodable requests. The handler ignores the decode error
  (server/server.go:97) and handles whatever was decoded, possibly the zero
  request. The connection is not dropped.
- Decryption errors. DecryptWithPrivateKey discards its error and returns
  nil (core/crypto.go:126-132), so GetPassword, and with it the CSV export,
  yields "" for a secret that does not decrypt.
- Encryption errors. StorePassword does not look at the size of the
  password, and an encryption failure is not reported
  (core/crypto.go:114-121, service/password.go:112-120).
- The lockout key. A record is filed under `conn.RemoteAddr().String()`
  (server/server.go:101, 116), which is host and source port together. A
  client that reconnects from another source port is a different peer and
  starts with no record. The lemmas about one peer, `ThreeFailuresThenBanned`
  among them, are about repeated connections from one host and port;
  `BanIsPerAddress` states the rest.

## Model

| member | source | states |
|---|---|---|
| `Server.IsBanned` | server/server.go:101-102 | a peer is banned exactly when it has a record whose BannedUntil is strictly after now |
| `Server.RecordFailure` | server/server.go:115-130 | a failure adds only the peer's record: a fresh one is (peer, 1, now); an existing one gains one failure and is extended by the old count in minutes; other peers are untouched |
| `Server.RecordSuccess` | server/server.go:137-140 | a success removes the peer's record and keeps every other record |
| `Server.Dispatch` | server/server.go:142-177 | the type dispatch after a successful check never touches the blacklist |
| `Server.Step` | server/server.go:91-184 | one handled connection; no reply ever carries a password hash |
| `Server.EscrowServer.constructor` | server/server.go:47-52 | the blacklist starts empty; the settings and the files are as given; PRIVATE_KEY_LOCATION comes from the storage configuration |
| `Server.EscrowServer.Handle` | server/server.go:91-184 | the in-place handler writes exactly the state and reply of `Step`, and it keeps the lockout records well formed |
| `ServerProperties.BannedPeerIsRefused` | server/server.go:101-111 | a banned peer gets BANNED, and the blacklist, settings and files stay unchanged |
| `ServerProperties.BannedIgnoresPasswordCheck` | server/server.go:101-113 | while a peer is banned, the password check, the master hash and the request make no difference to the outcome |
| `ServerProperties.BanIsPerAddress` | server/server.go:101-116 | while one address is banned, any other address, such as the same host on another source port, is refused exactly when its own record bans it, and the ban of the first stays as it was |
| `ServerProperties.FirstFailureOpensRecord` | server/server.go:115-136 | a first failure gives WRONG_CREDENTIALS and the record (peer, 1, now), which does not block yet |
| `ServerProperties.RepeatedFailureEscalates` | server/server.go:122-130 | a later failure gives FailCount old+1 and BannedUntil old+oldCount, and BannedUntil strictly increases |
| `ServerProperties.SuccessClearsOnlyThatPeer` | server/server.go:137-140 | a successful check removes the peer's record, and every other peer keeps or lacks its record as before |
| `ServerProperties.SuccessResetsFailCount` | server/server.go:115-140 | after a success, the next failure starts again from FailCount 1 |
| `ServerProperties.FailuresEscalateQuadratically` | server/server.go:122-130 | n applications of the failure update to a fresh peer leave FailCount n and a lock ending n(n-1)/2 minutes after the first failure |
| `ServerProperties.LaterFailureIgnoresClock` | server/server.go:123 | once a record exists, the time of a failure does not affect the update |
| `ServerProperties.ThreeFailuresThenBanned` | server/server.go:101-130 | three failures from a fresh peer strictly raise BannedUntil each time, to first+3; a request inside that window is BANNED |
| `ServerProperties.StepPreservesGuardInvariant` | server/server.go:115-140 | every record stays filed under its own address, with FailCount at least 1 |
| `ServerProperties.BannedUntilNeverDecreases` | server/server.go:122-130 | no surviving record's BannedUntil moves earlier |
| `ServerProperties.FailureTouchesOnlyBlacklist` | server/server.go:115-136 | a wrong password changes neither the settings, nor the files, nor the settings log |
| `ServerProperties.StoreRefusedWhenKeyExists` | server/server.go:154-160 | STORE with a key already on record gives PRIVATE_KEY_ALREADY_EXISTS; only the peer's record is cleared |
| `ServerProperties.StoreSavesKey` | server/server.go:161-176 | STORE with no key on record writes the key to PRIVATE_KEY_LOCATION, sets `private_key` to it, persists the settings once and gives PRIVATE_KEY_SAVED |
| `ServerProperties.RepeatedStoreRefused` | server/server.go:154-176 | the same STORE twice gives SAVED and then ALREADY_EXISTS; the second leaves the files and settings as they were |
| `ServerProperties.GetReturnsStoredKey` | server/server.go:143-153 | an authenticated GET replies with the recorded key file's contents, tagged GET_PRIVATE_KEY, and changes nothing else |
| `ServerProperties.StoreThenGetReturnsKey` | server/server.go:143-176 | a key escrowed by STORE is returned byte for byte by a later GET from any peer that is not banned |
| `ServerProperties.OtherTypeGetsZeroMessage` | server/server.go:142-177 | an authenticated request of any other type gets the zero message |
| `ServerProperties.ReplyShape` | server/server.go:99-181 | every reply has an empty password hash and one of the reply kinds or ""; only a GET reply carries key material |
| `ServerProperties.Run` | server/server.go:70-88 | each of a sequence of connections gets exactly one reply |
| `ServerProperties.EscrowedKeyIsNeverOverwritten` | server/server.go:154-176 | once a key is on record, no run changes the settings or any existing file, and no reply is SAVED; this holds for connections handled one at a time |
| `ServerProperties.KeySavedAtMostOnce` | server/server.go:154-176 | over any run, at most one connection is answered PRIVATE_KEY_SAVED; this holds for connections handled one at a time |
| `ServerProperties.RunPreservesGuardInvariant` | server/server.go:115-140 | every run keeps the lockout records well formed |
| `ServerProperties.WriteWithoutTruncate` | server/server.go:162-166 | the write as the source performs it, counted in characters: the key overwrites the front of the file; a longer old tail survives unchanged behind it; a missing file gets exactly the key; no other file changes |
| `ServerProperties.UntruncatedStoreCorruptsKey` | server/server.go:162-166 | writing "XY" over a leftover "ABCDEF" leaves "XYCDEF" |
| `Vault.PasswordService.constructor` | service/password.go:31-46 | the service starts from the map that storage returned, with nothing persisted yet |
| `Vault.PasswordService.GetPassword` | service/password.go:61-73 | succeeds exactly for a present name, with its URL and the decryption of its ciphertext; otherwise fails with not-found |
| `Vault.PasswordService.StorePassword` | service/password.go:107-121 | a name in use gives an error and changes and persists nothing; a fresh name adds exactly that entry (URL and encrypted password), persists the new map and returns the input |
| `Vault.PasswordService.DeletePassword` | service/password.go:75-85 | an absent name gives an error and changes and persists nothing; a present name is removed alone and the new map is persisted |
| `Vault.PasswordService.ListPasswords` | service/password.go:48-59 | exactly one entry per stored name, with distinct names; each has its URL and an empty password; the length equals the map's size |
| `Vault.PasswordService.ExportRows` | service/password.go:94-100 | the header `Name, URL, Password`, then exactly one row per stored name, holding the name, its URL and its decrypted password |
| `Vault.PasswordService.StorePasswordChecked` | service/password.go:107-121 | the corrected store: as StorePassword, except that a password that does not fit is refused and nothing changes; with a matching key pair, a reported success reads back as the original |
| `Vault.GetAfterStore` | service/password.go:61-70 | with a matching key pair and a password that fits, get after store returns the original password |
| `Vault.OversizedPasswordReadsBackEmpty` | service/password.go:107-121 | a stored password that does not fit holds a nil ciphertext and reads back as "", so get does not return what was stored |
| `Vault.GetAfterDelete` | service/password.go:75-85 | after a delete, get reports that name as not found |
| `Vault.StoreThenDelete` | service/password.go:75-121 | store then delete of a fresh name restores the original vault, with both intermediate maps persisted; for a name in use, the store is refused and the delete removes the old entry |
| `Storage.InHome` | service/storage.go:36-45 | a default path is the home directory, then the separator, then the file name |
| `Storage.NewStorage` | service/storage.go:32-51 | an empty location becomes its default under the home directory, and a non-empty one is kept verbatim; the key locations are `harpocrates` and `harpocrates.pub` in the home directory |
| `Storage.LocationsAreNonEmpty` | service/storage.go:36-45 | each of the four locations is non-empty |
| `Storage.KeyLocationsDistinct` | service/storage.go:36-37 | the private and public key locations always differ |
| `Storage.DefaultLocationsDistinct` | service/storage.go:29-45 | with both locations defaulted, the database, settings and two key files are pairwise distinct |
| `Storage.NewStorageIdempotent` | service/storage.go:39-45 | feeding NewStorage's locations back in gives the same configuration |
| `Storage.ReadPasswords` | service/storage.go:73-80 | a decode that yields nil becomes an empty map; a decoded map is returned as it is |

## Findings

| source | as written | input that shows it | evidently intended | confidence | as-written member | corrected member |
|---|---|---|---|---|---|---|
| server/server.go:162-166 | STORE opens the key file with O_WRONLY and O_CREATE but without O_TRUNC, so the written key only overwrites the front of an existing file | no `private_key` setting, a leftover file "ABCDEF" at PRIVATE_KEY_LOCATION, STORE of key "XY": the write leaves the file "XYCDEF" | the file holds exactly the key that was sent | medium, not executed | `ServerProperties.WriteWithoutTruncate`, `ServerProperties.UntruncatedStoreCorruptsKey` | `Server.Step` (the write replaces the file), `ServerProperties.StoreThenGetReturnsKey` |
| service/password.go:112-120, core/crypto.go:114-121 | StorePassword encrypts without checking the size. EncryptWithPublicKey discards the error of rsa.EncryptOAEP and returns a nil ciphertext. The store then reports success | a 4096-bit key and a 383-byte password: StorePassword returns the input, and GetPassword then returns its name and URL with the password "" | a password too long to encrypt is refused, and a reported success reads back | high, not executed | `Vault.PasswordService.StorePassword`, `Vault.OversizedPasswordReadsBackEmpty` | `Vault.PasswordService.StorePasswordChecked`, `Vault.GetAfterStore` |

## Left out

- core/crypto.go is not part of this model: RSA key generation, OAEP with SHA-512, and PEM/x509 encoding. The vault uses two function values, `encrypt` and `decrypt`, in their place.
  - They are deterministic, whereas OAEP is randomised.
  - `fits` stands for the byte-length bound of one OAEP block; the UTF-8 byte count of a string is not modelled.
  - `decrypt` is total: a decryption error yields whatever the function gives. The source discards such an error (its log call is commented out) and returns nil, which reads as "". `OversizeDiscarded` states this for the nil ciphertext.
- `ServerProperties.WriteWithoutTruncate`: the overwrite counts characters, not UTF-8 bytes, where the source writes `[]byte(tmpstruct.PrivateKey)` over the old bytes (server/server.go:165). It matches the source for ASCII key text, which PEM text is; for non-ASCII text the surviving tail differs.
- `Vault.GetAfterStore`: requires that the password fits one OAEP block. For a password that does not, the source stores a nil ciphertext and reads back "", which `Vault.OversizedPasswordReadsBackEmpty` states.
- `core.HashPassword` and `core.CheckPasswordHash` are not shown. The check is the `checkPasswordHash` function of `ServerConfig`. The master hash computed at server.go:52 is a constructor parameter.
- Network and serialisation are left out: the TLS listener, the accept loop, the 15-second deadline, peer-certificate logging, the handler's own log lines (server/server.go:132, 156, 183), msgpack encoding and decoding, and server/client.go. `Handle` receives an already decoded request, the peer address and the time.
- Concurrency is left out. The goroutines race on the unsynchronised `blacklist` and `settings` maps. The model handles connections one at a time, each atomically (`Run`). So `ServerProperties.KeySavedAtMostOnce` and `ServerProperties.EscrowedKeyIsNeverOverwritten` hold only for connections handled one at a time. In the source, two overlapping STOREs can both pass the check at server/server.go:155 before either reaches the settings update at line 168, and both are then answered SAVED.
- The clock is simplified. It is read twice in the source (server.go:102 and 120), once per call in the model. Time is whole minutes, so sub-minute precision and the `time.Duration` overflow of `FailCount * time.Minute` are not modelled. `FailCount` is an unbounded integer, so 64-bit wrap-around is not modelled.
- File-system failures are left out. Every open and write on a non-empty path is assumed to succeed. A GET with no `private_key` setting opens the empty path; that open fails and the reply carries an empty key, as on POSIX systems. Only the creation of a missing file by O_CREATE is modelled.
- The settings file format (ini) and `StoreSettings` itself are left out. The model records that the whole settings map was handed over.
- service/storage.go file I/O is left out: `StorePasswords`, `StoreSettings`, `ReadSettings`, `AreSettingsExists`, and the reading and msgpack decoding inside `ReadPasswords`. `ReadPasswords` receives what decoding produced.
- `user.Current()` and `os.PathSeparator` are parameters.
- The package-level assignment of PRIVATE_KEY_LOCATION and PUBLIC_KEY_LOCATION is left out. Those locations are fields of `StorageConfig`, which the server is constructed with.
- ExportToCsv's file creation and CSV writing are left out; `ExportRows` builds the rows it writes.
- Go's random map iteration order is modelled as an arbitrary choice of the next key. The lemmas do not fix any order.
- cli/cli.go (prompts, tables) and main.go (a demonstration) are user interface only.
