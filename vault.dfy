/**
 * The encrypted password vault (service/password.go): a name -> entry map
 * whose secrets are stored encrypted under the user's public key, handed in
 * full to storage after every change.
 */
module Vault {
  import opened Wrappers

  type Bytes = seq<bv8>

  /** A stored entry: the URL in clear, the password as ciphertext. */
  datatype Password = Password(Url: string, EncryptedPassword: Bytes)

  /** What callers see of an entry; `Password` is the plaintext or "". */
  datatype PasswordRepresentation = PasswordRepresentation(Name: string, Url: string, Password: string)

  /** The error returns of the service: one per `fmt.Errorf`, and TooLong. */
  datatype VaultError =
    | AlreadyExists(name: string)   // StorePassword on a name in use
    | NotFound(name: string)        // GetPassword on an absent name
    | NotExists(name: string)       // DeletePassword on an absent name
    | TooLong(name: string)         // only StorePasswordChecked: secret does not fit

  /** First row of the CSV export. */
  const CsvHeader: seq<string> := ["Name", "URL", "Password"]

  /**
   * The RSA key pair matches on every plaintext that fits one OAEP block:
   * `fits` holds of a password whose bytes number at most k - 2*64 - 2 for
   * a k-byte modulus under SHA-512 (core/crypto.go:114-121; round trip in
   * core/crpto_test.go:53-65).
   */
  ghost predicate RoundTrip(encrypt: string -> Bytes, decrypt: Bytes -> string, fits: string -> bool) {
    forall plaintext :: fits(plaintext) ==> decrypt(encrypt(plaintext)) == plaintext
  }

  /**
   * The error path of the same helpers: encrypting a plaintext that does not
   * fit fails and the discarded error leaves a nil ciphertext; decrypting
   * nil fails too and leaves nil, which reads as the empty string.
   */
  ghost predicate OversizeDiscarded(encrypt: string -> Bytes, decrypt: Bytes -> string, fits: string -> bool) {
    && (forall plaintext :: !fits(plaintext) ==> encrypt(plaintext) == [])
    && decrypt([]) == ""
  }

  class PasswordService {
    /** EncryptWithPublicKey under the service's public key. */
    const encrypt: string -> Bytes
    /** DecryptWithPrivateKey under the service's private key. */
    const decrypt: Bytes -> string
    /** Whether a plaintext fits one OAEP block of the public key. */
    const fits: string -> bool
    /** The in-memory vault. */
    var passwords: map<string, Password>
    /** Every snapshot handed to StorePasswords, oldest first. */
    var persisted: seq<map<string, Password>>

    /** NewPasswordService: `stored` is what ReadPasswords returned. */
    constructor (encrypt: string -> Bytes, decrypt: Bytes -> string, fits: string -> bool, stored: map<string, Password>)
      ensures this.encrypt == encrypt && this.decrypt == decrypt && this.fits == fits
      ensures passwords == stored && persisted == []
    {
      this.encrypt := encrypt;
      this.decrypt := decrypt;
      this.fits := fits;
      passwords := stored;
      persisted := [];
    }

    /** The row that GetPassword yields for a present name. */
    function Decrypted(name: string): PasswordRepresentation
      reads this
      requires name in passwords
    {
      PasswordRepresentation(name, passwords[name].Url, decrypt(passwords[name].EncryptedPassword))
    }

    /** GetPassword: a read-only lookup that decrypts the stored secret. */
    function GetPassword(name: string): (r: Result<PasswordRepresentation, VaultError>)
      reads this
      ensures r.Success? <==> name in passwords
      ensures r.Success? ==> r.value == Decrypted(name)
      ensures r.Failure? ==> r.error == NotFound(name)
    {
      if name in passwords then Success(Decrypted(name)) else Failure(NotFound(name))
    }

    /**
     * StorePassword: refuses a name in use; otherwise inserts exactly that
     * name with the URL and the encrypted password, persists the whole map
     * and returns the input.
     */
    method StorePassword(representation: PasswordRepresentation) returns (r: Result<PasswordRepresentation, VaultError>)
      modifies this
      ensures representation.Name in old(passwords) ==>
        r == Failure(AlreadyExists(representation.Name)) && passwords == old(passwords) && persisted == old(persisted)
      ensures representation.Name !in old(passwords) ==>
        && r == Success(representation)
        && passwords == old(passwords)[representation.Name := Password(representation.Url, encrypt(representation.Password))]
        && persisted == old(persisted) + [passwords]
    {
      if representation.Name in passwords {
        return Failure(AlreadyExists(representation.Name));
      }
      var encryptedPassword := encrypt(representation.Password);
      passwords := passwords[representation.Name := Password(representation.Url, encryptedPassword)];
      persisted := persisted + [passwords];
      r := Success(representation);
    }

    /**
     * StorePassword as it should be: as above, but a secret that does not fit
     * is refused and nothing changes, so a reported success reads back.
     */
    method StorePasswordChecked(representation: PasswordRepresentation) returns (r: Result<PasswordRepresentation, VaultError>)
      modifies this
      ensures representation.Name in old(passwords) ==>
        r == Failure(AlreadyExists(representation.Name)) && passwords == old(passwords) && persisted == old(persisted)
      ensures representation.Name !in old(passwords) && !fits(representation.Password) ==>
        r == Failure(TooLong(representation.Name)) && passwords == old(passwords) && persisted == old(persisted)
      ensures representation.Name !in old(passwords) && fits(representation.Password) ==>
        && r == Success(representation)
        && passwords == old(passwords)[representation.Name := Password(representation.Url, encrypt(representation.Password))]
        && persisted == old(persisted) + [passwords]
      ensures RoundTrip(encrypt, decrypt, fits) && r.Success? ==> GetPassword(representation.Name) == Success(representation)
    {
      if representation.Name in passwords {
        return Failure(AlreadyExists(representation.Name));
      }
      if !fits(representation.Password) {
        return Failure(TooLong(representation.Name));
      }
      r := StorePassword(representation);
      if RoundTrip(encrypt, decrypt, fits) {
        GetAfterStore(this, representation);
      }
    }

    /** DeletePassword: refuses an absent name; otherwise removes it and persists. */
    method DeletePassword(name: string) returns (r: Outcome)
      modifies this
      ensures name !in old(passwords) ==>
        r == Err(NotExists(name)) && passwords == old(passwords) && persisted == old(persisted)
      ensures name in old(passwords) ==>
        r == Ok && passwords == old(passwords) - {name} && persisted == old(persisted) + [passwords]
    {
      if name !in passwords {
        return Err(NotExists(name));
      }
      passwords := passwords - {name};
      persisted := persisted + [passwords];
      r := Ok;
    }

    /**
     * ListPasswords: one representation per stored name, in no particular
     * order, carrying the URL and never the password.
     */
    method ListPasswords() returns (list: seq<PasswordRepresentation>)
      ensures |list| == |passwords|
      ensures forall i :: 0 <= i < |list| ==>
        list[i].Name in passwords && list[i].Url == passwords[list[i].Name].Url && list[i].Password == ""
      ensures forall i, j :: 0 <= i < j < |list| ==> list[i].Name != list[j].Name
      ensures forall name :: name in passwords ==> exists i :: 0 <= i < |list| && list[i].Name == name
    {
      list := [];
      var remaining := passwords.Keys;
      while remaining != {}
        invariant remaining <= passwords.Keys
        invariant |list| + |remaining| == |passwords.Keys|
        invariant forall i :: 0 <= i < |list| ==>
          list[i].Name in passwords && list[i].Name !in remaining
          && list[i].Url == passwords[list[i].Name].Url && list[i].Password == ""
        invariant forall i, j :: 0 <= i < j < |list| ==> list[i].Name != list[j].Name
        invariant forall name :: name in passwords && name !in remaining ==>
          exists i :: 0 <= i < |list| && list[i].Name == name
        decreases remaining
      {
        var key :| key in remaining;
        ghost var previous := list;
        list := list + [PasswordRepresentation(key, passwords[key].Url, "")];
        assert forall i :: 0 <= i < |previous| ==> list[i] == previous[i];
        assert list[|list| - 1].Name == key;
        remaining := remaining - {key};
      }
      assert |passwords.Keys| == |passwords|;
    }

    /**
     * The rows ExportToCsv writes: the header, then one row per stored name
     * holding the name, its URL and its decrypted password.
     */
    method ExportRows() returns (data: seq<seq<string>>)
      ensures |data| == |passwords| + 1 && data[0] == CsvHeader
      ensures forall i :: 1 <= i < |data| ==>
        |data[i]| == 3 && data[i][0] in passwords
        && data[i] == [data[i][0], Decrypted(data[i][0]).Url, Decrypted(data[i][0]).Password]
      ensures forall i, j :: 1 <= i < j < |data| ==> data[i][0] != data[j][0]
      ensures forall name :: name in passwords ==> exists i :: 1 <= i < |data| && data[i][0] == name
    {
      data := [CsvHeader];
      var remaining := passwords.Keys;
      while remaining != {}
        invariant remaining <= passwords.Keys
        invariant 1 <= |data| && data[0] == CsvHeader
        invariant |data| - 1 + |remaining| == |passwords.Keys|
        invariant forall i :: 1 <= i < |data| ==>
          |data[i]| == 3 && data[i][0] in passwords && data[i][0] !in remaining
          && data[i] == [data[i][0], Decrypted(data[i][0]).Url, Decrypted(data[i][0]).Password]
        invariant forall i, j :: 1 <= i < j < |data| ==> data[i][0] != data[j][0]
        invariant forall name :: name in passwords && name !in remaining ==>
          exists i :: 1 <= i < |data| && data[i][0] == name
        decreases remaining
      {
        var key :| key in remaining;
        var password := GetPassword(key);
        ghost var previous := data;
        data := data + [[key, password.value.Url, password.value.Password]];
        assert forall i :: 0 <= i < |previous| ==> data[i] == previous[i];
        assert data[|data| - 1][0] == key;
        remaining := remaining - {key};
      }
      assert |passwords.Keys| == |passwords|;
    }
  }

  /** The success-or-error return of DeletePassword. */
  datatype Outcome = Ok | Err(error: VaultError)

  /**
   * Get after store: once StorePassword has recorded `representation`, and
   * the key pair matches on a secret that fits, GetPassword returns the
   * original plaintext.
   */
  lemma GetAfterStore(service: PasswordService, representation: PasswordRepresentation)
    requires RoundTrip(service.encrypt, service.decrypt, service.fits)
    requires service.fits(representation.Password)
    requires representation.Name in service.passwords
    requires service.passwords[representation.Name]
      == Password(representation.Url, service.encrypt(representation.Password))
    ensures service.GetPassword(representation.Name) == Success(representation)
  {
    assert service.decrypt(service.encrypt(representation.Password)) == representation.Password;
  }

  /**
   * What StorePassword does with a secret that does not fit: it reports
   * success, but the entry holds a nil ciphertext and reads back as "".
   */
  lemma OversizedPasswordReadsBackEmpty(service: PasswordService, representation: PasswordRepresentation)
    requires OversizeDiscarded(service.encrypt, service.decrypt, service.fits)
    requires !service.fits(representation.Password)
    requires representation.Name in service.passwords
    requires service.passwords[representation.Name]
      == Password(representation.Url, service.encrypt(representation.Password))
    ensures service.passwords[representation.Name].EncryptedPassword == []
    ensures service.GetPassword(representation.Name) == Success(representation.(Password := ""))
    ensures representation.Password != "" ==> service.GetPassword(representation.Name) != Success(representation)
  {
    assert service.encrypt(representation.Password) == [];
  }

  /** Get after delete fails: the removed name is reported as not found. */
  lemma GetAfterDelete(service: PasswordService, before: map<string, Password>, name: string)
    requires service.passwords == before - {name}
    ensures service.GetPassword(name) == Failure(NotFound(name))
  {
  }

  /**
   * A caller's StorePassword then DeletePassword on one name. A fresh name
   * leaves the vault as it was, both intermediate maps having been
   * persisted; a name in use has its store refused and its entry deleted.
   */
  method StoreThenDelete(service: PasswordService, representation: PasswordRepresentation)
    returns (stored: Result<PasswordRepresentation, VaultError>, deleted: Outcome)
    modifies service
    ensures representation.Name !in old(service.passwords) ==>
      && stored == Success(representation) && deleted == Ok
      && service.passwords == old(service.passwords)
      && service.persisted == old(service.persisted)
         + [old(service.passwords)[representation.Name := Password(representation.Url, service.encrypt(representation.Password))],
            old(service.passwords)]
    ensures representation.Name in old(service.passwords) ==>
      && stored == Failure(AlreadyExists(representation.Name)) && deleted == Ok
      && service.passwords == old(service.passwords) - {representation.Name}
      && service.persisted == old(service.persisted) + [service.passwords]
  {
    stored := service.StorePassword(representation);
    deleted := service.DeletePassword(representation.Name);
    if representation.Name !in old(service.passwords) {
      assert service.passwords == old(service.passwords);
    }
  }
}
