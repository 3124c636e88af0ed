/**
 * Where harpocrates keeps its files (service/storage.go): the password
 * database, the settings file and the two key files, all derived from the
 * user's home directory, plus the normalisation of a decoded database.
 */
module Storage {
  import opened Wrappers
  import Vault

  const DefaultDatabaseName: string := "harpocrates.db"
  const DefaultSettingsName: string := "harpocrates.ini"
  const PrivateKeyFileName: string := "harpocrates"
  const PublicKeyFileName: string := "harpocrates.pub"

  /**
   * The four locations a storage instance works with. `privateKeyLocation`
   * and `publicKeyLocation` are the package-level PRIVATE_KEY_LOCATION and
   * PUBLIC_KEY_LOCATION that NewStorage assigns as a side effect.
   */
  datatype StorageConfig = StorageConfig(
    passwordLocation: string,
    settingsLocation: string,
    privateKeyLocation: string,
    publicKeyLocation: string)

  /** `homeDir + sep + name`, the way every default path is built. */
  function InHome(homeDir: string, separator: char, name: string): (p: string)
    ensures |p| == |homeDir| + 1 + |name|
    ensures p[..|homeDir|] == homeDir && p[|homeDir|] == separator && p[|homeDir| + 1..] == name
  {
    homeDir + [separator] + name
  }

  /**
   * NewStorage: an empty location is replaced by its default under the home
   * directory, a non-empty one is kept verbatim. `homeDir` stands for
   * `user.Current().HomeDir` and `separator` for `os.PathSeparator`.
   */
  function NewStorage(passwordLocation: string, defaultSettingsLocation: string, mode: string,
                      homeDir: string, separator: char): (r: StorageConfig)
    ensures r.privateKeyLocation == InHome(homeDir, separator, PrivateKeyFileName)
    ensures r.publicKeyLocation == InHome(homeDir, separator, PublicKeyFileName)
    ensures r.passwordLocation == if passwordLocation == "" then InHome(homeDir, separator, DefaultDatabaseName)
                                 else passwordLocation
    ensures r.settingsLocation == if defaultSettingsLocation == "" then InHome(homeDir, separator, mode + "_" + DefaultSettingsName)
                                 else defaultSettingsLocation
  {
    var privateKeyLocation := InHome(homeDir, separator, PrivateKeyFileName);
    var publicKeyLocation := InHome(homeDir, separator, PublicKeyFileName);
    var passwordLocation' := if |passwordLocation| <= 0 then InHome(homeDir, separator, DefaultDatabaseName) else passwordLocation;
    var settingsLocation' := if |defaultSettingsLocation| <= 0 then InHome(homeDir, separator, mode + "_" + DefaultSettingsName) else defaultSettingsLocation;
    StorageConfig(passwordLocation', settingsLocation', privateKeyLocation, publicKeyLocation)
  }

  /** Every location NewStorage produces is a real (non-empty) path. */
  lemma LocationsAreNonEmpty(passwordLocation: string, settingsLocation: string, mode: string, homeDir: string, separator: char)
    ensures var r := NewStorage(passwordLocation, settingsLocation, mode, homeDir, separator);
      r.passwordLocation != "" && r.settingsLocation != "" && r.privateKeyLocation != "" && r.publicKeyLocation != ""
  {
  }

  /** The private and public key files never collide, whatever the home directory. */
  lemma KeyLocationsDistinct(passwordLocation: string, settingsLocation: string, mode: string, homeDir: string, separator: char)
    ensures var r := NewStorage(passwordLocation, settingsLocation, mode, homeDir, separator);
      r.privateKeyLocation != r.publicKeyLocation
  {
    var r := NewStorage(passwordLocation, settingsLocation, mode, homeDir, separator);
    assert |r.privateKeyLocation| != |r.publicKeyLocation|;
  }

  /**
   * When both locations are defaulted, the four files are pairwise distinct:
   * the database, the settings file and the two key files all differ.
   */
  lemma DefaultLocationsDistinct(mode: string, homeDir: string, separator: char)
    ensures var r := NewStorage("", "", mode, homeDir, separator);
      && r.passwordLocation != r.settingsLocation
      && r.passwordLocation != r.privateKeyLocation
      && r.passwordLocation != r.publicKeyLocation
      && r.settingsLocation != r.privateKeyLocation
      && r.settingsLocation != r.publicKeyLocation
      && r.privateKeyLocation != r.publicKeyLocation
  {
    var r := NewStorage("", "", mode, homeDir, separator);
    // The key files and the database have different lengths; the settings file
    // is longer than both key files and ends in 'i' where the database ends in 'b'.
    var s := r.settingsLocation;
    assert s[|s| - 1] == 'i' && r.passwordLocation[|r.passwordLocation| - 1] == 'b';
  }

  /**
   * Feeding NewStorage's own locations back in gives the same configuration:
   * the defaults are applied once and are then kept verbatim.
   */
  lemma NewStorageIdempotent(passwordLocation: string, settingsLocation: string, mode: string, homeDir: string, separator: char)
    ensures var r := NewStorage(passwordLocation, settingsLocation, mode, homeDir, separator);
      NewStorage(r.passwordLocation, r.settingsLocation, mode, homeDir, separator) == r
  {
    LocationsAreNonEmpty(passwordLocation, settingsLocation, mode, homeDir, separator);
  }

  /**
   * ReadPasswords after decoding: `decoded` is what msgpack left in the
   * target map variable (None when decoding produced nil: an empty or new
   * database file, or undecodable bytes). The result is always a usable map.
   */
  function ReadPasswords(decoded: Option<map<string, Vault.Password>>): (r: map<string, Vault.Password>)
    ensures decoded.Some? ==> r == decoded.value
    ensures decoded.None? ==> r.Keys == {}
  {
    match decoded
    case None => map[]
    case Some(passwords) => passwords
  }
}
