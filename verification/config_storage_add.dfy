/** Adding a storage provider with flags: the defaults for a new Google Drive entry, and what the entry reads as. */
module ConfigStorageAdd {
  import opened Wrappers
  import opened Text
  import opened YamlEdits
  import opened ConfigEdit
  import opened ConfigEditProofs

  const DEFAULT_GOOGLE_DRIVE_PROVIDER_ID := "google_drive"
  const GOOGLE_DRIVE_DEFAULT_ROOT_FOLDER_NAME := ".lfscloud"
  const DEFAULT_GCLOUD_CONFIG := "${HOME}/.config/lfscloud/gcloud-drive"

  /** The flags; each of the two kinds has one value, so only its presence matters. */
  datatype StorageAdd = StorageAdd(
    id: Option<string>, googleDrive: bool, gcloud: bool, configDir: Option<string>, clientSecretFile: Option<string>,
    executable: Option<string>, rootFolderId: Option<string>, displayName: Option<string>)

  datatype Prepared = Prepared(
    values: StorageProviderValues, clientSecretFile: Option<string>, provisionDefaultRootFolder: bool)

  function When(condition: bool, value: string): Option<string> { if condition then Some(value) else None }

  function CommandId(c: StorageAdd): Option<string> {
    if c.id.None? && c.clientSecretFile.Some? then Some(DEFAULT_GOOGLE_DRIVE_PROVIDER_ID) else c.id
  }

  /** The values of the command; the defaults stand in where a flag is missing. */
  function ValuesOf(c: StorageAdd, id: string, defaults: bool): StorageProviderValues {
    StorageProviderValues(
      id, Or(When(c.googleDrive, "google_drive"), When(defaults, "google_drive")),
      Or(When(c.gcloud, "gcloud"), When(defaults, "gcloud")), Or(c.configDir, When(defaults, DEFAULT_GCLOUD_CONFIG)),
      c.executable, Or(c.rootFolderId, When(defaults, GOOGLE_DRIVE_DEFAULT_ROOT_FOLDER_NAME)), c.displayName)
  }

  /** `into_prepared`. */
  function IntoPrepared(document: Yaml, c: StorageAdd): Result<Prepared, ConfigError> {
    match CommandId(c)
    case None => Failure(MissingFlag("--id"))
    case Some(id) =>
      if c.clientSecretFile.None? then Success(Prepared(ValuesOf(c, id, false), None, false))
      else
        match StorageProvider(document, id)
        case Failure(e) => Failure(e)
        case Success(found) =>
          Success(Prepared(ValuesOf(c, id, found.None?), c.clientSecretFile, found.None? && c.rootFolderId.None?))
  }

  /** The flags alone. */
  function FlagValues(c: StorageAdd, id: string): StorageProviderValues {
    StorageProviderValues(
      id, When(c.googleDrive, "google_drive"), When(c.gcloud, "gcloud"), c.configDir, c.executable, c.rootFolderId,
      c.displayName)
  }

  lemma NoDefaults(c: StorageAdd, id: string)
    ensures ValuesOf(c, id, false) == FlagValues(c, id)
  {
  }

  /** For an entry that exists no default is put in, with or without a client secret: the command supplies its flags
      alone, and after a successful upsert the entry reads as the flags with the old values behind them. */
  lemma ExistingGetsNoDefaults(p: Policy, document: Yaml, c: StorageAdd, existing: StorageProviderValues)
    requires IntoPrepared(document, c).Success?
    requires StorageProvider(document, CommandId(c).value) == Success(Some(existing))
    ensures var flags := FlagValues(c, CommandId(c).value);
            IntoPrepared(document, c).value == Prepared(flags, c.clientSecretFile, false)
            && (UpsertStorage(p, document, flags).result.Success? ==>
                  StorageProvider(UpsertStorage(p, document, flags).document, flags.id) == Success(Some(Merged(flags, existing))))
  {
    var flags := FlagValues(c, CommandId(c).value);
    NoDefaults(c, CommandId(c).value);
    if UpsertStorage(p, document, flags).result.Success? {
      StorageReadsBack(p, document, flags);
    }
  }

  lemma NewEntryPassesChecks(document: Yaml, v: StorageProviderValues)
    requires Trim(v.id) != "" && MapEntry(document, STORAGE_PROVIDERS_KEY, v.id) == Success(None)
    requires MissingStorageFlag(v).None?
    ensures Checked(document, STORAGE_PROVIDERS_KEY, v.id, MissingStorageFlag(v)) == Success(false)
  {
  }

  /** A complete new entry is added and reads as it was given. */
  lemma NewEntryIsWritten(p: Policy, document: Yaml, v: StorageProviderValues)
    requires Trim(v.id) != "" && MapEntry(document, STORAGE_PROVIDERS_KEY, v.id) == Success(None)
    requires MissingStorageFlag(v).None?
    ensures UpsertStorage(p, document, v).result == Success(Added)
    ensures StorageProvider(UpsertStorage(p, document, v).document, v.id) == Success(Some(v))
  {
    NewEntryPassesChecks(document, v);
    StorageUpsertFailsIff(p, document, v);
    assert Below([], "credentials") == Some([]);
    StorageReadsBack(p, document, v);
  }

  lemma DefaultsAreComplete(c: StorageAdd, id: string)
    ensures MissingStorageFlag(ValuesOf(c, id, true)).None? && ValuesOf(c, id, true).id == id
  {
  }

  /** For a new entry the defaults stand behind the flags. */
  lemma NewEntryGetsDefaults(document: Yaml, c: StorageAdd)
    requires c.clientSecretFile.Some?
    requires MapEntry(document, STORAGE_PROVIDERS_KEY, CommandId(c).value) == Success(None)
    ensures IntoPrepared(document, c)
            == Success(Prepared(ValuesOf(c, CommandId(c).value, true), c.clientSecretFile, c.rootFolderId.None?))
  {
    assert StorageProvider(document, CommandId(c).value) == Success(None);
  }

  /** The text of a flag, or a default. */
  function Given(flag: Option<string>, default: string): Option<string> {
    Some(if flag.Some? then flag.value else default)
  }

  lemma DefaultsAre(c: StorageAdd, id: string)
    ensures ValuesOf(c, id, true)
         == StorageProviderValues(
              id, Some("google_drive"), Some("gcloud"), Given(c.configDir, "${HOME}/.config/lfscloud/gcloud-drive"), c.executable,
              Given(c.rootFolderId, ".lfscloud"), c.displayName)
  {
  }

  /** With a client secret, a new entry needs no other flag: the upsert succeeds, and the entry reads as the flags
      with the defaults behind them. */
  lemma ClientSecretIsEnough(p: Policy, document: Yaml, c: StorageAdd, v: StorageProviderValues)
    requires c.clientSecretFile.Some? && v.id == (if c.id.Some? then c.id.value else "google_drive") && Trim(v.id) != ""
    requires v == StorageProviderValues(
                    v.id, Some("google_drive"), Some("gcloud"), Given(c.configDir, "${HOME}/.config/lfscloud/gcloud-drive"),
                    c.executable, Given(c.rootFolderId, ".lfscloud"), c.displayName)
    requires MapEntry(document, STORAGE_PROVIDERS_KEY, v.id) == Success(None)
    ensures IntoPrepared(document, c) == Success(Prepared(v, c.clientSecretFile, c.rootFolderId.None?))
    ensures UpsertStorage(p, document, v).result == Success(Added)
    ensures StorageProvider(UpsertStorage(p, document, v).document, v.id) == Success(Some(v))
  {
    DefaultsAre(c, v.id);
    DefaultsAreComplete(c, v.id);
    NewEntryGetsDefaults(document, c);
    NewEntryIsWritten(p, document, v);
  }

  /** The whole command: after the upsert, with the root folder that the authorization may have found, the entry
      reads as the values that the authorization was given, but for that folder. */
  lemma AuthorizedValuesAreWritten(p: Policy, document: Yaml, c: StorageAdd, root: Option<string>)
    requires IntoPrepared(document, c).Success?
    requires var v := IntoPrepared(document, c).value.values;
             UpsertStorage(p, document, v.(rootFolderId := Or(root, v.rootFolderId))).result.Success?
    ensures var v := IntoPrepared(document, c).value.values;
            var written := v.(rootFolderId := Or(root, v.rootFolderId));
            var authorized := EffectiveValues(document, v);
            authorized.Success?
            && StorageProvider(UpsertStorage(p, document, written).document, v.id)
               == Success(Some(authorized.value.(rootFolderId := Or(root, authorized.value.rootFolderId))))
  {
    var v := IntoPrepared(document, c).value.values;
    StorageReadsBack(p, document, v.(rootFolderId := Or(root, v.rootFolderId)));
  }
}
