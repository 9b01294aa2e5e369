/** When upserts are refused, what they answer otherwise, and at which keys of the document the values are written. */
module ConfigChecks {
  import opened Wrappers
  import opened Text
  import opened YamlEdits
  import opened YamlEditProofs
  import opened ConfigEdit
  import opened ConfigSlots
  import opened ConfigEditProofs
  import opened ConfigRepositoryProofs

  // ----- Refusals and answers -----

  /** A mapping, or nothing. */
  predicate IsMapping(y: Option<Yaml>) { y.Some? ==> y.value.Hash? }

  /** The document is a mapping, and so are the section and the entry if they are there. */
  predicate IsReadable(document: Yaml, section: string, id: string) {
    document.Hash? && IsMapping(GetPath(document, [Str(section)])) && IsMapping(GetPath(document, [Str(section), Str(id)]))
  }

  /** The part that is no mapping. */
  function Unreadable(document: Yaml, section: string, id: string): string {
    if !document.Hash? then "<root>" else if !IsMapping(GetPath(document, [Str(section)])) then section else id
  }

  predicate HasEntry(document: Yaml, section: string, id: string) {
    GetPath(document, [Str(section), Str(id)]).Some?
  }

  lemma MapEntryReads(document: Yaml, section: string, id: string)
    ensures match MapEntry(document, section, id)
            case Failure(e) => !IsReadable(document, section, id) && e == InvalidSection(Unreadable(document, section, id))
            case Success(found) => IsReadable(document, section, id) && (found.Some? <==> HasEntry(document, section, id))
  {
    if document.Hash? {
      PathOfOne(document, Str(section));
      PathOfTwo(document, Str(section), Str(id));
    }
  }

  function GetBelow(es: Entries, a: Yaml, b: Yaml): Option<Yaml> {
    match Get(es, a) case Some(Hash(sub)) => Get(sub, b) case _ => None
  }

  lemma PathOfTwo(y: Yaml, a: Yaml, b: Yaml)
    requires y.Hash?
    ensures GetPath(y, [a, b]) == GetBelow(y.entries, a, b)
  {
    assert [a, b][1..] == [b];
    var value := Get(y.entries, a);
    if value.Some? && value.value.Hash? { PathOfOne(value.value, b); }
  }

  /** The name of the first flag without a value. */
  ghost predicate IsFirstMissing(flags: seq<(string, Option<string>)>, flag: string) {
    exists i :: 0 <= i < |flags| && flags[i] == (flag, None) && forall j :: 0 <= j < i ==> flags[j].1.Some?
  }

  predicate AllGiven(flags: seq<(string, Option<string>)>) { forall i :: 0 <= i < |flags| ==> flags[i].1.Some? }

  /** What the checks of an entry decide. */
  lemma ChecksAreExact(document: Yaml, section: string, id: string, missing: Option<ConfigError>)
    ensures Checked(document, section, id, missing)
         == if AllWhitespace(id) then Failure(EmptyId)
            else if !IsReadable(document, section, id) then Failure(InvalidSection(Unreadable(document, section, id)))
            else if HasEntry(document, section, id) then Success(true)
            else if missing.Some? then Failure(missing.value)
            else Success(false)
  {
    TrimIsExact(id);
    MapEntryReads(document, section, id);
  }

  /** The answer of an upsert that succeeds. */
  predicate IsAnswer(existed: bool, before: Yaml, after: Yaml, answer: EditOutcome) {
    match answer
    case Added => !existed
    case Updated => existed && after != before
    case Unchanged => existed && after == before
  }

  /** An upsert of a repository provider: which are refused, and that a refused one leaves the document as it is. */
  lemma ProviderUpsertAnswers(p: Policy, document: Yaml, v: RepositoryProviderValues)
    ensures var r, existed := UpsertProvider(p, document, v), HasEntry(document, "repository_providers", v.id);
            if AllWhitespace(v.id) then r == Upserted(document, Failure(EmptyId))
            else if !IsReadable(document, "repository_providers", v.id)
              then r == Upserted(document, Failure(InvalidSection(Unreadable(document, "repository_providers", v.id))))
            else if !existed && v.providerType.None? then r == Upserted(document, Failure(MissingFlag("--type")))
            else r.result.Success? && IsAnswer(existed, document, r.document, r.result.value)
  {
    var section := REPOSITORY_PROVIDERS_KEY;
    ChecksAreExact(document, section, v.id, MissingProviderFlag(v));
    var checked := Checked(document, section, v.id, MissingProviderFlag(v));
    if checked.Success? {
      MapEntryReads(document, section, v.id);
      EntryAfter(p, document, section, v.id, ProviderSlots(v));
      ProviderEntrySucceeds(p, v, EntryOf(document, section, v.id));
      UpsertAnswers(p, document, section, v.id, ProviderSlots(v), checked.value);
    }
  }

  lemma ProviderEntrySucceeds(p: Policy, v: RepositoryProviderValues, es: Entries)
    ensures Apply(p, Supplied(ProviderSlots(v)), es).ok
  {
    ProviderSlotsAreValid(v);
    FlatSucceeds(p, ProviderSlots(v), es);
  }

  lemma UpsertAnswers(p: Policy, document: Yaml, section: string, id: string, slots: seq<Slot>, existed: bool)
    requires document.Hash?
    ensures var r := UpsertEntry(p, document, section, id, slots, existed);
            r.result.Success? ==> IsAnswer(existed, document, r.document, r.result.value)
  {
  }

  function StorageFlags(v: StorageProviderValues): seq<(string, Option<string>)> {
    [("--type", v.providerType), ("--credentials-type", v.credentialsType), ("--config-dir", v.configDir),
     ("--root-folder-id", v.rootFolderId)]
  }

  /** The first flag without a value decides the error. */
  function FirstMissing(flags: seq<(string, Option<string>)>): Option<ConfigError> {
    if flags == [] then None else if flags[0].1.None? then Some(MissingFlag(flags[0].0)) else FirstMissing(flags[1..])
  }

  lemma {:induction false} FirstMissingIs(flags: seq<(string, Option<string>)>)
    ensures match FirstMissing(flags)
            case None => AllGiven(flags)
            case Some(e) => e.MissingFlag? && IsFirstMissing(flags, e.flag)
  {
    if flags != [] {
      FirstMissingIs(flags[1..]);
      if FirstMissing(flags).Some? {
        var flag := FirstMissing(flags).value.flag;
        if flags[0].1.None? {
          assert flags[0] == (flag, None);
        } else {
          var i :| 0 <= i < |flags[1..]| && flags[1..][i] == (flag, None) && forall j :: 0 <= j < i ==> flags[1..][j].1.Some?;
          assert flags[i + 1] == (flag, None);
          assert forall j :: 0 < j < i + 1 ==> flags[j] == flags[1..][j - 1];
        }
      } else {
        assert forall j :: 0 < j < |flags| ==> flags[j] == flags[1..][j - 1];
      }
    }
  }

  lemma StorageFlagsInOrder(v: StorageProviderValues)
    ensures MissingStorageFlag(v) == FirstMissing(StorageFlags(v))
  {
    var flags := StorageFlags(v);
    FirstMissingSkips(flags);
    FirstMissingSkips(flags[1..]);
    FirstMissingSkips(flags[2..]);
    FirstMissingSkips(flags[3..]);
  }

  /** What stands below the credentials of the entry is a mapping, or there is nothing. */
  predicate HasReadableCredentials(document: Yaml, id: string) {
    IsMapping(GetPath(document, [Str("storage_providers"), Str(id), Str("credentials")]))
  }

  predicate GivesCredentials(v: StorageProviderValues) {
    v.credentialsType.Some? || v.configDir.Some? || v.executable.Some?
  }

  /** An upsert of a storage provider. Only credentials that are no mapping stop it after the checks. */
  lemma StorageUpsertAnswers(p: Policy, document: Yaml, v: StorageProviderValues)
    ensures var r, existed := UpsertStorage(p, document, v), HasEntry(document, "storage_providers", v.id);
            if AllWhitespace(v.id) then r == Upserted(document, Failure(EmptyId))
            else if !IsReadable(document, "storage_providers", v.id)
              then r == Upserted(document, Failure(InvalidSection(Unreadable(document, "storage_providers", v.id))))
            else if !existed && !AllGiven(StorageFlags(v))
              then exists flag ::
                     IsFirstMissing(StorageFlags(v), flag) && r == Upserted(document, Failure(MissingFlag(flag)))
            else if GivesCredentials(v) && !HasReadableCredentials(document, v.id)
              then r.result == Failure(InvalidSection("credentials"))
            else r.result.Success? && IsAnswer(existed, document, r.document, r.result.value)
  {
    var section, missing := STORAGE_PROVIDERS_KEY, MissingStorageFlag(v);
    ChecksAreExact(document, section, v.id, missing);
    StorageFlagsInOrder(v);
    FirstMissingIs(StorageFlags(v));
    NoFlagMissing(StorageFlags(v));
    var checked := Checked(document, section, v.id, missing);
    if checked.Success? {
      StorageUpsertFailsIff(p, document, v);
      CredentialsAreReadable(document, v.id);
      UpsertAnswers(p, document, section, v.id, StorageSlots(v), checked.value);
    } else if missing.Some? {
      assert IsFirstMissing(StorageFlags(v), missing.value.flag);
    }
  }

  lemma NoFlagMissing(flags: seq<(string, Option<string>)>)
    ensures AllGiven(flags) <==> FirstMissing(flags).None?
  {
    FirstMissingIs(flags);
  }

  lemma PathIntoEntry(document: Yaml, section: string, id: string, rest: seq<Yaml>)
    requires IsReadable(document, section, id) && rest != []
    ensures GetPath(document, [Str(section), Str(id)] + rest) == GetPath(Hash(EntryOf(document, section, id)), rest)
  {
    var path := [Str(section), Str(id)] + rest;
    PathOfOne(document, Str(section));
    PathOfTwo(document, Str(section), Str(id));
    assert path[1..] == [Str(id)] + rest && path[1..][1..] == rest;
  }

  lemma CredentialsAreReadable(document: Yaml, id: string)
    requires IsReadable(document, STORAGE_PROVIDERS_KEY, id)
    ensures HasReadableCredentials(document, id)
        <==> Below(EntryOf(document, STORAGE_PROVIDERS_KEY, id), "credentials").Some?
  {
    PathIntoEntry(document, STORAGE_PROVIDERS_KEY, id, [Str("credentials")]);
    assert [Str(STORAGE_PROVIDERS_KEY), Str(id)] + [Str("credentials")]
        == [Str("storage_providers"), Str(id), Str("credentials")];
    PathOfOne(Hash(EntryOf(document, STORAGE_PROVIDERS_KEY, id)), Str("credentials"));
  }

  lemma PathOfOne(y: Yaml, a: Yaml)
    requires y.Hash?
    ensures GetPath(y, [a]) == Get(y.entries, a)
  {
    assert [a][1..] == [];
  }

  function RepositoryFlags(v: RepositoryValues): seq<(string, Option<string>)> {
    [("--repo-provider", v.repoProvider), ("--host", v.host), ("--owner", v.owner), ("--name", v.name),
     ("--provider-repository-id", v.providerRepositoryId), ("--storage-provider", v.storageProvider)]
  }

  lemma RepositoryFlagsInOrder(v: RepositoryValues)
    ensures MissingRepositoryFlag(v) == FirstMissing(RepositoryFlags(v))
  {
    var flags := RepositoryFlags(v);
    FirstOfSix(flags);
  }

  lemma FirstOfSix(flags: seq<(string, Option<string>)>)
    requires |flags| == 6
    ensures FirstMissing(flags)
         == if flags[0].1.None? then Some(MissingFlag(flags[0].0)) else if flags[1].1.None? then Some(MissingFlag(flags[1].0))
            else if flags[2].1.None? then Some(MissingFlag(flags[2].0)) else if flags[3].1.None? then Some(MissingFlag(flags[3].0))
            else if flags[4].1.None? then Some(MissingFlag(flags[4].0)) else if flags[5].1.None? then Some(MissingFlag(flags[5].0))
            else None
  {
    FirstMissingSkips(flags);
    FirstMissingSkips(flags[1..]);
    FirstMissingSkips(flags[2..]);
    FirstMissingSkips(flags[3..]);
    FirstMissingSkips(flags[4..]);
    FirstMissingSkips(flags[5..]);
  }

  lemma FirstMissingSkips(flags: seq<(string, Option<string>)>)
    requires flags != []
    ensures FirstMissing(flags) == if flags[0].1.None? then Some(MissingFlag(flags[0].0)) else FirstMissing(flags[1..])
  {
  }

  /** The served repositories are a sequence of mappings, or there is no such section. */
  predicate HasReadableItems(document: Yaml) {
    document.Hash? && match Get(document.entries, Str("repositories"))
                      case Some(Arr(items)) => AllMappings(items)
                      case Some(_) => false
                      case None => true
  }

  /** An item with this text as its identifier; an item without one has the empty identifier. */
  predicate HasItem(items: seq<Yaml>, id: string)
    requires AllMappings(items)
  {
    exists i :: 0 <= i < |items| && RepositoryValuesOf(items[i].entries).id == id
  }

  /** An upsert of a served repository. */
  lemma RepositoryUpsertAnswers(p: Policy, document: Yaml, v: RepositoryValues)
    ensures var r := UpsertRepositorySpec(p, document, v);
            if AllWhitespace(v.id) then r == Upserted(document, Failure(EmptyId))
            else if !HasReadableItems(document)
              then r == Upserted(document, Failure(InvalidSection(if document.Hash? then "repositories" else "<root>")))
            else RepositoryItems(document).Success?
                 && var existed := HasItem(RepositoryItems(document).value, v.id);
                    if !existed && !AllGiven(RepositoryFlags(v))
                    then exists flag ::
                           IsFirstMissing(RepositoryFlags(v), flag) && r == Upserted(document, Failure(MissingFlag(flag)))
                    else r.result.Success? && IsAnswer(existed, document, r.document, r.result.value)
  {
    RepositoryChecksAreExact(document, v);
    UpsertOfItems(p, document, v);
    if RepositoryItems(document).Success? {
      ItemsAnswer(RepositoryItems(document).value, v);
    }
  }

  lemma RepositoryChecksAreExact(document: Yaml, v: RepositoryValues)
    ensures CheckedItems(document, v)
         == if AllWhitespace(v.id) then Failure(EmptyId)
            else if !HasReadableItems(document)
              then Failure(InvalidSection(if document.Hash? then "repositories" else "<root>"))
            else if ItemsErrorOf(document, v).Some? then Failure(ItemsErrorOf(document, v).value)
            else RepositoryItems(document)
    ensures HasReadableItems(document) ==> RepositoryItems(document).Success?
  {
    TrimIsExact(v.id);
    ItemsAreReadable(document);
  }

  function ItemsErrorOf(document: Yaml, v: RepositoryValues): Option<ConfigError> {
    match RepositoryItems(document) case Success(items) => ItemsError(items, v) case Failure(_) => None
  }

  lemma UpsertOfItems(p: Policy, document: Yaml, v: RepositoryValues)
    ensures var r := UpsertRepositorySpec(p, document, v);
            match CheckedItems(document, v)
            case Failure(e) => r == Upserted(document, Failure(e))
            case Success(items) =>
              r.result.Success? && IsAnswer(Position(items, v.id) < |items|, document, r.document, r.result.value)
  {
  }

  lemma ItemsAnswer(items: seq<Yaml>, v: RepositoryValues)
    requires AllMappings(items)
    ensures HasItem(items, v.id) <==> Position(items, v.id) < |items|
    ensures match ItemsError(items, v)
            case None => HasItem(items, v.id) || AllGiven(RepositoryFlags(v))
            case Some(e) =>
              !HasItem(items, v.id) && !AllGiven(RepositoryFlags(v)) && e.MissingFlag? && IsFirstMissing(RepositoryFlags(v), e.flag)
  {
    RepositoryFlagsInOrder(v);
    FirstMissingIs(RepositoryFlags(v));
    NoFlagMissing(RepositoryFlags(v));
  }

  lemma ItemsAreReadable(document: Yaml)
    ensures if HasReadableItems(document) then RepositoryItems(document).Success?
            else RepositoryItems(document) == Failure(InvalidSection(if document.Hash? then "repositories" else "<root>"))
  {
  }

  // ----- Where the values are written -----

  /** A supplied text, or what was there before. */
  function Written(supplied: Option<string>, before: Option<Yaml>): Option<Yaml> {
    if supplied.Some? then Some(Str(supplied.value)) else before
  }

  /** A field of an entry after edits that all could be done. */
  lemma FieldIsWritten(p: Policy, document: Yaml, section: string, id: string, slots: seq<Slot>, a: nat)
    requires IsReadable(document, section, id) && ValidSlots(slots) && a < |slots|
    requires Apply(p, EntryEdits(section, id, slots), document.entries).ok
    ensures var after := Hash(Apply(p, EntryEdits(section, id, slots), document.entries).entries);
            GetPath(after, [Str(section), Str(id), Str(slots[a].name)])
            == match slots[a].edit
               case Some(e) => Left(p, e, EntryOf(document, section, id))
               case None => GetPath(document, [Str(section), Str(id), Str(slots[a].name)])
  {
    var after := Hash(Apply(p, EntryEdits(section, id, slots), document.entries).entries);
    MapEntryReads(document, section, id);
    EntryAfter(p, document, section, id, slots);
    MapEntryReads(after, section, id);
    FieldOfEntry(document, section, id, slots[a].name);
    FieldOfEntry(after, section, id, slots[a].name);
    SlotAfter(p, slots, EntryOf(document, section, id), a);
  }

  lemma FieldOfEntry(document: Yaml, section: string, id: string, name: string)
    requires IsReadable(document, section, id)
    ensures GetPath(document, [Str(section), Str(id), Str(name)]) == Get(EntryOf(document, section, id), Str(name))
  {
    PathIntoEntry(document, section, id, [Str(name)]);
    assert [Str(section), Str(id)] + [Str(name)] == [Str(section), Str(id), Str(name)];
    PathOfOne(Hash(EntryOf(document, section, id)), Str(name));
  }

  lemma PutFieldIsWritten(p: Policy, document: Yaml, section: string, id: string, slots: seq<Slot>, a: nat, name: string,
                          value: Option<string>)
    requires IsReadable(document, section, id) && ValidSlots(slots) && a < |slots| && slots[a] == PutSlot(name, value)
    requires Apply(p, EntryEdits(section, id, slots), document.entries).ok
    ensures GetPath(Hash(Apply(p, EntryEdits(section, id, slots), document.entries).entries), [Str(section), Str(id), Str(name)])
         == Written(value, GetPath(document, [Str(section), Str(id), Str(name)]))
  {
    FieldIsWritten(p, document, section, id, slots, a);
  }

  /** Where a repository provider is written. */
  lemma ProviderIsWritten(p: Policy, document: Yaml, v: RepositoryProviderValues, after: Yaml)
    requires UpsertProvider(p, document, v).result.Success? && after == UpsertProvider(p, document, v).document
    ensures GetPath(after, [Str("repository_providers"), Str(v.id), Str("type")])
         == Written(v.providerType, GetPath(document, [Str("repository_providers"), Str(v.id), Str("type")]))
    ensures GetPath(after, [Str("repository_providers"), Str(v.id), Str("personal_access_token")])
         == Written(v.personalAccessToken,
                    GetPath(document, [Str("repository_providers"), Str(v.id), Str("personal_access_token")]))
    ensures GetPath(after, [Str("repository_providers"), Str(v.id), Str("api_url")])
         == if v.clearApiUrl then None
            else Written(v.apiUrl, GetPath(document, [Str("repository_providers"), Str(v.id), Str("api_url")]))
  {
    var section, slots := REPOSITORY_PROVIDERS_KEY, ProviderSlots(v);
    ProviderSlotsAreValid(v);
    CheckedMeans(document, section, v.id, MissingProviderFlag(v));
    MapEntryReads(document, section, v.id);
    PutFieldIsWritten(p, document, section, v.id, slots, 0, "type", v.providerType);
    FieldIsWritten(p, document, section, v.id, slots, 1);
    PutFieldIsWritten(p, document, section, v.id, slots, 2, "personal_access_token", v.personalAccessToken);
  }

  /** Where a storage provider is written. */
  lemma StorageIsWritten(p: Policy, document: Yaml, v: StorageProviderValues, after: Yaml)
    requires UpsertStorage(p, document, v).result.Success? && after == UpsertStorage(p, document, v).document
    ensures GetPath(after, [Str("storage_providers"), Str(v.id), Str("type")])
         == Written(v.providerType, GetPath(document, [Str("storage_providers"), Str(v.id), Str("type")]))
    ensures GetPath(after, [Str("storage_providers"), Str(v.id), Str("root_folder_id")])
         == Written(v.rootFolderId, GetPath(document, [Str("storage_providers"), Str(v.id), Str("root_folder_id")]))
    ensures GetPath(after, [Str("storage_providers"), Str(v.id), Str("display_name")])
         == Written(v.displayName, GetPath(document, [Str("storage_providers"), Str(v.id), Str("display_name")]))
  {
    var section, slots := STORAGE_PROVIDERS_KEY, StorageSlots(v);
    StorageSlotsAreValid(v);
    CheckedMeans(document, section, v.id, MissingStorageFlag(v));
    MapEntryReads(document, section, v.id);
    PutFieldIsWritten(p, document, section, v.id, slots, 0, "type", v.providerType);
    PutFieldIsWritten(p, document, section, v.id, slots, 2, "root_folder_id", v.rootFolderId);
    PutFieldIsWritten(p, document, section, v.id, slots, 3, "display_name", v.displayName);
  }

  /** A field of the credentials, by the entry. */
  function CredentialAt(es: Entries, name: string): Option<Yaml> { GetBelow(es, Str("credentials"), Str(name)) }

  lemma PathToCredential(document: Yaml, id: string, name: string)
    requires IsReadable(document, STORAGE_PROVIDERS_KEY, id)
    ensures GetPath(document, [Str("storage_providers"), Str(id), Str("credentials"), Str(name)])
         == CredentialAt(EntryOf(document, STORAGE_PROVIDERS_KEY, id), name)
  {
    PathIntoEntry(document, STORAGE_PROVIDERS_KEY, id, [Str("credentials"), Str(name)]);
    assert [Str(STORAGE_PROVIDERS_KEY), Str(id)] + [Str("credentials"), Str(name)]
        == [Str("storage_providers"), Str(id), Str("credentials"), Str(name)];
    PathOfTwo(Hash(EntryOf(document, STORAGE_PROVIDERS_KEY, id)), Str("credentials"), Str(name));
  }

  lemma CredentialsMapping(p: Policy, v: StorageProviderValues, es: Entries)
    requires Apply(p, Supplied(StorageSlots(v)), es).ok
    ensures var after := Apply(p, Supplied(StorageSlots(v)), es).entries;
            if EditsCredentials(v)
            then Below(es, "credentials").Some?
                 && Get(after, Str("credentials"))
                    == Some(Hash(Apply(p, Supplied(CredentialSlots(v)), Below(es, "credentials").value).entries))
            else Get(after, Str("credentials")) == Get(es, Str("credentials"))
  {
    StorageSlotsAreValid(v);
    SlotAfter(p, StorageSlots(v), es, 1);
  }

  lemma CredentialBelow(es: Entries, name: string)
    requires Below(es, "credentials").Some?
    ensures CredentialAt(es, name) == Get(Below(es, "credentials").value, Str(name))
  {
  }

  lemma CredentialIsPut(p: Policy, v: StorageProviderValues, es: Entries, a: nat, name: string, value: Option<string>)
    requires Apply(p, Supplied(StorageSlots(v)), es).ok
    requires a < |CredentialSlots(v)| && CredentialSlots(v)[a] == PutSlot(name, value)
    ensures CredentialAt(Apply(p, Supplied(StorageSlots(v)), es).entries, name) == Written(value, CredentialAt(es, name))
  {
    CredentialsMapping(p, v, es);
    if EditsCredentials(v) {
      var below := Below(es, "credentials").value;
      CredentialBelow(es, name);
      CredentialSlotsAreValid(v);
      CredentialsAfter(p, v, below);
      FieldIsPut(p, CredentialSlots(v), below, a, name, value);
    }
  }

  lemma CredentialIsWritten(p: Policy, document: Yaml, v: StorageProviderValues, after: Yaml, a: nat, name: string,
                            value: Option<string>)
    requires UpsertStorage(p, document, v).result.Success? && after == UpsertStorage(p, document, v).document
    requires a < |CredentialSlots(v)| && CredentialSlots(v)[a] == PutSlot(name, value)
    ensures GetPath(after, [Str("storage_providers"), Str(v.id), Str("credentials"), Str(name)])
         == Written(value, GetPath(document, [Str("storage_providers"), Str(v.id), Str("credentials"), Str(name)]))
  {
    var section := STORAGE_PROVIDERS_KEY;
    CheckedMeans(document, section, v.id, MissingStorageFlag(v));
    MapEntryReads(document, section, v.id);
    EntryAfter(p, document, section, v.id, StorageSlots(v));
    MapEntryReads(after, section, v.id);
    PathToCredential(document, v.id, name);
    PathToCredential(after, v.id, name);
    CredentialIsPut(p, v, EntryOf(document, section, v.id), a, name, value);
  }

  /** Where the credentials of a storage provider are written. */
  lemma CredentialsAreWritten(p: Policy, document: Yaml, v: StorageProviderValues, after: Yaml)
    requires UpsertStorage(p, document, v).result.Success? && after == UpsertStorage(p, document, v).document
    ensures GetPath(after, [Str("storage_providers"), Str(v.id), Str("credentials"), Str("type")])
         == Written(v.credentialsType, GetPath(document, [Str("storage_providers"), Str(v.id), Str("credentials"), Str("type")]))
    ensures GetPath(after, [Str("storage_providers"), Str(v.id), Str("credentials"), Str("config_dir")])
         == Written(v.configDir, GetPath(document, [Str("storage_providers"), Str(v.id), Str("credentials"), Str("config_dir")]))
    ensures GetPath(after, [Str("storage_providers"), Str(v.id), Str("credentials"), Str("executable")])
         == Written(v.executable, GetPath(document, [Str("storage_providers"), Str(v.id), Str("credentials"), Str("executable")]))
  {
    CredentialIsWritten(p, document, v, after, 0, "type", v.credentialsType);
    CredentialIsWritten(p, document, v, after, 1, "config_dir", v.configDir);
    CredentialIsWritten(p, document, v, after, 2, "executable", v.executable);
  }

  /** Where a served repository is written: in its item, which stands in the sequence at the key `repositories`. */
  lemma RepositoryIsWritten(p: Policy, document: Yaml, v: RepositoryValues, items: seq<Yaml>, i: nat)
    requires UpsertRepositorySpec(p, document, v).result.Success? && RepositoryItems(document) == Success(items)
    requires AllMappings(items) && i == Position(items, v.id)
    ensures exists edited ::
              GetPath(UpsertRepositorySpec(p, document, v).document, [Str("repositories")]) == Some(Arr(edited))
              && i < |edited|
              && IsWrittenItem(v, if i < |items| then items[i] else Hash([]), edited[i])
  {
    var edited := EditedItems(p, items, v);
    var before := if i < |items| then items[i].entries else [];
    ItemsAfter(p, items, v);
    RepositoryFields(p, v, before);
    PathOfOne(WithItems(p, document, edited), Str(REPOSITORIES_KEY));
    SectionIsWritten(p, document.entries, edited);
  }

  lemma SectionIsWritten(p: Policy, es: Entries, items: seq<Yaml>)
    ensures Get(WithItems(p, Hash(es), items).entries, Str("repositories")) == Some(Arr(items))
  {
    var at := EntryOr(p, es, Str(REPOSITORIES_KEY), Arr([]));
    EntryFacts(p, es, Str(REPOSITORIES_KEY), Arr([]), Str(REPOSITORIES_KEY));
    ReplaceFacts(at, Str(REPOSITORIES_KEY), Arr(items), Str(REPOSITORIES_KEY));
  }

  predicate IsWrittenItem(v: RepositoryValues, before: Yaml, after: Yaml) {
    before.Hash? && after.Hash? && Get(after.entries, Str("id")) == Some(Str(v.id))
    && Get(after.entries, Str("repo_provider")) == Written(v.repoProvider, Get(before.entries, Str("repo_provider")))
    && Get(after.entries, Str("host")) == Written(v.host, Get(before.entries, Str("host")))
    && Get(after.entries, Str("owner")) == Written(v.owner, Get(before.entries, Str("owner")))
    && Get(after.entries, Str("name")) == Written(v.name, Get(before.entries, Str("name")))
    && Get(after.entries, Str("provider_repository_id"))
       == Written(v.providerRepositoryId, Get(before.entries, Str("provider_repository_id")))
    && Get(after.entries, Str("storage_provider")) == Written(v.storageProvider, Get(before.entries, Str("storage_provider")))
  }

  lemma FieldIsPut(p: Policy, slots: seq<Slot>, es: Entries, a: nat, name: string, value: Option<string>)
    requires ValidSlots(slots) && a < |slots| && slots[a] == PutSlot(name, value) && Apply(p, Supplied(slots), es).ok
    ensures Get(Apply(p, Supplied(slots), es).entries, Str(name)) == Written(value, Get(es, Str(name)))
  {
    SlotAfter(p, slots, es, a);
  }

  lemma RepositoryFields(p: Policy, v: RepositoryValues, es: Entries)
    ensures IsWrittenItem(v, Hash(es), Hash(ItemAfter(p, v, es)))
  {
    var slots := RepositorySlots(v);
    RepositorySlotsAreFlat(v);
    FlatSucceeds(p, slots, es);
    FieldIsPut(p, slots, es, 0, "id", Some(v.id));
    FieldIsPut(p, slots, es, 1, "repo_provider", v.repoProvider);
    FieldIsPut(p, slots, es, 2, "host", v.host);
    FieldIsPut(p, slots, es, 3, "owner", v.owner);
    FieldIsPut(p, slots, es, 4, "name", v.name);
    FieldIsPut(p, slots, es, 5, "provider_repository_id", v.providerRepositoryId);
    FieldIsPut(p, slots, es, 6, "storage_provider", v.storageProvider);
  }
}
