/** Editing the server configuration in place: a YAML tree whose sections hold entries by identifier. */
module ConfigEdit {
  import opened Wrappers
  import opened Text
  import opened YamlEdits

  const REPOSITORY_PROVIDERS_KEY := "repository_providers"
  const STORAGE_PROVIDERS_KEY := "storage_providers"
  const REPOSITORIES_KEY := "repositories"

  datatype EditOutcome = Added | Updated | Unchanged

  datatype RemoveOutcome = Removed | NotFound

  datatype RepositoryProviderValues = RepositoryProviderValues(
    id: string, providerType: Option<string>, apiUrl: Option<string>, clearApiUrl: bool,
    personalAccessToken: Option<string>)

  datatype StorageProviderValues = StorageProviderValues(
    id: string, providerType: Option<string>, credentialsType: Option<string>, configDir: Option<string>,
    executable: Option<string>, rootFolderId: Option<string>, displayName: Option<string>)

  datatype RepositoryValues = RepositoryValues(
    id: string, repoProvider: Option<string>, host: Option<string>, owner: Option<string>, name: Option<string>,
    providerRepositoryId: Option<string>, storageProvider: Option<string>)

  datatype ConfigError = EmptyId | MissingFlag(flag: string) | InvalidSection(section: string)

  // ----- Reading -----

  function StringValue(mapping: Entries, name: string): Option<string> {
    match Get(mapping, Str(name))
    case Some(Str(text)) => Some(text)
    case _ => None
  }

  function OptionalHash(mapping: Entries, name: string): Option<Entries> {
    match Get(mapping, Str(name))
    case Some(Hash(es)) => Some(es)
    case _ => None
  }

  /** `map_entry`. */
  function MapEntry(document: Yaml, section: string, id: string): Result<Option<Entries>, ConfigError> {
    match document
    case Hash(root) => (
      match Get(root, Str(section))
      case None => Success(None)
      case Some(Hash(sub)) => (
        match Get(sub, Str(id))
        case None => Success(None)
        case Some(Hash(entry)) => Success(Some(entry))
        case Some(_) => Failure(InvalidSection(id)))
      case Some(_) => Failure(InvalidSection(section)))
    case _ => Failure(InvalidSection("<root>"))
  }

  /** The nested mapping of credentials, or an empty one. */
  function CredentialsOf(es: Entries): Entries {
    match OptionalHash(es, "credentials") case Some(credentials) => credentials case None => []
  }

  function StorageValuesOf(id: string, entry: Entries): StorageProviderValues {
    var credentials := CredentialsOf(entry);
    StorageProviderValues(
      id, StringValue(entry, "type"), StringValue(credentials, "type"), StringValue(credentials, "config_dir"),
      StringValue(credentials, "executable"), StringValue(entry, "root_folder_id"), StringValue(entry, "display_name"))
  }

  /** `storage_provider`. */
  function StorageProvider(document: Yaml, id: string): Result<Option<StorageProviderValues>, ConfigError> {
    match MapEntry(document, STORAGE_PROVIDERS_KEY, id)
    case Failure(e) => Failure(e)
    case Success(None) => Success(None)
    case Success(Some(entry)) => Success(Some(StorageValuesOf(id, entry)))
  }

  /** `repository_provider`. */
  function RepositoryProvider(document: Yaml, id: string): Result<Option<RepositoryProviderValues>, ConfigError> {
    match MapEntry(document, REPOSITORY_PROVIDERS_KEY, id)
    case Failure(e) => Failure(e)
    case Success(None) => Success(None)
    case Success(Some(entry)) =>
      Success(Some(RepositoryProviderValues(
        id, StringValue(entry, "type"), StringValue(entry, "api_url"), false, StringValue(entry, "personal_access_token"))))
  }

  function Or(supplied: Option<string>, existing: Option<string>): Option<string> {
    if supplied.Some? then supplied else existing
  }

  const NO_STORAGE := StorageProviderValues("", None, None, None, None, None, None)

  /** The values of an entry with the supplied ones in front. */
  function Merged(v: StorageProviderValues, existing: StorageProviderValues): StorageProviderValues {
    StorageProviderValues(
      v.id, Or(v.providerType, existing.providerType), Or(v.credentialsType, existing.credentialsType),
      Or(v.configDir, existing.configDir), Or(v.executable, existing.executable),
      Or(v.rootFolderId, existing.rootFolderId), Or(v.displayName, existing.displayName))
  }

  /** `with_effective_values`. */
  function EffectiveValues(document: Yaml, values: StorageProviderValues): Result<StorageProviderValues, ConfigError> {
    match StorageProvider(document, values.id)
    case Failure(e) => Failure(e)
    case Success(found) => Success(Merged(values, match found case Some(v) => v case None => NO_STORAGE))
  }

  // ----- The fields of an entry -----

  /** A field that may be edited. */
  datatype Slot = Slot(name: string, edit: Option<Edit>)

  function PutSlot(name: string, value: Option<string>): Slot {
    Slot(name, match value case Some(text) => Some(Put(name, Str(text))) case None => None)
  }

  /** The edits of the fields that are edited, in order. */
  function Supplied(slots: seq<Slot>): seq<Edit> {
    if slots == [] then []
    else
      var n := |slots| - 1;
      if slots[n].edit.Some? then Supplied(slots[..n]) + [slots[n].edit.value] else Supplied(slots[..n])
  }

  function ProviderSlots(v: RepositoryProviderValues): seq<Slot> {
    [PutSlot("type", v.providerType),
     if v.clearApiUrl then Slot("api_url", Some(Drop("api_url"))) else PutSlot("api_url", v.apiUrl),
     PutSlot("personal_access_token", v.personalAccessToken)]
  }

  function CredentialSlots(v: StorageProviderValues): seq<Slot> {
    [PutSlot("type", v.credentialsType), PutSlot("config_dir", v.configDir), PutSlot("executable", v.executable)]
  }

  predicate EditsCredentials(v: StorageProviderValues) {
    v.credentialsType.Some? || v.configDir.Some? || v.executable.Some?
  }

  function StorageSlots(v: StorageProviderValues): seq<Slot> {
    [PutSlot("type", v.providerType),
     Slot("credentials", if EditsCredentials(v) then Some(Into("credentials", Supplied(CredentialSlots(v)))) else None),
     PutSlot("root_folder_id", v.rootFolderId), PutSlot("display_name", v.displayName)]
  }

  function RepositorySlots(v: RepositoryValues): seq<Slot> {
    [PutSlot("id", Some(v.id)), PutSlot("repo_provider", v.repoProvider), PutSlot("host", v.host), PutSlot("owner", v.owner),
     PutSlot("name", v.name), PutSlot("provider_repository_id", v.providerRepositoryId),
     PutSlot("storage_provider", v.storageProvider)]
  }

  // ----- Upserting an entry of a section -----

  function OutcomeOf(existed: bool, changed: bool): EditOutcome {
    if !existed then Added else if changed then Updated else Unchanged
  }

  /** The fields of one entry are edited below the section and the identifier. */
  function EntryEdits(section: string, id: string, slots: seq<Slot>): seq<Edit> {
    [Into(section, [Into(id, Supplied(slots))])]
  }

  datatype Upserted = Upserted(document: Yaml, result: Result<EditOutcome, ConfigError>)

  /** After the checks: the entry is edited, and the outcome compares the documents. Only a nested mapping can be
      in the way then. */
  function UpsertEntry(p: Policy, document: Yaml, section: string, id: string, slots: seq<Slot>, existed: bool): Upserted
    requires document.Hash?
  {
    var r := Apply(p, EntryEdits(section, id, slots), document.entries);
    Upserted(Hash(r.entries),
             if r.ok then Success(OutcomeOf(existed, document != Hash(r.entries))) else Failure(InvalidSection("credentials")))
  }

  function MissingProviderFlag(v: RepositoryProviderValues): Option<ConfigError> {
    if v.providerType.None? then Some(MissingFlag("--type")) else None
  }

  function MissingStorageFlag(v: StorageProviderValues): Option<ConfigError> {
    if v.providerType.None? then Some(MissingFlag("--type"))
    else if v.credentialsType.None? then Some(MissingFlag("--credentials-type"))
    else if v.configDir.None? then Some(MissingFlag("--config-dir"))
    else if v.rootFolderId.None? then Some(MissingFlag("--root-folder-id"))
    else None
  }

  /** The checks before an upsert, and whether the entry exists. */
  function Checked(document: Yaml, section: string, id: string, missing: Option<ConfigError>): Result<bool, ConfigError> {
    if Trim(id) == "" then Failure(EmptyId)
    else
      match MapEntry(document, section, id)
      case Failure(e) => Failure(e)
      case Success(found) => if found.None? && missing.Some? then Failure(missing.value) else Success(found.Some?)
  }

  function UpsertProvider(p: Policy, document: Yaml, v: RepositoryProviderValues): Upserted {
    match Checked(document, REPOSITORY_PROVIDERS_KEY, v.id, MissingProviderFlag(v))
    case Failure(e) => Upserted(document, Failure(e))
    case Success(existed) => UpsertEntry(p, document, REPOSITORY_PROVIDERS_KEY, v.id, ProviderSlots(v), existed)
  }

  function UpsertStorage(p: Policy, document: Yaml, v: StorageProviderValues): Upserted {
    match Checked(document, STORAGE_PROVIDERS_KEY, v.id, MissingStorageFlag(v))
    case Failure(e) => Upserted(document, Failure(e))
    case Success(existed) => UpsertEntry(p, document, STORAGE_PROVIDERS_KEY, v.id, StorageSlots(v), existed)
  }

  /** `remove_map_entry`. */
  function RemoveEntry(document: Yaml, section: string, id: string): (Yaml, Result<RemoveOutcome, ConfigError>) {
    match document
    case Hash(root) => (
      match Get(root, Str(section))
      case None => (document, Success(NotFound))
      case Some(Hash(sub)) =>
        (Hash(Replace(root, Str(section), Hash(Without(sub, Str(id))))),
         Success(if Get(sub, Str(id)).Some? then Removed else NotFound))
      case Some(_) => (document, Failure(InvalidSection(section))))
    case _ => (document, Failure(InvalidSection("<root>")))
  }

  // ----- Served repositories: a sequence of mappings -----

  function RepositoryValuesOf(entry: Entries): RepositoryValues {
    RepositoryValues(
      match StringValue(entry, "id") case Some(id) => id case None => "",
      StringValue(entry, "repo_provider"), StringValue(entry, "host"), StringValue(entry, "owner"),
      StringValue(entry, "name"), StringValue(entry, "provider_repository_id"), StringValue(entry, "storage_provider"))
  }

  predicate AllMappings(items: seq<Yaml>) { forall i :: 0 <= i < |items| ==> items[i].Hash? }

  /** The items of the section; none without it. */
  function RepositoryItems(document: Yaml): (r: Result<seq<Yaml>, ConfigError>)
    ensures r.Success? ==> document.Hash? && AllMappings(r.value)
  {
    match document
    case Hash(root) => (
      match Get(root, Str(REPOSITORIES_KEY))
      case None => Success([])
      case Some(Arr(items)) =>
        if AllMappings(items) then Success(items) else Failure(InvalidSection(REPOSITORIES_KEY))
      case Some(_) => Failure(InvalidSection(REPOSITORIES_KEY)))
    case _ => Failure(InvalidSection("<root>"))
  }

  /** The first item with the identifier, or the number of items. */
  function Position(items: seq<Yaml>, id: string): (i: nat)
    requires AllMappings(items)
    ensures i <= |items|
    ensures i < |items| ==> RepositoryValuesOf(items[i].entries).id == id
    ensures forall j :: 0 <= j < i ==> RepositoryValuesOf(items[j].entries).id != id
  {
    if items == [] || RepositoryValuesOf(items[0].entries).id == id then 0 else Position(items[1..], id) + 1
  }

  function MissingRepositoryFlag(v: RepositoryValues): Option<ConfigError> {
    if v.repoProvider.None? then Some(MissingFlag("--repo-provider"))
    else if v.host.None? then Some(MissingFlag("--host"))
    else if v.owner.None? then Some(MissingFlag("--owner"))
    else if v.name.None? then Some(MissingFlag("--name"))
    else if v.providerRepositoryId.None? then Some(MissingFlag("--provider-repository-id"))
    else if v.storageProvider.None? then Some(MissingFlag("--storage-provider"))
    else None
  }

  function EditedItems(p: Policy, items: seq<Yaml>, v: RepositoryValues): seq<Yaml>
    requires AllMappings(items)
  {
    var i := Position(items, v.id);
    if i < |items| then items[i := Hash(Apply(p, Supplied(RepositorySlots(v)), items[i].entries).entries)]
    else items + [Hash(Apply(p, Supplied(RepositorySlots(v)), []).entries)]
  }

  /** Why an upsert cannot be done among these items. */
  function ItemsError(items: seq<Yaml>, v: RepositoryValues): Option<ConfigError>
    requires AllMappings(items)
  {
    if Position(items, v.id) == |items| then MissingRepositoryFlag(v) else None
  }

  /** The checks before the upsert, and the items. */
  function CheckedItems(document: Yaml, v: RepositoryValues): (r: Result<seq<Yaml>, ConfigError>)
    ensures r.Success? ==> RepositoryItems(document) == r && document.Hash? && AllMappings(r.value)
  {
    if Trim(v.id) == "" then Failure(EmptyId)
    else
      var found := RepositoryItems(document);
      if found.Failure? then found
      else
        match ItemsError(found.value, v)
        case Some(e) => Failure(e)
        case None => found
  }

  /** The document with these items in the section, which is created if it is not there. */
  function WithItems(p: Policy, document: Yaml, items: seq<Yaml>): (r: Yaml)
    requires document.Hash?
    ensures r.Hash?
  {
    Hash(Replace(EntryOr(p, document.entries, Str(REPOSITORIES_KEY), Arr([])), Str(REPOSITORIES_KEY), Arr(items)))
  }

  function UpsertRepositorySpec(p: Policy, document: Yaml, v: RepositoryValues): Upserted {
    match CheckedItems(document, v)
    case Failure(e) => Upserted(document, Failure(e))
    case Success(items) =>
      var edited := WithItems(p, document, EditedItems(p, items, v));
      Upserted(edited, Success(OutcomeOf(Position(items, v.id) < |items|, document != edited)))
  }

  /** The first mapping with the identifier as a string, or the number of items. */
  function StrictPosition(items: seq<Yaml>, id: string): (i: nat)
    ensures i <= |items|
    ensures i < |items| ==> items[i].Hash? && StringValue(items[i].entries, "id") == Some(id)
    ensures forall j :: 0 <= j < i ==> !(items[j].Hash? && StringValue(items[j].entries, "id") == Some(id))
  {
    if items == [] || (items[0].Hash? && StringValue(items[0].entries, "id") == Some(id)) then 0
    else StrictPosition(items[1..], id) + 1
  }

  function RemoveAt(items: seq<Yaml>, i: nat): seq<Yaml>
    requires i < |items|
  {
    items[..i] + items[i + 1..]
  }

  /** `remove_repository`: the section is created if it is not there. */
  function RemoveRepositorySpec(p: Policy, document: Yaml, id: string): (Yaml, Result<RemoveOutcome, ConfigError>) {
    match document
    case Hash(before) => (
      var root := EntryOr(p, before, Str(REPOSITORIES_KEY), Arr([]));
      match Get(root, Str(REPOSITORIES_KEY))
      case Some(Arr(items)) =>
        var i := StrictPosition(items, id);
        if i == |items| then (Hash(root), Success(NotFound))
        else (WithItems(p, document, RemoveAt(items, i)), Success(Removed))
      case _ => (Hash(root), Failure(InvalidSection(REPOSITORIES_KEY))))
    case _ => (document, Failure(InvalidSection("<root>")))
  }

  // ----- Field by field -----

  /** The entry after the first `i` fields. */
  function AfterSlots(p: Policy, slots: seq<Slot>, i: nat, start: Entries): Edited
    requires i <= |slots|
  {
    if i == 0 then Edited(start, true)
    else
      var before := AfterSlots(p, slots, i - 1, start);
      if slots[i - 1].edit.None? || !before.ok then before else Step(p, slots[i - 1].edit.value, before.entries)
  }

  lemma SlotAppend(p: Policy, slots: seq<Slot>, slot: Slot, es: Entries)
    ensures Apply(p, Supplied(slots + [slot]), es)
            == if slot.edit.None? || !Apply(p, Supplied(slots), es).ok then Apply(p, Supplied(slots), es)
               else Step(p, slot.edit.value, Apply(p, Supplied(slots), es).entries)
  {
    assert (slots + [slot])[..|slots|] == slots;
    if slot.edit.Some? {
      assert (Supplied(slots) + [slot.edit.value])[..|Supplied(slots)|] == Supplied(slots);
    }
  }

  lemma {:induction false} SlotsInOrder(p: Policy, slots: seq<Slot>, i: nat, start: Entries)
    requires i <= |slots|
    ensures AfterSlots(p, slots, i, start) == Apply(p, Supplied(slots[..i]), start)
  {
    if i > 0 {
      SlotsInOrder(p, slots, i - 1, start);
      assert slots[..i] == slots[..i - 1] + [slots[i - 1]];
      SlotAppend(p, slots[..i - 1], slots[i - 1], start);
    }
  }

  lemma AllSlots(p: Policy, slots: seq<Slot>, start: Entries)
    ensures AfterSlots(p, slots, |slots|, start) == Apply(p, Supplied(slots), start)
  {
    SlotsInOrder(p, slots, |slots|, start);
    assert slots[..|slots|] == slots;
  }

  /** `set_optional_string`, when the fields before it are done. */
  method SetOptionalString(p: Policy, mapping: Entries, name: string, value: Option<string>,
                           ghost start: Entries, ghost slots: seq<Slot>, ghost i: nat)
    returns (r: Entries)
    requires i < |slots| && slots[i] == PutSlot(name, value)
    requires AfterSlots(p, slots, i, start) == Edited(mapping, true)
    ensures AfterSlots(p, slots, i + 1, start) == Edited(r, true)
  {
    r := if value.Some? then Insert(p, mapping, Str(name), Str(value.value)) else mapping;
  }

  /** One mapping deeper. */
  lemma EditBelow(p: Policy, es: Entries, name: string, edits: seq<Edit>)
    requires Below(es, name).Some?
    ensures var at, r := EntryOr(p, es, Str(name), Hash([])), Apply(p, edits, Below(es, name).value);
            Get(at, Str(name)) == Some(Hash(Below(es, name).value))
            && Apply(p, [Into(name, edits)], es) == Edited(Replace(at, Str(name), Hash(r.entries)), r.ok)
  {
    EntryFacts(p, es, Str(name), Hash([]), Str(name));
    OneEdit(p, Into(name, edits), es);
    IntoUnfolds(p, Into(name, edits), es);
  }

  /** `map_entry_mut`, once the section and the entry are known to be mappings if they are there. */
  lemma NestedEdits(p: Policy, root: Entries, section: string, id: string, slots: seq<Slot>)
    requires Below(root, section).Some? && Below(Below(root, section).value, id).Some?
    ensures var at := EntryOr(p, root, Str(section), Hash([]));
            var sub := Below(root, section).value;
            var atEntry := EntryOr(p, sub, Str(id), Hash([]));
            var r := Apply(p, Supplied(slots), Below(sub, id).value);
            Get(at, Str(section)) == Some(Hash(sub)) && Get(atEntry, Str(id)) == Some(Hash(Below(sub, id).value))
            && Apply(p, EntryEdits(section, id, slots), root)
               == Edited(Replace(at, Str(section), Hash(Replace(atEntry, Str(id), Hash(r.entries)))), r.ok)
  {
    EditBelow(p, Below(root, section).value, id, Supplied(slots));
    EditBelow(p, root, section, [Into(id, Supplied(slots))]);
  }

  lemma OneEdit(p: Policy, e: Edit, es: Entries)
    ensures Apply(p, [e], es) == Step(p, e, es)
  {
    assert [e][..0] == [] && [e][0] == e;
  }

  lemma MapEntryMeans(document: Yaml, section: string, id: string)
    requires MapEntry(document, section, id).Success?
    ensures document.Hash? && Below(document.entries, section).Some?
            && Below(Below(document.entries, section).value, id).Some?
    ensures MapEntry(document, section, id).value.Some? ==>
              MapEntry(document, section, id).value == Below(Below(document.entries, section).value, id)
    ensures MapEntry(document, section, id).value.None? ==> Below(Below(document.entries, section).value, id) == Some([])
  {
  }

  lemma ItemsOfSection(p: Policy, document: Yaml)
    requires RepositoryItems(document).Success?
    ensures Get(EntryOr(p, document.entries, Str(REPOSITORIES_KEY), Arr([])), Str(REPOSITORIES_KEY))
            == Some(Arr(RepositoryItems(document).value))
  {
    EntryFacts(p, document.entries, Str(REPOSITORIES_KEY), Arr([]), Str(REPOSITORIES_KEY));
  }

  /** A configuration that is being edited. */
  class EditableServerConfig {
    const policy: Policy
    var document: Yaml

    constructor (policy: Policy, document: Yaml)
      ensures this.policy == policy && this.document == document
    {
      this.policy := policy;
      this.document := document;
    }

    /** The checks before an upsert. */
    method Check(section: string, id: string, missing: Option<ConfigError>) returns (r: Result<bool, ConfigError>)
      ensures r == Checked(document, section, id, missing)
    {
      if Trim(id) == "" { return Failure(EmptyId); }
      var found := MapEntry(document, section, id);
      if found.Failure? { return Failure(found.error); }
      if found.value.None? && missing.Some? { return Failure(missing.value); }
      return Success(found.value.Some?);
    }

    /** Finds or creates the entry, and puts it back once it has been edited. */
    method MapEntryMut(section: string, id: string) returns (root: Entries, sub: Entries, entry: Entries)
      requires document.Hash? && Below(document.entries, section).Some?
      requires Below(Below(document.entries, section).value, id).Some?
      ensures root == EntryOr(policy, document.entries, Str(section), Hash([]))
      ensures sub == EntryOr(policy, Below(document.entries, section).value, Str(id), Hash([]))
      ensures entry == Below(Below(document.entries, section).value, id).value
    {
      NestedEdits(policy, document.entries, section, id, []);
      root := EntryOr(policy, document.entries, Str(section), Hash([]));
      sub := EntryOr(policy, Get(root, Str(section)).value.entries, Str(id), Hash([]));
      entry := Get(sub, Str(id)).value.entries;
    }

    method UpsertRepositoryProvider(values: RepositoryProviderValues) returns (r: Result<EditOutcome, ConfigError>)
      modifies this
      ensures UpsertProvider(policy, old(document), values) == Upserted(document, r)
    {
      var existed := Check(REPOSITORY_PROVIDERS_KEY, values.id, MissingProviderFlag(values));
      if existed.Failure? { return Failure(existed.error); }
      MapEntryMeans(document, REPOSITORY_PROVIDERS_KEY, values.id);
      var before := document;
      var root, sub, entry := MapEntryMut(REPOSITORY_PROVIDERS_KEY, values.id);
      AllSlots(policy, ProviderSlots(values), entry);
      entry := EditProviderEntry(policy, entry, values);
      NestedEdits(policy, before.entries, REPOSITORY_PROVIDERS_KEY, values.id, ProviderSlots(values));
      document := Hash(Replace(root, Str(REPOSITORY_PROVIDERS_KEY), Hash(Replace(sub, Str(values.id), Hash(entry)))));
      return Success(OutcomeOf(existed.value, before != document));
    }

    method UpsertStorageProvider(values: StorageProviderValues) returns (r: Result<EditOutcome, ConfigError>)
      modifies this
      ensures UpsertStorage(policy, old(document), values) == Upserted(document, r)
    {
      var existed := Check(STORAGE_PROVIDERS_KEY, values.id, MissingStorageFlag(values));
      if existed.Failure? { return Failure(existed.error); }
      MapEntryMeans(document, STORAGE_PROVIDERS_KEY, values.id);
      var before := document;
      var root, sub, start := MapEntryMut(STORAGE_PROVIDERS_KEY, values.id);
      AllSlots(policy, StorageSlots(values), start);
      var entry, ok := EditStorageEntry(policy, start, values);
      NestedEdits(policy, before.entries, STORAGE_PROVIDERS_KEY, values.id, StorageSlots(values));
      document := Hash(Replace(root, Str(STORAGE_PROVIDERS_KEY), Hash(Replace(sub, Str(values.id), Hash(entry)))));
      if !ok { return Failure(InvalidSection("credentials")); }
      return Success(OutcomeOf(existed.value, before != document));
    }

    method CheckRepository(values: RepositoryValues) returns (r: Result<seq<Yaml>, ConfigError>)
      ensures r == CheckedItems(document, values)
    {
      if Trim(values.id) == "" { return Failure(EmptyId); }
      var found := RepositoryItems(document);
      if found.Failure? { return found; }
      var error := ItemsError(found.value, values);
      return if error.Some? then Failure(error.value) else found;
    }

    method UpsertRepository(values: RepositoryValues) returns (r: Result<EditOutcome, ConfigError>)
      modifies this
      ensures UpsertRepositorySpec(policy, old(document), values) == Upserted(document, r)
    {
      var found := CheckRepository(values);
      if found.Failure? { return Failure(found.error); }
      var before := document;
      var index := Position(found.value, values.id);
      ItemsOfSection(policy, document);
      var root := EntryOr(policy, document.entries, Str(REPOSITORIES_KEY), Arr([]));
      var repositories := EditItems(policy, Get(root, Str(REPOSITORIES_KEY)).value.items, index, values);
      document := Hash(Replace(root, Str(REPOSITORIES_KEY), Arr(repositories)));
      return Success(OutcomeOf(index < |found.value|, before != document));
    }

    method RemoveMapEntry(section: string, id: string) returns (r: Result<RemoveOutcome, ConfigError>)
      modifies this
      ensures (document, r) == RemoveEntry(old(document), section, id)
    {
      if !document.Hash? { return Failure(InvalidSection("<root>")); }
      var value := Get(document.entries, Str(section));
      if value.None? { return Success(NotFound); }
      if !value.value.Hash? { return Failure(InvalidSection(section)); }
      var sub := value.value.entries;
      document := Hash(Replace(document.entries, Str(section), Hash(Without(sub, Str(id)))));
      return Success(if Get(sub, Str(id)).Some? then Removed else NotFound);
    }

    method RemoveRepository(id: string) returns (r: Result<RemoveOutcome, ConfigError>)
      modifies this
      ensures (document, r) == RemoveRepositorySpec(policy, old(document), id)
    {
      if !document.Hash? { return Failure(InvalidSection("<root>")); }
      var root := EntryOr(policy, document.entries, Str(REPOSITORIES_KEY), Arr([]));
      document := Hash(root);
      var value := Get(root, Str(REPOSITORIES_KEY));
      if value.None? || !value.value.Arr? { return Failure(InvalidSection(REPOSITORIES_KEY)); }
      var items := value.value.items;
      var i := StrictPosition(items, id);
      if i == |items| { return Success(NotFound); }
      document := Hash(Replace(root, Str(REPOSITORIES_KEY), Arr(RemoveAt(items, i))));
      return Success(Removed);
    }
  }

  method EditItems(p: Policy, items: seq<Yaml>, index: nat, values: RepositoryValues) returns (repositories: seq<Yaml>)
    requires AllMappings(items) && index == Position(items, values.id)
    ensures repositories == EditedItems(p, items, values)
  {
    repositories := items;
    if index == |items| {
      repositories := repositories + [Hash([])];
    }
    AllSlots(p, RepositorySlots(values), repositories[index].entries);
    var entry := EditRepositoryEntry(p, repositories[index].entries, values);
    repositories := repositories[index := Hash(entry)];
  }

  method EditProviderEntry(p: Policy, start: Entries, values: RepositoryProviderValues) returns (entry: Entries)
    ensures Edited(entry, true) == AfterSlots(p, ProviderSlots(values), |ProviderSlots(values)|, start)
  {
    ghost var slots := ProviderSlots(values);
    entry := SetOptionalString(p, start, "type", values.providerType, start, slots, 0);
    if values.clearApiUrl {
      entry := Without(entry, Str("api_url"));
    } else {
      entry := SetOptionalString(p, entry, "api_url", values.apiUrl, start, slots, 1);
    }
    entry := SetOptionalString(p, entry, "personal_access_token", values.personalAccessToken, start, slots, 2);
  }

  method EditCredentials(p: Policy, start: Entries, values: StorageProviderValues) returns (credentials: Entries)
    ensures Edited(credentials, true) == AfterSlots(p, CredentialSlots(values), |CredentialSlots(values)|, start)
  {
    ghost var slots := CredentialSlots(values);
    credentials := SetOptionalString(p, start, "type", values.credentialsType, start, slots, 0);
    credentials := SetOptionalString(p, credentials, "config_dir", values.configDir, start, slots, 1);
    credentials := SetOptionalString(p, credentials, "executable", values.executable, start, slots, 2);
  }

  method EditStorageEntry(p: Policy, start: Entries, values: StorageProviderValues) returns (entry: Entries, ok: bool)
    ensures Edited(entry, ok) == AfterSlots(p, StorageSlots(values), |StorageSlots(values)|, start)
  {
    ghost var slots := StorageSlots(values);
    entry := SetOptionalString(p, start, "type", values.providerType, start, slots, 0);
    if EditsCredentials(values) {
      entry := EntryOr(p, entry, Str("credentials"), Hash([]));
      var value := Get(entry, Str("credentials"));
      if value.None? || !value.value.Hash? {
        assert AfterSlots(p, slots, 2, start) == Edited(entry, false);
        assert AfterSlots(p, slots, 3, start) == Edited(entry, false);
        return entry, false;
      }
      AllSlots(p, CredentialSlots(values), value.value.entries);
      var credentials := EditCredentials(p, value.value.entries, values);
      entry := Replace(entry, Str("credentials"), Hash(credentials));
    }
    entry := SetOptionalString(p, entry, "root_folder_id", values.rootFolderId, start, slots, 2);
    entry := SetOptionalString(p, entry, "display_name", values.displayName, start, slots, 3);
    ok := true;
  }

  method EditRepositoryEntry(p: Policy, start: Entries, values: RepositoryValues) returns (entry: Entries)
    ensures Edited(entry, true) == AfterSlots(p, RepositorySlots(values), |RepositorySlots(values)|, start)
  {
    ghost var slots := RepositorySlots(values);
    entry := SetOptionalString(p, start, "id", Some(values.id), start, slots, 0);
    entry := SetOptionalString(p, entry, "repo_provider", values.repoProvider, start, slots, 1);
    entry := SetOptionalString(p, entry, "host", values.host, start, slots, 2);
    entry := SetOptionalString(p, entry, "owner", values.owner, start, slots, 3);
    entry := SetOptionalString(p, entry, "name", values.name, start, slots, 4);
    entry := SetOptionalString(p, entry, "provider_repository_id", values.providerRepositoryId, start, slots, 5);
    entry := SetOptionalString(p, entry, "storage_provider", values.storageProvider, start, slots, 6);
  }
}
