/** Upserts and removals of the server configuration: what they change, what they leave alone, and doing them twice. */
module ConfigEditProofs {
  import opened Wrappers
  import opened KeyOrder
  import opened YamlEdits
  import opened YamlEditProofs
  import opened ConfigEdit
  import opened ConfigSlots

  // ----- The edited entry -----

  /** The entry, or an empty mapping. */
  function EntryOf(document: Yaml, section: string, id: string): Entries {
    match MapEntry(document, section, id) case Success(Some(entry)) => entry case _ => []
  }

  /** The entries of a section that is a mapping. */
  function SectionOf(document: Yaml, section: string): Entries {
    if document.Hash? then (match Get(document.entries, Str(section)) case Some(Hash(sub)) => sub case _ => []) else []
  }

  lemma BelowAfter(p: Policy, es: Entries, name: string, edits: seq<Edit>)
    requires Below(es, name).Some?
    ensures var r := Apply(p, [Into(name, edits)], es);
            Get(r.entries, Str(name)) == Some(Hash(Apply(p, edits, Below(es, name).value).entries))
            && r.ok == Apply(p, edits, Below(es, name).value).ok
  {
    OneEdit(p, Into(name, edits), es);
    StepFacts(p, Into(name, edits), es, Str(name));
  }

  /** Afterwards the entry is what the field edits make of it. */
  lemma EntryAfter(p: Policy, document: Yaml, section: string, id: string, slots: seq<Slot>)
    requires MapEntry(document, section, id).Success?
    ensures var r := Apply(p, EntryEdits(section, id, slots), document.entries);
            var entry := Apply(p, Supplied(slots), EntryOf(document, section, id));
            MapEntry(Hash(r.entries), section, id) == Success(Some(entry.entries)) && r.ok == entry.ok
  {
    MapEntryMeans(document, section, id);
    BelowAfter(p, document.entries, section, [Into(id, Supplied(slots))]);
    BelowAfter(p, Below(document.entries, section).value, id, Supplied(slots));
  }

  lemma EntryIsWellFormed(document: Yaml, section: string, id: string)
    requires WellFormed(document) && MapEntry(document, section, id).Success?
    ensures WellFormed(Hash(EntryOf(document, section, id)))
  {
    MapEntryMeans(document, section, id);
    WellFormedBelow(document.entries, section);
    WellFormedBelow(Below(document.entries, section).value, id);
  }

  // ----- Twice -----

  lemma OneEditSettles(p: Policy, name: string, edits: seq<Edit>, es: Entries)
    requires Below(es, name).Some?
    ensures SettledEdits(p, [Into(name, edits)], es) <==> SettledEdits(p, edits, Below(es, name).value)
  {
    var one := [Into(name, edits)];
    assert one[0] == Into(name, edits);
  }

  lemma EntryEditsAreValid(section: string, id: string, slots: seq<Slot>)
    requires ValidSlots(slots)
    ensures DistinctEdits(EntryEdits(section, id, slots)) && WellFormedEdits(EntryEdits(section, id, slots))
  {
    SuppliedIsValid(slots);
    OneIsValid(Into(id, Supplied(slots)));
    OneIsValid(Into(section, [Into(id, Supplied(slots))]));
  }

  lemma OneIsValid(e: Edit)
    requires e.Into? && DistinctEdits(e.edits) && WellFormedEdits(e.edits)
    ensures DistinctEdits([e]) && WellFormedEdits([e])
  {
    assert [e][0] == e;
  }

  /** Editing an entry a second time succeeds, and leaves the document as it is exactly if the field edits settle. */
  lemma EntryTwice(p: Policy, document: Yaml, section: string, id: string, slots: seq<Slot>)
    requires WellFormed(document) && ValidSlots(slots) && MapEntry(document, section, id).Success?
    requires Apply(p, EntryEdits(section, id, slots), document.entries).ok
    ensures var edits := EntryEdits(section, id, slots);
            var once := Apply(p, edits, document.entries).entries;
            var twice := Apply(p, edits, once);
            twice.ok && WellFormed(Hash(once))
            && (twice.entries == once <==> SettledEdits(p, Supplied(slots), EntryOf(document, section, id)))
  {
    var edits := EntryEdits(section, id, slots);
    EntryEditsAreValid(section, id, slots);
    MapEntryMeans(document, section, id);
    ApplyTwice(p, edits, document.entries);
    ApplyKeepsWellFormed(p, edits, document.entries);
    OneEditSettles(p, section, [Into(id, Supplied(slots))], document.entries);
    OneEditSettles(p, id, Supplied(slots), Below(document.entries, section).value);
  }

  lemma CheckedAfter(document: Yaml, edited: Yaml, section: string, id: string, missing: Option<ConfigError>)
    requires Checked(document, section, id, missing).Success?
    requires MapEntry(edited, section, id).Success? && MapEntry(edited, section, id).value.Some?
    ensures Checked(edited, section, id, missing) == Success(true) && MapEntry(document, section, id).Success?
  {
  }

  /** What the second run of an upsert answers. */
  function SecondOutcome(changed: bool): Result<EditOutcome, ConfigError> {
    Success(if changed then Updated else Unchanged)
  }

  lemma ProviderEntrySettles(p: Policy, v: RepositoryProviderValues, es: Entries)
    ensures ValidSlots(ProviderSlots(v)) && Apply(p, Supplied(ProviderSlots(v)), es).ok
    ensures SettledEdits(p, Supplied(ProviderSlots(v)), es)
  {
    ProviderSlotsAreValid(v);
    FlatSucceeds(p, ProviderSlots(v), es);
    FlatSettles(p, ProviderSlots(v), es);
  }

  /** An upsert of a repository provider is idempotent. */
  lemma ProviderUpsertTwice(p: Policy, document: Yaml, v: RepositoryProviderValues)
    requires WellFormed(document) && UpsertProvider(p, document, v).result.Success?
    ensures var once := UpsertProvider(p, document, v).document;
            UpsertProvider(p, once, v) == Upserted(once, Success(Unchanged)) && WellFormed(once)
  {
    var section, slots := REPOSITORY_PROVIDERS_KEY, ProviderSlots(v);
    CheckedMeans(document, section, v.id, MissingProviderFlag(v));
    ProviderEntrySettles(p, v, EntryOf(document, section, v.id));
    EntryAfter(p, document, section, v.id, slots);
    EntryTwice(p, document, section, v.id, slots);
    CheckedAfter(document, UpsertProvider(p, document, v).document, section, v.id, MissingProviderFlag(v));
  }

  lemma CheckedMeans(document: Yaml, section: string, id: string, missing: Option<ConfigError>)
    requires Checked(document, section, id, missing).Success?
    ensures MapEntry(document, section, id).Success? && document.Hash?
    ensures Checked(document, section, id, missing).value == MapEntry(document, section, id).value.Some?
  {
  }

  /** The second upsert of a storage provider succeeds; it leaves the document equal and answers that nothing
      changed exactly if the edits settle, and otherwise only the order of keys changes once more. */
  lemma StorageUpsertTwice(p: Policy, document: Yaml, v: StorageProviderValues)
    requires WellFormed(document) && UpsertStorage(p, document, v).result.Success?
    ensures var once := UpsertStorage(p, document, v).document;
            var twice := UpsertStorage(p, once, v);
            WellFormed(once) && twice.result == SecondOutcome(twice.document != once)
            && (twice.document == once <==> StorageSettles(p, EntryOf(document, STORAGE_PROVIDERS_KEY, v.id), v))
  {
    var section, slots := STORAGE_PROVIDERS_KEY, StorageSlots(v);
    StorageSlotsAreValid(v);
    CheckedMeans(document, section, v.id, MissingStorageFlag(v));
    EntryTwice(p, document, section, v.id, slots);
    StorageSettlesIff(p, EntryOf(document, section, v.id), v);
    EntryAfter(p, document, section, v.id, slots);
    CheckedAfter(document, UpsertStorage(p, document, v).document, section, v.id, MissingStorageFlag(v));
  }

  /** A mapping type that treats both ways of writing alike settles at once. */
  lemma UniformPolicySettles(p: Policy, document: Yaml, v: StorageProviderValues)
    requires p.insertMoves == p.entryMoves && WellFormed(document) && UpsertStorage(p, document, v).result.Success?
    ensures var once := UpsertStorage(p, document, v).document;
            UpsertStorage(p, once, v) == Upserted(once, Success(Unchanged))
  {
    StorageUpsertTwice(p, document, v);
  }

  /** Whatever the mapping type does, the third upsert changes nothing. */
  lemma StorageUpsertThrice(p: Policy, document: Yaml, v: StorageProviderValues)
    requires WellFormed(document) && UpsertStorage(p, document, v).result.Success?
    ensures var twice := UpsertStorage(p, UpsertStorage(p, document, v).document, v).document;
            UpsertStorage(p, twice, v) == Upserted(twice, Success(Unchanged))
  {
    StorageUpsertTwice(p, document, v);
    SettledStays(p, document, v);
    StorageUpsertTwice(p, UpsertStorage(p, document, v).document, v);
  }

  lemma SettledStays(p: Policy, document: Yaml, v: StorageProviderValues)
    requires WellFormed(document) && UpsertStorage(p, document, v).result.Success?
    ensures var once := UpsertStorage(p, document, v).document;
            StorageSettles(p, EntryOf(once, STORAGE_PROVIDERS_KEY, v.id), v)
  {
    var section, slots := STORAGE_PROVIDERS_KEY, StorageSlots(v);
    StorageSlotsAreValid(v);
    SuppliedIsValid(slots);
    CheckedMeans(document, section, v.id, MissingStorageFlag(v));
    EntryAfter(p, document, section, v.id, slots);
    SettledAfterOnce(p, Supplied(slots), EntryOf(document, section, v.id));
    StorageSettlesIff(p, EntryOf(UpsertStorage(p, document, v).document, section, v.id), v);
  }

  // ----- What is left alone -----

  lemma EditsLeaveTheRest(p: Policy, document: Yaml, section: string, id: string, slots: seq<Slot>, existed: bool, path: seq<Yaml>)
    requires document.Hash? && !TouchedBy(EntryEdits(section, id, slots), path)
    ensures GetPath(UpsertEntry(p, document, section, id, slots, existed).document, path) == GetPath(document, path)
  {
    UntouchedIsKept(p, EntryEdits(section, id, slots), document.entries, path);
  }

  /** Whatever the answer, an upsert changes no value outside the supplied fields of its entry. */
  lemma StorageUpsertLeavesTheRest(p: Policy, document: Yaml, v: StorageProviderValues, path: seq<Yaml>)
    requires !TouchedBy(EntryEdits(STORAGE_PROVIDERS_KEY, v.id, StorageSlots(v)), path)
    ensures GetPath(UpsertStorage(p, document, v).document, path) == GetPath(document, path)
  {
    var checked := Checked(document, STORAGE_PROVIDERS_KEY, v.id, MissingStorageFlag(v));
    if checked.Success? {
      EditsLeaveTheRest(p, document, STORAGE_PROVIDERS_KEY, v.id, StorageSlots(v), checked.value, path);
    }
  }

  lemma ProviderUpsertLeavesTheRest(p: Policy, document: Yaml, v: RepositoryProviderValues, path: seq<Yaml>)
    requires !TouchedBy(EntryEdits(REPOSITORY_PROVIDERS_KEY, v.id, ProviderSlots(v)), path)
    ensures GetPath(UpsertProvider(p, document, v).document, path) == GetPath(document, path)
  {
    var checked := Checked(document, REPOSITORY_PROVIDERS_KEY, v.id, MissingProviderFlag(v));
    if checked.Success? {
      EditsLeaveTheRest(p, document, REPOSITORY_PROVIDERS_KEY, v.id, ProviderSlots(v), checked.value, path);
    }
  }

  // ----- Reading back -----

  lemma CredentialsAfter(p: Policy, v: StorageProviderValues, es: Entries)
    ensures var r := Apply(p, Supplied(CredentialSlots(v)), es);
            r.ok && StringValue(r.entries, "type") == Or(v.credentialsType, StringValue(es, "type"))
            && StringValue(r.entries, "config_dir") == Or(v.configDir, StringValue(es, "config_dir"))
            && StringValue(r.entries, "executable") == Or(v.executable, StringValue(es, "executable"))
  {
    var slots := CredentialSlots(v);
    CredentialSlotsAreValid(v);
    FlatSucceeds(p, slots, es);
    PutSlotAfter(p, slots, es, 0, "type", v.credentialsType);
    PutSlotAfter(p, slots, es, 1, "config_dir", v.configDir);
    PutSlotAfter(p, slots, es, 2, "executable", v.executable);
  }

  lemma CredentialsReadBack(p: Policy, v: StorageProviderValues, es: Entries)
    requires Apply(p, Supplied(StorageSlots(v)), es).ok
    ensures var after := CredentialsOf(Apply(p, Supplied(StorageSlots(v)), es).entries);
            StringValue(after, "type") == Or(v.credentialsType, StringValue(CredentialsOf(es), "type"))
            && StringValue(after, "config_dir") == Or(v.configDir, StringValue(CredentialsOf(es), "config_dir"))
            && StringValue(after, "executable") == Or(v.executable, StringValue(CredentialsOf(es), "executable"))
  {
    StorageSlotsAreValid(v);
    SlotAfter(p, StorageSlots(v), es, 1);
    if EditsCredentials(v) {
      CredentialsAfter(p, v, Below(es, "credentials").value);
    }
  }

  lemma StorageEntryReadsBack(p: Policy, v: StorageProviderValues, es: Entries)
    requires Apply(p, Supplied(StorageSlots(v)), es).ok
    ensures StorageValuesOf(v.id, Apply(p, Supplied(StorageSlots(v)), es).entries) == Merged(v, StorageValuesOf(v.id, es))
  {
    var slots := StorageSlots(v);
    StorageSlotsAreValid(v);
    PutSlotAfter(p, slots, es, 0, "type", v.providerType);
    PutSlotAfter(p, slots, es, 2, "root_folder_id", v.rootFolderId);
    PutSlotAfter(p, slots, es, 3, "display_name", v.displayName);
    CredentialsReadBack(p, v, es);
  }

  /** After a successful upsert the entry reads as the merge that was computed before it. */
  lemma StorageReadsBack(p: Policy, document: Yaml, v: StorageProviderValues)
    requires UpsertStorage(p, document, v).result.Success?
    ensures EffectiveValues(document, v).Success?
    ensures StorageProvider(UpsertStorage(p, document, v).document, v.id) == Success(Some(EffectiveValues(document, v).value))
  {
    var section, slots := STORAGE_PROVIDERS_KEY, StorageSlots(v);
    CheckedMeans(document, section, v.id, MissingStorageFlag(v));
    EntryAfter(p, document, section, v.id, slots);
    StorageEntryReadsBack(p, v, EntryOf(document, section, v.id));
    MergeOfMissing(v);
  }

  lemma MergeOfMissing(v: StorageProviderValues)
    ensures Merged(v, StorageValuesOf(v.id, [])) == Merged(v, NO_STORAGE)
  {
  }

  lemma ProviderEntryReadsBack(p: Policy, v: RepositoryProviderValues, es: Entries)
    ensures var r := Apply(p, Supplied(ProviderSlots(v)), es).entries;
            StringValue(r, "type") == Or(v.providerType, StringValue(es, "type"))
            && StringValue(r, "api_url") == (if v.clearApiUrl then None else Or(v.apiUrl, StringValue(es, "api_url")))
            && StringValue(r, "personal_access_token") == Or(v.personalAccessToken, StringValue(es, "personal_access_token"))
  {
    var slots := ProviderSlots(v);
    ProviderEntrySettles(p, v, es);
    PutSlotAfter(p, slots, es, 0, "type", v.providerType);
    SlotAfter(p, slots, es, 1);
    PutSlotAfter(p, slots, es, 2, "personal_access_token", v.personalAccessToken);
  }

  /** After a successful upsert a repository provider reads as its supplied values over the old ones; clearing the
      API URL wins over supplying one. */
  lemma ProviderReadsBack(p: Policy, document: Yaml, v: RepositoryProviderValues)
    requires UpsertProvider(p, document, v).result.Success?
    ensures var before := EntryOf(document, REPOSITORY_PROVIDERS_KEY, v.id);
            RepositoryProvider(UpsertProvider(p, document, v).document, v.id)
            == Success(Some(RepositoryProviderValues(
                 v.id, Or(v.providerType, StringValue(before, "type")),
                 if v.clearApiUrl then None else Or(v.apiUrl, StringValue(before, "api_url")), false,
                 Or(v.personalAccessToken, StringValue(before, "personal_access_token")))))
  {
    var section := REPOSITORY_PROVIDERS_KEY;
    CheckedMeans(document, section, v.id, MissingProviderFlag(v));
    EntryAfter(p, document, section, v.id, ProviderSlots(v));
    ProviderEntryReadsBack(p, v, EntryOf(document, section, v.id));
  }

  // ----- The upsert that fails half way -----

  /** Once the checks have passed, only credentials that are not a mapping make an upsert fail. */
  lemma StorageUpsertFailsIff(p: Policy, document: Yaml, v: StorageProviderValues)
    requires Checked(document, STORAGE_PROVIDERS_KEY, v.id, MissingStorageFlag(v)).Success?
    ensures UpsertStorage(p, document, v).result.Failure? <==>
            EditsCredentials(v) && Below(EntryOf(document, STORAGE_PROVIDERS_KEY, v.id), "credentials").None?
  {
    var section, slots := STORAGE_PROVIDERS_KEY, StorageSlots(v);
    var es := EntryOf(document, section, v.id);
    CheckedMeans(document, section, v.id, MissingStorageFlag(v));
    EntryAfter(p, document, section, v.id, slots);
    StorageSlotsAreValid(v);
    if Apply(p, Supplied(slots), es).ok {
      SlotAfter(p, slots, es, 1);
    }
    if EditsCredentials(v) ==> Below(es, "credentials").Some? {
      StorageEntrySucceeds(p, v, es);
    }
  }

  lemma StorageEntrySucceeds(p: Policy, v: StorageProviderValues, es: Entries)
    requires EditsCredentials(v) ==> Below(es, "credentials").Some?
    ensures Apply(p, Supplied(StorageSlots(v)), es).ok
  {
    var slots := StorageSlots(v);
    var edits := Supplied(slots);
    StorageSlotsAreValid(v);
    SuppliedIsValid(slots);
    if EditsCredentials(v) {
      CredentialsAfter(p, v, Below(es, "credentials").value);
    }
    var succeeds := (e: Edit) => Succeeds(p, e, es);
    SuppliedEach(slots, succeeds);
    forall i | 0 <= i < |edits| ensures Succeeds(p, edits[i], es) {
      assert succeeds(edits[i]);
    }
    ApplySucceeds(p, edits, es);
  }

  /** The edits end at the credentials, after the type has been put. */
  lemma FailedEntry(p: Policy, v: StorageProviderValues, es: Entries)
    requires EditsCredentials(v) && Below(es, "credentials").None?
    ensures Below(Typed(p, v, es), "credentials").None?
            && Apply(p, Supplied(StorageSlots(v)), es) == Step(p, StorageSlots(v)[1].edit.value, Typed(p, v, es))
  {
    var slots := StorageSlots(v);
    AllSlots(p, slots, es);
    assert AfterSlots(p, slots, 0, es) == Edited(es, true);
    var typed := AfterSlots(p, slots, 1, es).entries;
    if v.providerType.Some? {
      StepFacts(p, slots[0].edit.value, es, Str("credentials"));
    }
    CredentialsStop(p, slots, es, typed);
  }

  lemma CredentialsStop(p: Policy, slots: seq<Slot>, es: Entries, typed: Entries)
    requires |slots| == 4 && AfterSlots(p, slots, 1, es) == Edited(typed, true)
    requires slots[1].edit.Some? && slots[1].edit.value.Into? && Below(typed, slots[1].edit.value.name).None?
    ensures AfterSlots(p, slots, 4, es) == Step(p, slots[1].edit.value, typed)
  {
    StepFacts(p, slots[1].edit.value, typed, Str(""));
    assert AfterSlots(p, slots, 2, es) == Step(p, slots[1].edit.value, typed);
    assert AfterSlots(p, slots, 3, es) == AfterSlots(p, slots, 2, es);
  }

  /** The keys that a failing upsert moves to the back of the entry. */
  function MovedByFailure(p: Policy, v: StorageProviderValues): seq<Yaml> {
    (if p.insertMoves && v.providerType.Some? then [Str("type")] else [])
    + (if p.entryMoves then [Str("credentials")] else [])
  }

  predicate TypeIsKept(v: StorageProviderValues, es: Entries) {
    v.providerType.None? || v.providerType == StringValue(es, "type")
  }

  /** A failed upsert leaves the document as it was exactly if it was not to change the type, and everything that
      the mapping type moves is at the back already: the type is written, and the credentials are asked for, before
      they are looked at. */
  lemma FailedUpsertKeepsDocumentIff(p: Policy, document: Yaml, v: StorageProviderValues)
    requires WellFormed(document) && Checked(document, STORAGE_PROVIDERS_KEY, v.id, MissingStorageFlag(v)).Success?
    requires UpsertStorage(p, document, v).result.Failure?
    ensures var es := EntryOf(document, STORAGE_PROVIDERS_KEY, v.id);
            UpsertStorage(p, document, v).document == document <==>
            TypeIsKept(v, es) && EndsWithKeys(Keys(es), MovedByFailure(p, v))
            && (p.entryMoves ==>
                  EndsWithKeys(Keys(document.entries), [Str(STORAGE_PROVIDERS_KEY)])
                  && EndsWithKeys(Keys(SectionOf(document, STORAGE_PROVIDERS_KEY)), [Str(v.id)]))
  {
    var section, slots := STORAGE_PROVIDERS_KEY, StorageSlots(v);
    var es := EntryOf(document, section, v.id);
    StorageUpsertFailsIff(p, document, v);
    CheckedMeans(document, section, v.id, MissingStorageFlag(v));
    EntryIsWellFormed(document, section, v.id);
    FailedEntryIsSameIff(p, v, es);
    EntryIsThere(document, section, v.id);
    EditedIsSameIff(p, document, section, v.id, slots);
  }

  /** The edits of an entry that is there leave the document as it was exactly if they leave the entry as it was,
      and asking for the section and for the entry does not move them. */
  lemma EditedIsSameIff(p: Policy, document: Yaml, section: string, id: string, slots: seq<Slot>)
    requires WellFormed(document) && MapEntry(document, section, id).Success? && MapEntry(document, section, id).value.Some?
    ensures var es := EntryOf(document, section, id);
            Apply(p, EntryEdits(section, id, slots), document.entries).entries == document.entries <==>
            Apply(p, Supplied(slots), es).entries == es
            && (p.entryMoves ==>
                  EndsWithKeys(Keys(document.entries), [Str(section)])
                  && EndsWithKeys(Keys(SectionOf(document, section)), [Str(id)]))
  {
    var root, sub := document.entries, SectionOf(document, section);
    var entry := Apply(p, Supplied(slots), EntryOf(document, section, id)).entries;
    MapEntryMeans(document, section, id);
    NestedEdits(p, root, section, id, slots);
    WellFormedBelow(root, section);
    var after := Replace(EntryOr(p, sub, Str(id), Hash([])), Str(id), Hash(entry));
    WrittenIsSameIff(p, root, Str(section), Hash([]), Hash(after));
    WrittenIsSameIff(p, sub, Str(id), Hash([]), Hash(entry));
  }

  lemma EntryIsThere(document: Yaml, section: string, id: string)
    requires EntryOf(document, section, id) != []
    ensures MapEntry(document, section, id).Success? && MapEntry(document, section, id).value.Some?
  {
  }

  /** Asking for an entry and writing a value there changes nothing exactly if the value is there already and asking
      does not move it. */
  lemma WrittenIsSameIff(p: Policy, es: Entries, key: Yaml, initial: Yaml, value: Yaml)
    requires Unique(Keys(es))
    ensures Replace(EntryOr(p, es, key, initial), key, value) == es <==>
            Get(es, key) == Some(value) && (p.entryMoves ==> EndsWithKeys(Keys(es), [key]))
  {
    var at := EntryOr(p, es, key, initial);
    var op := Op(key, if p.entryMoves then Move else Stay);
    EntryFacts(p, es, key, initial, key);
    ReplaceFacts(at, key, value, key);
    OneOpIsSameIff(Keys(es), op);
    GetIsMembership(es, key);
    if Get(es, key) == Some(value) && (p.entryMoves ==> EndsWithKeys(Keys(es), [key])) {
      forall k | k in Keys(es) ensures Get(es, k) == Get(Replace(at, key, value), k) {
        EntryFacts(p, es, key, initial, k);
        ReplaceFacts(at, key, value, k);
      }
      SameKeysSameValues(es, Replace(at, key, value));
    }
  }

  /** Asking for an entry changes nothing exactly if it is there and asking does not move it. */
  lemma AskedIsSameIff(p: Policy, es: Entries, key: Yaml, initial: Yaml)
    requires Unique(Keys(es))
    ensures EntryOr(p, es, key, initial) == es <==>
            Get(es, key).Some? && (p.entryMoves ==> EndsWithKeys(Keys(es), [key]))
  {
    var at := EntryOr(p, es, key, initial);
    EntryFacts(p, es, key, initial, key);
    ReplaceSame(at, key);
    WrittenIsSameIff(p, es, key, initial, Get(at, key).value);
  }

  function TypeOps(p: Policy, v: StorageProviderValues): seq<Op<Yaml>> {
    if v.providerType.Some? then [Op(Str("type"), if p.insertMoves then Move else Stay)] else []
  }

  function CredentialsOp(p: Policy): Op<Yaml> { Op(Str("credentials"), if p.entryMoves then Move else Stay) }

  /** What a failing upsert does to the order of the entry's keys. */
  function FailureOps(p: Policy, v: StorageProviderValues): seq<Op<Yaml>> { TypeOps(p, v) + [CredentialsOp(p)] }

  lemma FailureOpsMove(p: Policy, v: StorageProviderValues)
    ensures Distinct(FailureOps(p, v)) && Moved(FailureOps(p, v)) == MovedByFailure(p, v)
  {
    MovedAppend(TypeOps(p, v), CredentialsOp(p));
    if v.providerType.Some? { MovedAppend([], TypeOps(p, v)[0]); }
  }

  lemma MovedAppend<K(!new)>(ops: seq<Op<K>>, op: Op<K>)
    ensures Moved(ops + [op]) == Moved(ops) + (if op.mode.Move? then [op.key] else [])
    ensures ops == [] ==> Moved([op]) == if op.mode.Move? then [op.key] else []
  {
    assert (ops + [op])[..|ops|] == ops;
    if ops == [] { assert ops + [op] == [op]; }
  }

  lemma OrderAppend<K(!new)>(keys: seq<K>, ops: seq<Op<K>>, op: Op<K>)
    ensures Order(keys, ops + [op]) == OrderStep(Order(keys, ops), op)
  {
    assert (ops + [op])[..|ops|] == ops;
  }

  /** The entry with the type put. */
  function Typed(p: Policy, v: StorageProviderValues, es: Entries): Entries {
    if v.providerType.Some? then Insert(p, es, Str("type"), Str(v.providerType.value)) else es
  }

  lemma TypedFacts(p: Policy, v: StorageProviderValues, es: Entries, k: Yaml)
    ensures Keys(Typed(p, v, es)) == Order(Keys(es), TypeOps(p, v))
    ensures Get(Typed(p, v, es), k)
            == if k == Str("type") && v.providerType.Some? then Some(Str(v.providerType.value)) else Get(es, k)
  {
    if v.providerType.Some? {
      InsertFacts(p, es, Str("type"), Str(v.providerType.value), k);
      OneOp(Keys(es), TypeOps(p, v)[0]);
    }
  }

  /** Asking for credentials that are no mapping only orders the keys. */
  lemma CredentialsStepFacts(p: Policy, v: StorageProviderValues, typed: Entries, k: Yaml)
    requires EditsCredentials(v) && Below(typed, "credentials").None?
    ensures var after := Step(p, StorageSlots(v)[1].edit.value, typed).entries;
            Keys(after) == OrderStep(Keys(typed), CredentialsOp(p)) && Get(after, k) == Get(typed, k)
  {
    StepFacts(p, StorageSlots(v)[1].edit.value, typed, k);
  }

  lemma FailedEntryFacts(p: Policy, v: StorageProviderValues, es: Entries, k: Yaml)
    requires EditsCredentials(v) && Below(es, "credentials").None?
    ensures var after := Apply(p, Supplied(StorageSlots(v)), es).entries;
            Keys(after) == Order(Keys(es), FailureOps(p, v)) && Get(after, k) == Get(Typed(p, v, es), k)
  {
    FailedEntry(p, v, es);
    TypedFacts(p, v, es, k);
    CredentialsStepFacts(p, v, Typed(p, v, es), k);
    OrderAppend(Keys(es), TypeOps(p, v), CredentialsOp(p));
  }

  lemma FailureKeys(p: Policy, v: StorageProviderValues, keys: seq<Yaml>)
    requires Str("credentials") in keys && (v.providerType.Some? ==> Str("type") in keys)
    ensures HasKeysOf(keys, FailureOps(p, v))
  {
    forall i | 0 <= i < |FailureOps(p, v)|
      ensures FailureOps(p, v)[i].key in keys && !FailureOps(p, v)[i].mode.Gone?
    {
      assert FailureOps(p, v)[i] in TypeOps(p, v) || FailureOps(p, v)[i] == CredentialsOp(p);
    }
  }

  lemma FailureOrderIsSameIff(p: Policy, v: StorageProviderValues, keys: seq<Yaml>)
    requires Unique(keys) && Str("credentials") in keys && (v.providerType.Some? ==> Str("type") in keys)
    ensures Order(keys, FailureOps(p, v)) == keys <==> EndsWithKeys(keys, MovedByFailure(p, v))
  {
    FailureOpsMove(p, v);
    FailureKeys(p, v, keys);
    OrderIsSameIff(keys, FailureOps(p, v));
  }

  lemma FailedEntryIsSame(p: Policy, v: StorageProviderValues, es: Entries)
    requires EditsCredentials(v) && Below(es, "credentials").None? && Unique(Keys(es))
    requires TypeIsKept(v, es) && Order(Keys(es), FailureOps(p, v)) == Keys(es)
    ensures Apply(p, Supplied(StorageSlots(v)), es).entries == es
  {
    var after := Apply(p, Supplied(StorageSlots(v)), es).entries;
    FailedEntryFacts(p, v, es, Str("type"));
    forall k | k in Keys(es) ensures Get(es, k) == Get(after, k) {
      FailedEntryFacts(p, v, es, k);
      TypedFacts(p, v, es, k);
    }
    SameKeysSameValues(es, after);
  }

  lemma FailedEntryIsSameIff(p: Policy, v: StorageProviderValues, es: Entries)
    requires EditsCredentials(v) && Below(es, "credentials").None? && Unique(Keys(es))
    ensures Apply(p, Supplied(StorageSlots(v)), es).entries == es <==>
            TypeIsKept(v, es) && EndsWithKeys(Keys(es), MovedByFailure(p, v))
  {
    FailedEntryFacts(p, v, es, Str("type"));
    TypedFacts(p, v, es, Str("type"));
    if TypeIsKept(v, es) {
      GetIsMembership(es, Str("type"));
      GetIsMembership(es, Str("credentials"));
      FailureOrderIsSameIff(p, v, Keys(es));
      if EndsWithKeys(Keys(es), MovedByFailure(p, v)) {
        FailedEntryIsSame(p, v, es);
      }
    }
  }

  lemma {:induction false} ReplaceSame(es: Entries, key: Yaml)
    requires Get(es, key).Some?
    ensures Replace(es, key, Get(es, key).value) == es
  {
    var n := |es| - 1;
    assert es == es[..n] + [es[n]];
    if es[n].0 != key {
      ReplaceSame(es[..n], key);
    }
  }

  // ----- Removing -----

  /** A removal keeps the other entries of its section in order and does not touch other sections. */
  lemma RemovalLeavesTheRest(document: Yaml, section: string, id: string, other: Yaml)
    requires RemoveEntry(document, section, id).1.Success?
    ensures var after := RemoveEntry(document, section, id).0;
            after.Hash? && SectionOf(after, section) == Without(SectionOf(document, section), Str(id))
            && Keys(after.entries) == Keys(document.entries)
            && (other != Str(section) ==> Get(after.entries, other) == Get(document.entries, other))
            && (other != Str(id) ==> Get(SectionOf(after, section), other) == Get(SectionOf(document, section), other))
  {
    var removed := Hash(Without(SectionOf(document, section), Str(id)));
    ReplaceFacts(document.entries, Str(section), removed, other);
    ReplaceFacts(document.entries, Str(section), removed, Str(section));
    WithoutFacts(SectionOf(document, section), Str(id), other);
  }

  /** A removal finds its entry exactly if there is one; afterwards it is gone. */
  lemma RemovedEntryIsGone(document: Yaml, section: string, id: string)
    requires RemoveEntry(document, section, id).1.Success?
    ensures var (after, answer) := RemoveEntry(document, section, id);
            answer == Success(if Get(SectionOf(document, section), Str(id)).Some? then Removed else NotFound)
            && MapEntry(after, section, id) == Success(None)
            && RemoveEntry(after, section, id).1 == Success(NotFound)
  {
    if Get(document.entries, Str(section)).Some? {
      var sub := SectionOf(document, section);
      var kept := Without(sub, Str(id));
      RemovalUnfolds(document.entries, section, id, sub);
      ReplaceFacts(document.entries, Str(section), Hash(kept), Str(section));
      WithoutFacts(sub, Str(id), Str(id));
      RemovalUnfolds(Replace(document.entries, Str(section), Hash(kept)), section, id, kept);
    }
  }

  lemma {:induction false} WithoutAbsent(es: Entries, key: Yaml)
    requires Get(es, key).None?
    ensures Without(es, key) == es
  {
    if es != [] {
      var n := |es| - 1;
      WithoutAbsent(es[..n], key);
      assert es == es[..n] + [es[n]];
    }
  }

  lemma {:induction false} ReplaceTwice(es: Entries, key: Yaml, a: Yaml, b: Yaml)
    ensures Replace(Replace(es, key, a), key, b) == Replace(es, key, b)
  {
    if es != [] {
      var n := |es| - 1;
      if es[n].0 == key {
        assert (es[..n] + [(key, a)])[..n] == es[..n];
      } else {
        ReplaceTwice(es[..n], key, a, b);
        ReplacedLength(es[..n], key, a);
        assert (Replace(es[..n], key, a) + [es[n]])[..n] == Replace(es[..n], key, a);
      }
    }
  }

  lemma {:induction false} ReplacedLength(es: Entries, key: Yaml, a: Yaml)
    ensures |Replace(es, key, a)| == |es|
  {
    if es != [] {
      ReplacedLength(es[..|es| - 1], key, a);
    }
  }

  lemma AddedEntryRemoved(sub: Entries, id: Yaml, entry: Yaml)
    requires Get(sub, id).None?
    ensures Replace(sub + [(id, Hash([]))], id, entry) == sub + [(id, entry)]
    ensures Without(sub + [(id, entry)], id) == sub && Get(sub + [(id, entry)], id) == Some(entry)
  {
    assert (sub + [(id, Hash([]))])[..|sub|] == sub && (sub + [(id, entry)])[..|sub|] == sub;
    WithoutAbsent(sub, id);
  }

  lemma RemovalUnfolds(root: Entries, section: string, id: string, sub: Entries)
    requires Get(root, Str(section)) == Some(Hash(sub))
    ensures RemoveEntry(Hash(root), section, id)
            == (Hash(Replace(root, Str(section), Hash(Without(sub, Str(id))))),
                Success(if Get(sub, Str(id)).Some? then Removed else NotFound))
  {
  }

  /** What adding an entry and removing it leaves: the section as it was, or empty where there was none. */
  lemma AddedThenRemoved(p: Policy, document: Yaml, section: string, id: string, slots: seq<Slot>)
    requires document.Hash? && MapEntry(document, section, id) == Success(None)
    ensures RemoveEntry(Hash(Apply(p, EntryEdits(section, id, slots), document.entries).entries), section, id)
            == (Hash(Replace(EntryOr(p, document.entries, Str(section), Hash([])), Str(section), Hash(SectionOf(document, section)))),
                Success(Removed))
  {
    var sub := SectionOf(document, section);
    var at := EntryOr(p, document.entries, Str(section), Hash([]));
    var entry := Hash(Apply(p, Supplied(slots), []).entries);
    var added := sub + [(Str(id), entry)];
    MapEntryMeans(document, section, id);
    NestedEdits(p, document.entries, section, id, slots);
    AddedEntryRemoved(sub, Str(id), entry);
    ReplaceFacts(at, Str(section), Hash(added), Str(section));
    RemovalUnfolds(Replace(at, Str(section), Hash(added)), section, id, added);
    ReplaceTwice(at, Str(section), Hash(added), Hash(sub));
  }

  /** Removing an entry that was just added always finds it, and gives back the document exactly if the section was
      there and asking for it does not move it. */
  lemma AddThenRemove(p: Policy, document: Yaml, section: string, id: string, slots: seq<Slot>)
    requires WellFormed(document) && document.Hash? && MapEntry(document, section, id) == Success(None)
    ensures var (after, answer) :=
              RemoveEntry(Hash(Apply(p, EntryEdits(section, id, slots), document.entries).entries), section, id);
            answer == Success(Removed)
            && (after == document <==>
                Get(document.entries, Str(section)).Some?
                && (p.entryMoves ==> EndsWithKeys(Keys(document.entries), [Str(section)])))
  {
    AddedThenRemoved(p, document, section, id, slots);
    WrittenIsSameIff(p, document.entries, Str(section), Hash([]), Hash(SectionOf(document, section)));
  }
}
