/** Upserts and removals of served repositories, which are kept in a sequence. */
module ConfigRepositoryProofs {
  import opened Wrappers
  import opened KeyOrder
  import opened YamlEdits
  import opened YamlEditProofs
  import opened ConfigEdit
  import opened ConfigSlots
  import opened ConfigEditProofs

  // ----- One item -----

  lemma RepositorySlotsAreFlat(v: RepositoryValues)
    ensures ValidSlots(RepositorySlots(v)) && EachSlot(RepositorySlots(v), IsFlat)
  {
    RepositorySlotsAreValid(v);
  }

  function ItemAfter(p: Policy, v: RepositoryValues, es: Entries): Entries {
    Apply(p, Supplied(RepositorySlots(v)), es).entries
  }

  /** The edited item has the identifier, the supplied values, and the old ones elsewhere. */
  lemma ItemReadsBack(p: Policy, v: RepositoryValues, es: Entries)
    ensures RepositoryValuesOf(ItemAfter(p, v, es))
            == RepositoryValues(
                 v.id, Or(v.repoProvider, StringValue(es, "repo_provider")), Or(v.host, StringValue(es, "host")),
                 Or(v.owner, StringValue(es, "owner")), Or(v.name, StringValue(es, "name")),
                 Or(v.providerRepositoryId, StringValue(es, "provider_repository_id")),
                 Or(v.storageProvider, StringValue(es, "storage_provider")))
  {
    var slots := RepositorySlots(v);
    RepositorySlotsAreFlat(v);
    FlatSucceeds(p, slots, es);
    PutSlotAfter(p, slots, es, 0, "id", Some(v.id));
    PutSlotAfter(p, slots, es, 1, "repo_provider", v.repoProvider);
    PutSlotAfter(p, slots, es, 2, "host", v.host);
    PutSlotAfter(p, slots, es, 3, "owner", v.owner);
    PutSlotAfter(p, slots, es, 4, "name", v.name);
    PutSlotAfter(p, slots, es, 5, "provider_repository_id", v.providerRepositoryId);
    PutSlotAfter(p, slots, es, 6, "storage_provider", v.storageProvider);
  }

  /** Whatever a path in the item leads to stays, unless it is a supplied field or something below one: other keys,
      and fields that are not supplied, whatever they hold. */
  lemma ItemLeavesTheRest(p: Policy, v: RepositoryValues, es: Entries, path: seq<Yaml>)
    requires !TouchedBy(Supplied(RepositorySlots(v)), path)
    ensures GetPath(Hash(ItemAfter(p, v, es)), path) == GetPath(Hash(es), path)
  {
    UntouchedIsKept(p, Supplied(RepositorySlots(v)), es, path);
  }

  lemma ItemTwice(p: Policy, v: RepositoryValues, es: Entries)
    requires WellFormed(Hash(es))
    ensures ItemAfter(p, v, ItemAfter(p, v, es)) == ItemAfter(p, v, es)
  {
    var slots := RepositorySlots(v);
    RepositorySlotsAreFlat(v);
    SuppliedIsValid(slots);
    FlatSucceeds(p, slots, es);
    FlatSettles(p, slots, es);
    ApplyTwice(p, Supplied(slots), es);
  }

  // ----- The items -----

  /** The edited items: one is edited or added at the end, at the first place of the identifier; the others stay. */
  lemma ItemsAfter(p: Policy, items: seq<Yaml>, v: RepositoryValues)
    requires AllMappings(items)
    ensures var i, edited := Position(items, v.id), EditedItems(p, items, v);
            AllMappings(edited) && |edited| == (if i < |items| then |items| else |items| + 1)
            && edited[i] == Hash(ItemAfter(p, v, if i < |items| then items[i].entries else []))
            && (forall j :: 0 <= j < |edited| && j != i ==> edited[j] == items[j])
            && Position(edited, v.id) == i
  {
    var i, edited := Position(items, v.id), EditedItems(p, items, v);
    ItemReadsBack(p, v, if i < |items| then items[i].entries else []);
    assert RepositoryValuesOf(edited[i].entries).id == v.id;
    assert forall j :: 0 <= j < i ==> edited[j] == items[j];
  }

  predicate ItemsWellFormed(items: seq<Yaml>) { forall i :: 0 <= i < |items| ==> WellFormed(items[i]) }

  lemma ItemsTwice(p: Policy, items: seq<Yaml>, v: RepositoryValues)
    requires AllMappings(items) && ItemsWellFormed(items)
    ensures AllMappings(EditedItems(p, items, v))
    ensures EditedItems(p, EditedItems(p, items, v), v) == EditedItems(p, items, v)
  {
    var i, edited := Position(items, v.id), EditedItems(p, items, v);
    ItemsAfter(p, items, v);
    var es := if i < |items| then items[i].entries else [];
    assert i < |items| ==> WellFormed(items[i]);
    ItemTwice(p, v, es);
    assert edited[i := edited[i]] == edited;
  }

  // ----- The section -----

  /** Asking again for an entry that is there already changes nothing. */
  lemma EntryAgain(p: Policy, es: Entries, key: Yaml, initial: Yaml, value: Yaml)
    requires Unique(Keys(es))
    ensures var once := Replace(EntryOr(p, es, key, initial), key, value);
            Get(once, key) == Some(value) && Unique(Keys(once)) && EntryOr(p, once, key, initial) == once
  {
    var op := Op(key, if p.entryMoves then Move else Stay);
    var once := Replace(EntryOr(p, es, key, initial), key, value);
    EntryFacts(p, es, key, initial, key);
    ReplaceFacts(EntryOr(p, es, key, initial), key, value, key);
    OneOpTwice(Keys(es), op);
    var twice := EntryOr(p, once, key, initial);
    EntryFacts(p, once, key, initial, key);
    forall k | k in Keys(once) ensures Get(once, k) == Get(twice, k) {
      EntryFacts(p, once, key, initial, k);
    }
    SameKeysSameValues(once, twice);
  }

  lemma OneOpTwice<K(!new)>(keys: seq<K>, op: Op<K>)
    requires Unique(keys)
    ensures Unique(OrderStep(keys, op)) && OrderStep(OrderStep(keys, op), op) == OrderStep(keys, op)
  {
    var ops := [op];
    assert ops[..0] == [];
    OrderKeepsUnique(keys, ops);
    AgainChangesNothingIff(keys, ops);
    assert Order(keys, ops) == OrderStep(keys, op);
    assert Order(OrderStep(keys, op), ops) == OrderStep(OrderStep(keys, op), op);
  }

  lemma ItemsAreWellFormed(document: Yaml)
    requires WellFormed(document) && RepositoryItems(document).Success?
    ensures ItemsWellFormed(RepositoryItems(document).value) && AllMappings(RepositoryItems(document).value)
  {
    if Get(document.entries, Str(REPOSITORIES_KEY)).Some? {
      WellFormedGet(document.entries, Str(REPOSITORIES_KEY));
    }
  }

  lemma WithItemsReads(p: Policy, document: Yaml, items: seq<Yaml>)
    requires WellFormed(document) && document.Hash? && AllMappings(items)
    ensures RepositoryItems(WithItems(p, document, items)) == Success(items)
    ensures Get(WithItems(p, document, items).entries, Str(REPOSITORIES_KEY)) == Some(Arr(items))
    ensures WithItems(p, WithItems(p, document, items), items) == WithItems(p, document, items)
  {
    EntryAgain(p, document.entries, Str(REPOSITORIES_KEY), Arr([]), Arr(items));
    ReplaceSame(WithItems(p, document, items).entries, Str(REPOSITORIES_KEY));
  }

  lemma WithItemsLeaves(p: Policy, document: Yaml, items: seq<Yaml>, other: Yaml)
    requires document.Hash? && other != Str(REPOSITORIES_KEY)
    ensures Get(WithItems(p, document, items).entries, other) == Get(document.entries, other)
  {
    EntryFacts(p, document.entries, Str(REPOSITORIES_KEY), Arr([]), other);
    ReplaceFacts(EntryOr(p, document.entries, Str(REPOSITORIES_KEY), Arr([])), Str(REPOSITORIES_KEY), Arr(items), other);
  }

  lemma CheckedAgain(document: Yaml, edited: Yaml, v: RepositoryValues)
    requires CheckedItems(document, v).Success? && RepositoryItems(edited).Success?
    requires AllMappings(RepositoryItems(edited).value)
    requires Position(RepositoryItems(edited).value, v.id) < |RepositoryItems(edited).value|
    ensures CheckedItems(edited, v) == RepositoryItems(edited)
  {
  }

  lemma NothingToDo(p: Policy, document: Yaml, v: RepositoryValues, items: seq<Yaml>)
    requires CheckedItems(document, v) == Success(items) && AllMappings(items) && Position(items, v.id) < |items|
    requires EditedItems(p, items, v) == items && document.Hash? && WithItems(p, document, items) == document
    ensures UpsertRepositorySpec(p, document, v) == Upserted(document, Success(Unchanged))
  {
  }

  /** An upsert of a served repository is idempotent. */
  lemma RepositoryUpsertTwice(p: Policy, document: Yaml, v: RepositoryValues)
    requires WellFormed(document) && UpsertRepositorySpec(p, document, v).result.Success?
    ensures var once := UpsertRepositorySpec(p, document, v).document;
            UpsertRepositorySpec(p, once, v) == Upserted(once, Success(Unchanged))
  {
    var items := CheckedItems(document, v).value;
    var edited := EditedItems(p, items, v);
    var once := WithItems(p, document, edited);
    ItemsAreWellFormed(document);
    ItemsAfter(p, items, v);
    ItemsTwice(p, items, v);
    WithItemsReads(p, document, edited);
    CheckedAgain(document, once, v);
    NothingToDo(p, once, v, edited);
  }

  /** What an upsert of a served repository does to the items and to the other sections. */
  lemma RepositoryUpsertMeaning(p: Policy, document: Yaml, v: RepositoryValues)
    requires WellFormed(document) && UpsertRepositorySpec(p, document, v).result.Success?
    ensures var r, items := UpsertRepositorySpec(p, document, v), CheckedItems(document, v).value;
            CheckedItems(document, v).Success? && r.document.Hash?
            && RepositoryItems(r.document) == Success(EditedItems(p, items, v))
            && (r.result == Success(Added) <==> Position(items, v.id) == |items|)
            && (r.result == Success(Unchanged) ==> r.document == document)
  {
    var items := CheckedItems(document, v).value;
    ItemsAfter(p, items, v);
    WithItemsReads(p, document, EditedItems(p, items, v));
  }

  /** The item with the identifier, or an empty mapping. */
  function ItemOf(items: seq<Yaml>, id: string): Yaml
    requires AllMappings(items)
  {
    if Position(items, id) < |items| then items[Position(items, id)] else Hash([])
  }

  /** An upsert of a served repository changes no value outside the supplied fields of its item: not in other
      sections, whatever the answer, not in other items, and not in the item itself. */
  lemma RepositoryUpsertLeavesTheRest(p: Policy, document: Yaml, v: RepositoryValues, path: seq<Yaml>)
    ensures path != [] && path[0] != Str(REPOSITORIES_KEY) ==>
              GetPath(UpsertRepositorySpec(p, document, v).document, path) == GetPath(document, path)
    ensures CheckedItems(document, v).Success? ==>
              var items := CheckedItems(document, v).value;
              var edited, i := EditedItems(p, items, v), Position(items, v.id);
              i < |edited| && |items| <= |edited|
              && (forall j :: 0 <= j < |items| && j != i ==> edited[j] == items[j])
              && (!TouchedBy(Supplied(RepositorySlots(v)), path) ==>
                    GetPath(edited[i], path) == GetPath(ItemOf(items, v.id), path))
  {
    var checked := CheckedItems(document, v);
    if checked.Success? {
      if path != [] && path[0] != Str(REPOSITORIES_KEY) {
        WithItemsLeaves(p, document, EditedItems(p, checked.value, v), path[0]);
      }
      ItemsAfter(p, checked.value, v);
      if !TouchedBy(Supplied(RepositorySlots(v)), path) {
        ItemLeavesTheRest(p, v, ItemOf(checked.value, v.id).entries, path);
      }
    }
  }

  // ----- Removing -----

  /** A removal that finds no section still writes an empty one. */
  lemma RemovalCreatesSection(p: Policy, root: Entries, id: string)
    requires Get(root, Str(REPOSITORIES_KEY)).None?
    ensures RemoveRepositorySpec(p, Hash(root), id) == (Hash(root + [(Str(REPOSITORIES_KEY), Arr([]))]), Success(NotFound))
  {
    AppendFacts(root, Str(REPOSITORIES_KEY), Arr([]), Str(REPOSITORIES_KEY));
  }

  lemma RemovalUnfolds(p: Policy, document: Yaml, items: seq<Yaml>, id: string)
    requires document.Hash? && Get(document.entries, Str(REPOSITORIES_KEY)) == Some(Arr(items))
    ensures var i := StrictPosition(items, id);
            RemoveRepositorySpec(p, document, id)
            == if i == |items| then (Hash(EntryOr(p, document.entries, Str(REPOSITORIES_KEY), Arr([]))), Success(NotFound))
               else (WithItems(p, document, RemoveAt(items, i)), Success(Removed))
  {
    EntryFacts(p, document.entries, Str(REPOSITORIES_KEY), Arr([]), Str(REPOSITORIES_KEY));
  }

  lemma WithItemsHolds(p: Policy, document: Yaml, items: seq<Yaml>)
    requires document.Hash?
    ensures Get(WithItems(p, document, items).entries, Str(REPOSITORIES_KEY)) == Some(Arr(items))
  {
    var key := Str(REPOSITORIES_KEY);
    EntryFacts(p, document.entries, key, Arr([]), key);
    ReplaceFacts(EntryOr(p, document.entries, key, Arr([])), key, Arr(items), key);
  }

  /** A removal that finds its repository takes out the first mapping with the identifier and nothing else. */
  lemma RemovalMeaning(p: Policy, document: Yaml, items: seq<Yaml>, id: string, i: nat, other: Yaml)
    requires document.Hash? && Get(document.entries, Str(REPOSITORIES_KEY)) == Some(Arr(items))
    requires i == StrictPosition(items, id) < |items| && other != Str(REPOSITORIES_KEY)
    ensures var (after, answer) := RemoveRepositorySpec(p, document, id);
            after.Hash? && answer == Success(Removed)
            && Get(after.entries, Str(REPOSITORIES_KEY)) == Some(Arr(RemoveAt(items, i)))
            && Get(after.entries, other) == Get(document.entries, other)
  {
    RemovalUnfolds(p, document, items, id);
    WithItemsHolds(p, document, RemoveAt(items, i));
    WithItemsLeaves(p, document, RemoveAt(items, i), other);
  }

  /** A removal that does not find its repository changes no value; it leaves the document as it was exactly if the
      section is there and asking for it does not move it. */
  lemma MissingRemovalMeaning(p: Policy, document: Yaml, id: string, other: Yaml)
    requires WellFormed(document) && RemoveRepositorySpec(p, document, id).1 == Success(NotFound)
    requires other != Str(REPOSITORIES_KEY)
    ensures var after := RemoveRepositorySpec(p, document, id).0;
            document.Hash? && after.Hash? && Get(after.entries, other) == Get(document.entries, other)
            && (after == document <==>
                Get(document.entries, Str(REPOSITORIES_KEY)).Some?
                && (p.entryMoves ==> EndsWithKeys(Keys(document.entries), [Str(REPOSITORIES_KEY)])))
  {
    NotFoundUnfolds(p, document, id);
    EntryFacts(p, document.entries, Str(REPOSITORIES_KEY), Arr([]), other);
    AskedIsSameIff(p, document.entries, Str(REPOSITORIES_KEY), Arr([]));
  }

  lemma NotFoundUnfolds(p: Policy, document: Yaml, id: string)
    requires RemoveRepositorySpec(p, document, id).1 == Success(NotFound)
    ensures document.Hash?
    ensures RemoveRepositorySpec(p, document, id).0 == Hash(EntryOr(p, document.entries, Str(REPOSITORIES_KEY), Arr([])))
  {
  }

  /** The two ways of looking for an item agree when every item is a mapping and the identifier is not empty. */
  lemma {:induction false} PositionsAgree(items: seq<Yaml>, id: string)
    requires AllMappings(items) && id != ""
    ensures Position(items, id) == StrictPosition(items, id)
  {
    if items != [] && RepositoryValuesOf(items[0].entries).id != id {
      PositionsAgree(items[1..], id);
    }
  }

  /** An added repository is what a removal takes out again. */
  lemma AddedThenRemoved(p: Policy, items: seq<Yaml>, v: RepositoryValues)
    requires AllMappings(items) && v.id != "" && Position(items, v.id) == |items|
    ensures var added := EditedItems(p, items, v);
            var i := StrictPosition(added, v.id);
            i < |added| && RemoveAt(added, i) == items
  {
    ItemsAfter(p, items, v);
    PositionsAgree(EditedItems(p, items, v), v.id);
  }
}
