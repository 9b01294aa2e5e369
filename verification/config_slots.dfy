/** The fields of an entry: what each holds after an edit, and when editing twice changes nothing. */
module ConfigSlots {
  import opened Wrappers
  import opened KeyOrder
  import opened YamlEdits
  import opened YamlEditProofs
  import opened ConfigEdit

  // ----- From slots to edits -----

  predicate SlotIsValid(slot: Slot) {
    match slot.edit
    case None => true
    case Some(e) => e.name == slot.name && EditIsValid(e)
  }

  predicate ValidSlots(slots: seq<Slot>) {
    (forall i :: 0 <= i < |slots| ==> SlotIsValid(slots[i]))
    && forall i, j :: 0 <= i < j < |slots| ==> slots[i].name != slots[j].name
  }

  predicate Each(edits: seq<Edit>, q: Edit -> bool) {
    forall i :: 0 <= i < |edits| ==> q(edits[i])
  }

  predicate EachSlot(slots: seq<Slot>, q: Edit -> bool) {
    forall a :: 0 <= a < |slots| && slots[a].edit.Some? ==> q(slots[a].edit.value)
  }

  lemma EachAppend(edits: seq<Edit>, e: Edit, q: Edit -> bool)
    ensures Each(edits + [e], q) <==> Each(edits, q) && q(e)
  {
    var all := edits + [e];
    assert all[|edits|] == e && forall i :: 0 <= i < |edits| ==> all[i] == edits[i];
    if Each(all, q) {
      assert q(all[|edits|]);
      forall i | 0 <= i < |edits| ensures q(edits[i]) {
        assert q(all[i]);
      }
    }
  }

  lemma EachSlotLast(slots: seq<Slot>, q: Edit -> bool)
    requires slots != []
    ensures var n := |slots| - 1;
            EachSlot(slots, q) <==> EachSlot(slots[..n], q) && (slots[n].edit.Some? ==> q(slots[n].edit.value))
  {
    var n := |slots| - 1;
    if EachSlot(slots, q) {
      forall a | 0 <= a < n && slots[..n][a].edit.Some? ensures q(slots[..n][a].edit.value) {
        assert slots[..n][a] == slots[a];
      }
    }
    if EachSlot(slots[..n], q) {
      forall a | 0 <= a < n && slots[a].edit.Some? ensures q(slots[a].edit.value) {
        assert slots[..n][a] == slots[a];
      }
    }
  }

  lemma {:induction false} SuppliedEach(slots: seq<Slot>, q: Edit -> bool)
    ensures Each(Supplied(slots), q) <==> EachSlot(slots, q)
  {
    if slots != [] {
      var n := |slots| - 1;
      SuppliedEach(slots[..n], q);
      EachSlotLast(slots, q);
      if slots[n].edit.Some? {
        EachAppend(Supplied(slots[..n]), slots[n].edit.value, q);
      }
    }
  }

  predicate Pairs(edits: seq<Edit>, p: (Edit, Edit) -> bool) {
    forall i, j :: 0 <= i < j < |edits| ==> p(edits[i], edits[j])
  }

  predicate SlotPairs(slots: seq<Slot>, p: (Edit, Edit) -> bool) {
    forall a, b :: 0 <= a < b < |slots| && slots[a].edit.Some? && slots[b].edit.Some? ==>
      p(slots[a].edit.value, slots[b].edit.value)
  }

  lemma PairsAppend(edits: seq<Edit>, e: Edit, p: (Edit, Edit) -> bool)
    ensures Pairs(edits + [e], p) <==> Pairs(edits, p) && Each(edits, (x: Edit) => p(x, e))
  {
    var all := edits + [e];
    assert all[|edits|] == e && forall i :: 0 <= i < |edits| ==> all[i] == edits[i];
    if Pairs(all, p) {
      forall i | 0 <= i < |edits| ensures p(edits[i], e) {
        assert p(all[i], all[|edits|]);
      }
      forall i, j | 0 <= i < j < |edits| ensures p(edits[i], edits[j]) {
        assert p(all[i], all[j]);
      }
    }
    if Pairs(edits, p) && Each(edits, (x: Edit) => p(x, e)) {
      forall i, j | 0 <= i < j < |all| ensures p(all[i], all[j]) {
        assert all[i] == edits[i];
      }
    }
  }

  lemma SlotPairsLast(slots: seq<Slot>, p: (Edit, Edit) -> bool)
    requires slots != []
    ensures var n := |slots| - 1;
            SlotPairs(slots, p) <==>
            SlotPairs(slots[..n], p)
            && (slots[n].edit.Some? ==> EachSlot(slots[..n], (x: Edit) => p(x, slots[n].edit.value)))
  {
    var n := |slots| - 1;
    assert forall a :: 0 <= a < n ==> slots[..n][a] == slots[a];
    if SlotPairs(slots[..n], p) {
      forall a, b | 0 <= a < b < n && slots[a].edit.Some? && slots[b].edit.Some?
        ensures p(slots[a].edit.value, slots[b].edit.value)
      {
        assert slots[..n][a] == slots[a] && slots[..n][b] == slots[b];
      }
    }
    if slots[n].edit.Some? && EachSlot(slots[..n], (x: Edit) => p(x, slots[n].edit.value)) {
      forall a | 0 <= a < n && slots[a].edit.Some? ensures p(slots[a].edit.value, slots[n].edit.value) {
        assert slots[..n][a] == slots[a];
      }
    }
  }

  lemma {:induction false} SuppliedPairs(slots: seq<Slot>, p: (Edit, Edit) -> bool)
    ensures Pairs(Supplied(slots), p) <==> SlotPairs(slots, p)
  {
    if slots != [] {
      var n := |slots| - 1;
      SuppliedPairs(slots[..n], p);
      SlotPairsLast(slots, p);
      if slots[n].edit.Some? {
        var e := slots[n].edit.value;
        PairsAppend(Supplied(slots[..n]), e, p);
        SuppliedEach(slots[..n], (x: Edit) => p(x, e));
      }
    }
  }

  predicate DifferentNames(a: Edit, b: Edit) { a.name != b.name }

  predicate EditIsValid(e: Edit) {
    (e.Put? ==> e.value.Str?) && (e.Into? ==> DistinctEdits(e.edits) && WellFormedEdits(e.edits))
  }

  predicate IsFlat(e: Edit) { !e.Into? }

  lemma SuppliedIsValid(slots: seq<Slot>)
    requires ValidSlots(slots)
    ensures DistinctEdits(Supplied(slots)) && WellFormedEdits(Supplied(slots))
  {
    SuppliedPairs(slots, DifferentNames);
    SuppliedEach(slots, EditIsValid);
    var edits := Supplied(slots);
    forall i, j | 0 <= i < j < |edits| ensures edits[i].name != edits[j].name {
      assert DifferentNames(edits[i], edits[j]);
    }
    forall i | 0 <= i < |edits| ensures EditIsValid(edits[i]) {
    }
  }

  // ----- What the fields hold afterwards -----

  lemma {:induction false} SuppliedHas(slots: seq<Slot>, a: nat)
    requires a < |slots| && slots[a].edit.Some?
    ensures exists i :: 0 <= i < |Supplied(slots)| && Supplied(slots)[i] == slots[a].edit.value
  {
    var n := |slots| - 1;
    if a < n {
      SuppliedHas(slots[..n], a);
      var i :| 0 <= i < |Supplied(slots[..n])| && Supplied(slots[..n])[i] == slots[..n][a].edit.value;
      assert Supplied(slots)[i] == slots[a].edit.value;
    } else {
      assert Supplied(slots)[|Supplied(slots[..n])|] == slots[a].edit.value;
    }
  }

  /** A field that is edited holds what its edit leaves; one that is not holds what it held. */
  lemma SlotAfter(p: Policy, slots: seq<Slot>, es: Entries, a: nat)
    requires ValidSlots(slots) && a < |slots| && Apply(p, Supplied(slots), es).ok
    ensures Get(Apply(p, Supplied(slots), es).entries, Str(slots[a].name))
            == match slots[a].edit
               case Some(e) => Left(p, e, es)
               case None => Get(es, Str(slots[a].name))
    ensures slots[a].edit.Some? ==> Succeeds(p, slots[a].edit.value, es)
  {
    SuppliedIsValid(slots);
    if slots[a].edit.Some? {
      SuppliedHas(slots, a);
      var i :| 0 <= i < |Supplied(slots)| && Supplied(slots)[i] == slots[a].edit.value;
      ApplyAt(p, Supplied(slots), es, i);
    } else {
      UneditedSlot(slots, a);
      ApplyOther(p, Supplied(slots), es, Str(slots[a].name));
    }
  }

  lemma UneditedSlot(slots: seq<Slot>, a: nat)
    requires ValidSlots(slots) && a < |slots| && slots[a].edit.None?
    ensures Leaves(Supplied(slots), Str(slots[a].name))
  {
    var name := slots[a].name;
    var differs := (e: Edit) => e.name != name;
    assert EachSlot(slots, differs) by {
      forall b | 0 <= b < |slots| && slots[b].edit.Some? ensures differs(slots[b].edit.value) {
        assert SlotIsValid(slots[b]) && b != a;
      }
    }
    SuppliedEach(slots, differs);
    forall i | 0 <= i < |Supplied(slots)| ensures Str(Supplied(slots)[i].name) != Str(name) {
      assert differs(Supplied(slots)[i]);
    }
  }

  /** Edits of slots that only put and drop values can always be done. */
  lemma FlatSucceeds(p: Policy, slots: seq<Slot>, es: Entries)
    requires ValidSlots(slots) && EachSlot(slots, IsFlat)
    ensures Apply(p, Supplied(slots), es).ok
  {
    SuppliedIsValid(slots);
    SuppliedEach(slots, IsFlat);
    forall i | 0 <= i < |Supplied(slots)| ensures Succeeds(p, Supplied(slots)[i], es) {
      assert IsFlat(Supplied(slots)[i]);
    }
    ApplySucceeds(p, Supplied(slots), es);
  }

  /** A field that is put holds the supplied text if there is one, and what it held otherwise. */
  lemma PutSlotAfter(p: Policy, slots: seq<Slot>, es: Entries, a: nat, name: string, value: Option<string>)
    requires ValidSlots(slots) && a < |slots| && slots[a] == PutSlot(name, value) && Apply(p, Supplied(slots), es).ok
    ensures StringValue(Apply(p, Supplied(slots), es).entries, name) == Or(value, StringValue(es, name))
  {
    SlotAfter(p, slots, es, a);
  }

  // ----- Editing twice -----

  predicate OrderKept(p: Policy, es: Entries, a: Edit, b: Edit) {
    OpOf(p, a).mode.Move? && OpOf(p, b).mode.Stay? ==> Str(b.name) in Keys(es)
  }

  /** The order settles exactly if it does for every two fields that are edited. */
  lemma SlotsSettle(p: Policy, slots: seq<Slot>, es: Entries)
    ensures Settles(Keys(es), Ops(p, Supplied(slots)))
            <==> forall a, b :: 0 <= a < b < |slots| && slots[a].edit.Some? && slots[b].edit.Some? ==>
                   OrderKept(p, es, slots[a].edit.value, slots[b].edit.value)
  {
    var edits := Supplied(slots);
    var kept := (a: Edit, b: Edit) => OrderKept(p, es, a, b);
    SuppliedPairs(slots, kept);
    assert Pairs(edits, kept) <==> Settles(Keys(es), Ops(p, edits)) by {
      if Settles(Keys(es), Ops(p, edits)) {
        forall i, j | 0 <= i < j < |edits| ensures kept(edits[i], edits[j]) {
          assert Ops(p, edits)[i] == OpOf(p, edits[i]) && Ops(p, edits)[j] == OpOf(p, edits[j]);
        }
      }
      if Pairs(edits, kept) {
        forall i, j | 0 <= i < j < |edits| && Ops(p, edits)[i].mode.Move? && Ops(p, edits)[j].mode.Stay?
          ensures Ops(p, edits)[j].key in Keys(es)
        {
          assert kept(edits[i], edits[j]);
        }
      }
    }
  }

  /** Fields that are only put and dropped settle at once. */
  lemma FlatSettles(p: Policy, slots: seq<Slot>, es: Entries)
    requires EachSlot(slots, IsFlat)
    ensures SettledEdits(p, Supplied(slots), es)
  {
    SuppliedEach(slots, IsFlat);
    SlotsSettle(p, slots, es);
    forall i | 0 <= i < |Supplied(slots)| ensures !Supplied(slots)[i].Into? {
      assert IsFlat(Supplied(slots)[i]);
    }
  }

  // ----- The four lists of fields -----

  lemma CredentialSlotsAreValid(v: StorageProviderValues)
    ensures ValidSlots(CredentialSlots(v))
  {
  }

  lemma StorageSlotsAreValid(v: StorageProviderValues)
    ensures ValidSlots(StorageSlots(v))
  {
    CredentialSlotsAreValid(v);
    SuppliedIsValid(CredentialSlots(v));
  }

  lemma ProviderSlotsAreValid(v: RepositoryProviderValues)
    ensures ValidSlots(ProviderSlots(v))
  {
  }

  lemma RepositorySlotsAreValid(v: RepositoryValues)
    ensures ValidSlots(RepositorySlots(v))
  {
  }

  /** When the edits of a storage provider settle: an entry for the credentials that keeps its place is not new
      after a type that is moved, and no field that keeps its place is new after credentials that are moved. */
  predicate StorageSettles(p: Policy, entry: Entries, v: StorageProviderValues) {
    (p.insertMoves && !p.entryMoves && v.providerType.Some? && EditsCredentials(v) ==> Get(entry, Str("credentials")).Some?)
    && (!p.insertMoves && p.entryMoves && EditsCredentials(v) ==>
          (v.rootFolderId.Some? ==> Get(entry, Str("root_folder_id")).Some?)
          && (v.displayName.Some? ==> Get(entry, Str("display_name")).Some?))
  }

  lemma StorageSettlesIff(p: Policy, entry: Entries, v: StorageProviderValues)
    ensures SettledEdits(p, Supplied(StorageSlots(v)), entry) <==> StorageSettles(p, entry, v)
  {
    var slots := StorageSlots(v);
    StorageOrderSettlesIff(p, entry, v);
    NestedAreFlat(v);
    var edits := Supplied(slots);
    var nestedIsFlat := (e: Edit) => e.Into? ==> e.edits == Supplied(CredentialSlots(v));
    SuppliedEach(slots, nestedIsFlat);
    forall i | 0 <= i < |edits| && edits[i].Into? && Below(entry, edits[i].name).Some?
      ensures SettledEdits(p, edits[i].edits, Below(entry, edits[i].name).value)
    {
      assert nestedIsFlat(edits[i]);
      FlatSettles(p, CredentialSlots(v), Below(entry, edits[i].name).value);
    }
  }

  lemma NestedAreFlat(v: StorageProviderValues)
    ensures EachSlot(CredentialSlots(v), IsFlat)
    ensures EachSlot(StorageSlots(v), (e: Edit) => e.Into? ==> e.edits == Supplied(CredentialSlots(v)))
  {
  }

  lemma StorageOrderSettlesIff(p: Policy, entry: Entries, v: StorageProviderValues)
    ensures Settles(Keys(entry), Ops(p, Supplied(StorageSlots(v)))) <==> StorageSettles(p, entry, v)
  {
    SlotsSettle(p, StorageSlots(v), entry);
    StoragePairs(p, entry, v);
    CriticalPairs(p, entry, v);
  }

  /** The pairs of fields whose order can change. */
  lemma CriticalPairs(p: Policy, entry: Entries, v: StorageProviderValues)
    ensures var s := StorageSlots(v);
            SlotOrderKept(p, entry, s[0], s[1]) && SlotOrderKept(p, entry, s[1], s[2]) && SlotOrderKept(p, entry, s[1], s[3])
            <==> StorageSettles(p, entry, v)
  {
    GetIsMembership(entry, Str("credentials"));
    GetIsMembership(entry, Str("root_folder_id"));
    GetIsMembership(entry, Str("display_name"));
  }

  predicate SlotOrderKept(p: Policy, es: Entries, a: Slot, b: Slot) {
    a.edit.Some? && b.edit.Some? ==> OrderKept(p, es, a.edit.value, b.edit.value)
  }

  lemma StoragePairs(p: Policy, entry: Entries, v: StorageProviderValues)
    ensures var s := StorageSlots(v);
            (forall a, b :: 0 <= a < b < 4 && s[a].edit.Some? && s[b].edit.Some? ==>
               OrderKept(p, entry, s[a].edit.value, s[b].edit.value))
            <==> SlotOrderKept(p, entry, s[0], s[1]) && SlotOrderKept(p, entry, s[1], s[2])
                 && SlotOrderKept(p, entry, s[1], s[3])
  {
  }
}
