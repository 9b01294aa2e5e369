/** Edits done twice, and what edits leave alone. */
module YamlEditProofs {
  import opened Wrappers
  import opened KeyOrder
  import opened YamlEdits

  // ----- Well-formed values -----

  /** No mapping in the value holds a key twice. */
  predicate WellFormed(y: Yaml)
    decreases y
  {
    match y
    case Hash(es) => Unique(Keys(es)) && forall i :: 0 <= i < |es| ==> WellFormed(es[i].1)
    case Arr(items) => forall i :: 0 <= i < |items| ==> WellFormed(items[i])
    case _ => true
  }

  predicate WellFormedEdits(edits: seq<Edit>)
    decreases edits
  {
    forall i :: 0 <= i < |edits| ==>
      (edits[i].Put? ==> WellFormed(edits[i].value)) && (edits[i].Into? ==> WellFormedEdits(edits[i].edits))
  }

  lemma {:induction false} GetIsEntry(es: Entries, key: Yaml)
    requires Get(es, key).Some?
    ensures exists i :: 0 <= i < |es| && es[i] == (key, Get(es, key).value)
  {
    var n := |es| - 1;
    if es[n].0 != key {
      GetIsEntry(es[..n], key);
      var i :| 0 <= i < n && es[..n][i] == (key, Get(es, key).value);
      assert es[i] == es[..n][i];
    }
  }

  lemma {:induction false} EntryIsGet(es: Entries, i: nat)
    requires Unique(Keys(es)) && i < |es|
    ensures Get(es, es[i].0) == Some(es[i].1)
  {
    var n := |es| - 1;
    LastKey(es);
    if i < n {
      assert Keys(es[..n])[i] == es[i].0 && Keys(es[..n])[i] in Keys(es[..n]);
      EntryIsGet(es[..n], i);
    }
  }

  lemma WellFormedGet(es: Entries, key: Yaml)
    requires WellFormed(Hash(es)) && Get(es, key).Some?
    ensures WellFormed(Get(es, key).value)
  {
    GetIsEntry(es, key);
  }

  /** Well-formedness, key by key. */
  lemma WellFormedByKey(es: Entries)
    requires Unique(Keys(es)) && forall k :: Get(es, k).Some? ==> WellFormed(Get(es, k).value)
    ensures WellFormed(Hash(es))
  {
    forall i | 0 <= i < |es| ensures WellFormed(es[i].1) {
      EntryIsGet(es, i);
    }
  }

  lemma WellFormedBelow(es: Entries, name: string)
    requires WellFormed(Hash(es)) && Below(es, name).Some?
    ensures WellFormed(Hash(Below(es, name).value))
  {
    if Get(es, Str(name)).Some? {
      WellFormedGet(es, Str(name));
    }
  }

  lemma {:induction false} ApplyKeepsWellFormed(p: Policy, edits: seq<Edit>, es: Entries)
    requires WellFormed(Hash(es)) && WellFormedEdits(edits)
    ensures WellFormed(Hash(Apply(p, edits, es).entries))
    decreases edits
  {
    if edits != [] {
      var n := |edits| - 1;
      ApplyKeepsWellFormed(p, edits[..n], es);
      StepKeepsWellFormed(p, edits[n], Apply(p, edits[..n], es).entries);
    }
  }

  lemma {:induction false} StepKeepsWellFormed(p: Policy, e: Edit, es: Entries)
    requires WellFormed(Hash(es)) && WellFormedEdits([e])
    ensures WellFormed(Hash(Step(p, e, es).entries))
    decreases e
  {
    assert [e][0] == e;
    StepFacts(p, e, es, Str(""));
    OrderKeepsUnique(Keys(es), [OpOf(p, e)]);
    assert Order(Keys(es), [OpOf(p, e)][..0]) == Keys(es);
    if e.Into? && Below(es, e.name).Some? {
      WellFormedBelow(es, e.name);
      ApplyKeepsWellFormed(p, e.edits, Below(es, e.name).value);
    }
    var after := Step(p, e, es).entries;
    forall k | Get(after, k).Some? ensures WellFormed(Get(after, k).value) {
      StepFacts(p, e, es, k);
      if Get(es, k).Some? { WellFormedGet(es, k); }
    }
    WellFormedByKey(after);
  }

  // ----- Doing edits twice -----

  /** When a second run of successful edits changes nothing: at every depth, no entry that is asked for and keeps
      its place is new after one that is moved. */
  predicate SettledEdits(p: Policy, edits: seq<Edit>, es: Entries)
    decreases edits
  {
    Settles(Keys(es), Ops(p, edits))
    && forall i :: 0 <= i < |edits| && edits[i].Into? && Below(es, edits[i].name).Some? ==>
         SettledEdits(p, edits[i].edits, Below(es, edits[i].name).value)
  }

  /** The second run succeeds, and changes nothing exactly if the edits settle. */
  lemma {:induction false} ApplyTwice(p: Policy, edits: seq<Edit>, es: Entries)
    requires WellFormed(Hash(es)) && WellFormedEdits(edits) && DistinctEdits(edits) && Apply(p, edits, es).ok
    ensures var once := Apply(p, edits, es).entries;
            Apply(p, edits, once).ok && (Apply(p, edits, once).entries == once <==> SettledEdits(p, edits, es))
    decreases edits
  {
    var once := Apply(p, edits, es).entries;
    forall i | 0 <= i < |edits|
      ensures Succeeds(p, edits[i], once)
      ensures Left(p, edits[i], once) == Left(p, edits[i], es) <==> SettledEdit(p, edits[i], es)
    {
      EditTwice(p, edits, es, i);
    }
    ApplySucceeds(p, edits, once);
    TwiceIsSameIff(p, edits, es);
  }

  predicate SettledEdit(p: Policy, e: Edit, es: Entries) {
    e.Into? && Below(es, e.name).Some? ==> SettledEdits(p, e.edits, Below(es, e.name).value)
  }

  lemma {:induction false} EditTwice(p: Policy, edits: seq<Edit>, es: Entries, i: nat)
    requires WellFormed(Hash(es)) && WellFormedEdits(edits) && DistinctEdits(edits) && Apply(p, edits, es).ok && i < |edits|
    ensures var once := Apply(p, edits, es).entries;
            Succeeds(p, edits[i], once)
            && (Left(p, edits[i], once) == Left(p, edits[i], es) <==> SettledEdit(p, edits[i], es))
    decreases edits, 0
  {
    var e := edits[i];
    ApplyAt(p, edits, es, i);
    if e.Into? {
      var sub := Below(es, e.name).value;
      WellFormedBelow(es, e.name);
      ApplyTwice(p, e.edits, sub);
    }
  }

  lemma TwiceIsSameIff(p: Policy, edits: seq<Edit>, es: Entries)
    requires WellFormed(Hash(es)) && WellFormedEdits(edits) && DistinctEdits(edits) && Apply(p, edits, es).ok
    requires Apply(p, edits, Apply(p, edits, es).entries).ok
    requires forall i :: 0 <= i < |edits| ==>
               (Left(p, edits[i], Apply(p, edits, es).entries) == Left(p, edits[i], es) <==> SettledEdit(p, edits[i], es))
    ensures var once := Apply(p, edits, es).entries;
            Apply(p, edits, once).entries == once <==> SettledEdits(p, edits, es)
  {
    var once := Apply(p, edits, es).entries;
    var twice := Apply(p, edits, once).entries;
    ApplyOrder(p, edits, es);
    ApplyOrder(p, edits, once);
    DistinctOps(p, edits);
    AgainChangesNothingIff(Keys(es), Ops(p, edits));
    ApplyKeepsWellFormed(p, edits, es);
    if SettledEdits(p, edits, es) {
      forall k | k in Keys(once) ensures Get(once, k) == Get(twice, k) {
        SameAtKey(p, edits, es, k);
      }
      SameKeysSameValues(once, twice);
    }
    if twice == once {
      forall i | 0 <= i < |edits| ensures SettledEdit(p, edits[i], es) {
        ApplyAt(p, edits, es, i);
        ApplyAt(p, edits, once, i);
      }
    }
  }

  lemma SameAtKey(p: Policy, edits: seq<Edit>, es: Entries, k: Yaml)
    requires DistinctEdits(edits) && Apply(p, edits, es).ok && Apply(p, edits, Apply(p, edits, es).entries).ok
    requires forall i :: 0 <= i < |edits| ==> Left(p, edits[i], Apply(p, edits, es).entries) == Left(p, edits[i], es)
    ensures var once := Apply(p, edits, es).entries;
            Get(once, k) == Get(Apply(p, edits, once).entries, k)
  {
    var once := Apply(p, edits, es).entries;
    if i :| 0 <= i < |edits| && Str(edits[i].name) == k {
      ApplyAt(p, edits, es, i);
      ApplyAt(p, edits, once, i);
    } else {
      ApplyOther(p, edits, once, k);
    }
  }

  lemma OrderSettledAfterOnce(p: Policy, edits: seq<Edit>, es: Entries)
    requires DistinctEdits(edits) && Apply(p, edits, es).ok
    ensures Settles(Keys(Apply(p, edits, es).entries), Ops(p, edits))
  {
    ApplyOrder(p, edits, es);
    DistinctOps(p, edits);
    SettledAfterwards(Keys(es), Ops(p, edits));
  }

  lemma BelowAfterOnce(p: Policy, edits: seq<Edit>, es: Entries, i: nat)
    requires DistinctEdits(edits) && Apply(p, edits, es).ok && i < |edits| && edits[i].Into?
    ensures Below(es, edits[i].name).Some?
    ensures var sub := Apply(p, edits[i].edits, Below(es, edits[i].name).value);
            sub.ok && Below(Apply(p, edits, es).entries, edits[i].name) == Some(sub.entries)
  {
    ApplyAt(p, edits, es, i);
  }

  /** From the second run on nothing changes any more. */
  lemma {:induction false} SettledAfterOnce(p: Policy, edits: seq<Edit>, es: Entries)
    requires DistinctEdits(edits) && Apply(p, edits, es).ok
    ensures SettledEdits(p, edits, Apply(p, edits, es).entries)
    decreases edits
  {
    var once := Apply(p, edits, es).entries;
    OrderSettledAfterOnce(p, edits, es);
    forall i | 0 <= i < |edits| && edits[i].Into? && Below(once, edits[i].name).Some?
      ensures SettledEdits(p, edits[i].edits, Below(once, edits[i].name).value)
    {
      BelowAfterOnce(p, edits, es, i);
      SettledAfterOnce(p, edits[i].edits, Below(es, edits[i].name).value);
    }
  }

  // ----- What edits leave alone -----

  /** The value that a path of keys leads to. */
  function GetPath(y: Yaml, path: seq<Yaml>): Option<Yaml>
    decreases path
  {
    if path == [] then Some(y)
    else if !y.Hash? then None
    else
      match Get(y.entries, path[0])
      case None => None
      case Some(value) => GetPath(value, path[1..])
  }

  /** An edit names the path, a part of it, or something below it. */
  predicate Touches(e: Edit, path: seq<Yaml>)
    decreases e
  {
    path == [] || (path[0] == Str(e.name) && (e.Into? ==> TouchedBy(e.edits, path[1..])))
  }

  predicate TouchedBy(edits: seq<Edit>, path: seq<Yaml>)
    decreases edits
  {
    path == [] || exists i :: 0 <= i < |edits| && Touches(edits[i], path)
  }

  /** Whether or not the edits succeed, a path that none of them touches leads to the same value as before. */
  lemma {:induction false} UntouchedIsKept(p: Policy, edits: seq<Edit>, es: Entries, path: seq<Yaml>)
    requires !TouchedBy(edits, path)
    ensures GetPath(Hash(Apply(p, edits, es).entries), path) == GetPath(Hash(es), path)
    decreases edits
  {
    if edits != [] {
      var n := |edits| - 1;
      assert forall i :: 0 <= i < n ==> edits[..n][i] == edits[i];
      UntouchedIsKept(p, edits[..n], es, path);
      UntouchedByStep(p, edits[n], Apply(p, edits[..n], es).entries, path);
    }
  }

  lemma {:induction false} UntouchedByStep(p: Policy, e: Edit, es: Entries, path: seq<Yaml>)
    requires !Touches(e, path)
    ensures GetPath(Hash(Step(p, e, es).entries), path) == GetPath(Hash(es), path)
    decreases e
  {
    StepFacts(p, e, es, path[0]);
    if e.Into? && path[0] == Str(e.name) && Below(es, e.name).Some? {
      UntouchedIsKept(p, e.edits, Below(es, e.name).value, path[1..]);
    }
  }
}
