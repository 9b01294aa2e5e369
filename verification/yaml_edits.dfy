/** YAML values with ordered mappings, and edits of a mapping in place. */
module YamlEdits {
  import opened Wrappers
  import opened Seqs
  import opened KeyOrder

  datatype Yaml = Str(text: string) | Hash(entries: Entries) | Arr(items: seq<Yaml>) | Other(text: string)

  type Entries = seq<(Yaml, Yaml)>

  // ----- Mappings -----

  function Keys(es: Entries): (r: seq<Yaml>)
    ensures |r| == |es| && forall i :: 0 <= i < |r| ==> r[i] == es[i].0
  {
    if es == [] then [] else Keys(es[..|es| - 1]) + [es[|es| - 1].0]
  }

  function Get(es: Entries, key: Yaml): Option<Yaml> {
    if es == [] then None
    else if es[|es| - 1].0 == key then Some(es[|es| - 1].1)
    else Get(es[..|es| - 1], key)
  }

  function Replace(es: Entries, key: Yaml, value: Yaml): Entries {
    if es == [] then []
    else
      var n := |es| - 1;
      if es[n].0 == key then es[..n] + [(key, value)] else Replace(es[..n], key, value) + [es[n]]
  }

  function Without(es: Entries, key: Yaml): Entries {
    if es == [] then []
    else
      var n := |es| - 1;
      if es[n].0 == key then Without(es[..n], key) else Without(es[..n], key) + [es[n]]
  }

  /** Whether the mapping type moves a present key to the back when it is inserted again, and when its entry is asked for. */
  datatype Policy = Policy(insertMoves: bool, entryMoves: bool)

  /** `insert`. */
  function Insert(p: Policy, es: Entries, key: Yaml, value: Yaml): Entries {
    if Get(es, key).None? then es + [(key, value)]
    else if p.insertMoves then Without(es, key) + [(key, value)]
    else Replace(es, key, value)
  }

  /** `entry(key).or_insert_with(value)`. */
  function EntryOr(p: Policy, es: Entries, key: Yaml, value: Yaml): Entries {
    match Get(es, key)
    case None => es + [(key, value)]
    case Some(present) => if p.entryMoves then Without(es, key) + [(key, present)] else es
  }

  // ----- Edits -----

  /** Insert a value, remove a key, or edit the mapping below a key, which is created if it is not there. */
  datatype Edit = Put(name: string, value: Yaml) | Drop(name: string) | Into(name: string, edits: seq<Edit>)

  /** The mapping as the edits leave it, and whether they all could be done. */
  datatype Edited = Edited(entries: Entries, ok: bool)

  /** Edits in order; the first that cannot be done ends them and leaves what was done before. */
  function Apply(p: Policy, edits: seq<Edit>, es: Entries): Edited
    decreases edits
  {
    if edits == [] then Edited(es, true)
    else
      var before := Apply(p, edits[..|edits| - 1], es);
      if !before.ok then before else Step(p, edits[|edits| - 1], before.entries)
  }

  function Step(p: Policy, e: Edit, es: Entries): Edited
    decreases e
  {
    match e
    case Put(name, value) => Edited(Insert(p, es, Str(name), value), true)
    case Drop(name) => Edited(Without(es, Str(name)), true)
    case Into(name, edits) =>
      var at := EntryOr(p, es, Str(name), Hash([]));
      match Get(at, Str(name))
      case Some(Hash(sub)) =>
        var r := Apply(p, edits, sub);
        Edited(Replace(at, Str(name), Hash(r.entries)), r.ok)
      case _ => Edited(at, false)
  }

  /** The mapping below a key, empty if the key is not there. */
  function Below(es: Entries, name: string): (r: Option<Entries>) {
    match Get(es, Str(name))
    case None => Some([])
    case Some(Hash(sub)) => Some(sub)
    case Some(_) => None
  }

  // ----- Facts about mappings -----

  lemma {:induction false} GetIsMembership(es: Entries, key: Yaml)
    ensures Get(es, key).Some? <==> key in Keys(es)
  {
    if es != [] {
      GetIsMembership(es[..|es| - 1], key);
    }
  }

  lemma AppendFacts(es: Entries, key: Yaml, value: Yaml, k: Yaml)
    ensures Keys(es + [(key, value)]) == Keys(es) + [key]
    ensures Get(es + [(key, value)], k) == if k == key then Some(value) else Get(es, k)
  {
    assert (es + [(key, value)])[..|es|] == es;
  }

  lemma {:induction false} ReplaceFacts(es: Entries, key: Yaml, value: Yaml, k: Yaml)
    ensures Keys(Replace(es, key, value)) == Keys(es)
    ensures Get(Replace(es, key, value), k) == if k == key && Get(es, key).Some? then Some(value) else Get(es, k)
  {
    if es != [] {
      var n := |es| - 1;
      if es[n].0 == key {
        AppendFacts(es[..n], key, value, k);
      } else {
        ReplaceFacts(es[..n], key, value, k);
        AppendFacts(Replace(es[..n], key, value), es[n].0, es[n].1, k);
      }
    }
  }

  lemma {:induction false} WithoutKeys(es: Entries, key: Yaml)
    ensures Keys(Without(es, key)) == Remove(Keys(es), key)
  {
    if es != [] {
      var n := |es| - 1;
      WithoutKeys(es[..n], key);
      assert Keys(es)[..n] == Keys(es[..n]);
      if es[n].0 != key {
        AppendFacts(Without(es[..n], key), es[n].0, es[n].1, key);
      }
    }
  }

  lemma {:induction false} WithoutFacts(es: Entries, key: Yaml, k: Yaml)
    ensures Keys(Without(es, key)) == Remove(Keys(es), key)
    ensures Get(Without(es, key), k) == if k == key then None else Get(es, k)
  {
    WithoutKeys(es, key);
    if es != [] {
      var n := |es| - 1;
      WithoutFacts(es[..n], key, k);
      if es[n].0 != key {
        AppendFacts(Without(es[..n], key), es[n].0, es[n].1, k);
      }
    }
  }

  lemma InsertFacts(p: Policy, es: Entries, key: Yaml, value: Yaml, k: Yaml)
    ensures Keys(Insert(p, es, key, value)) == OrderStep(Keys(es), Op(key, if p.insertMoves then Move else Stay))
    ensures Get(Insert(p, es, key, value), k) == if k == key then Some(value) else Get(es, k)
  {
    GetIsMembership(es, key);
    AppendFacts(es, key, value, k);
    ReplaceFacts(es, key, value, k);
    WithoutFacts(es, key, k);
    AppendFacts(Without(es, key), key, value, k);
    if Get(es, key).None? { RemoveAbsent(Keys(es), key); }
  }

  lemma EntryFacts(p: Policy, es: Entries, key: Yaml, value: Yaml, k: Yaml)
    ensures Keys(EntryOr(p, es, key, value)) == OrderStep(Keys(es), Op(key, if p.entryMoves then Move else Stay))
    ensures Get(EntryOr(p, es, key, value), k)
            == if k == key then Some(if Get(es, key).None? then value else Get(es, key).value) else Get(es, k)
  {
    GetIsMembership(es, key);
    AppendFacts(es, key, value, k);
    WithoutFacts(es, key, k);
    if Get(es, key).None? {
      RemoveAbsent(Keys(es), key);
    } else {
      AppendFacts(Without(es, key), key, Get(es, key).value, k);
    }
  }

  lemma LastKey(es: Entries)
    requires es != [] && Unique(Keys(es))
    ensures var n := |es| - 1;
            Keys(es[..n]) == Keys(es)[..n] && Keys(es)[n] == es[n].0 && Unique(Keys(es[..n])) && es[n].0 !in Keys(es[..n])
  {
    var n := |es| - 1;
    assert Keys(es)[..n] == Keys(es[..n]);
    UniqueLast(Keys(es));
  }

  predicate SameValues(a: Entries, b: Entries) {
    forall k :: k in Keys(a) ==> Get(a, k) == Get(b, k)
  }

  lemma SameValuesBefore(a: Entries, b: Entries)
    requires a != [] && b != [] && Unique(Keys(a)) && Keys(a) == Keys(b) && SameValues(a, b)
    ensures var n := |a| - 1; |a| == |b| && a[n] == b[n] && SameValues(a[..n], b[..n])
    ensures var n := |a| - 1; Unique(Keys(a[..n])) && Keys(a[..n]) == Keys(b[..n])
  {
    assert |Keys(a)| == |a| && |Keys(b)| == |b|;
    var n := |a| - 1;
    LastKey(a);
    LastKey(b);
    assert a[n].0 in Keys(a);
    forall k | k in Keys(a[..n]) ensures Get(a[..n], k) == Get(b[..n], k) {
      assert k in Keys(a);
    }
  }

  lemma {:induction false} SameKeysSameValues(a: Entries, b: Entries)
    requires Unique(Keys(a)) && Keys(a) == Keys(b) && SameValues(a, b)
    ensures a == b
  {
    assert |Keys(a)| == |a| && |Keys(b)| == |b|;
    if a != [] {
      SameValuesBefore(a, b);
      SameKeysSameValues(a[..|a| - 1], b[..|b| - 1]);
      SameButLast(a, b);
    }
  }

  // ----- One edit -----

  function OpOf(p: Policy, e: Edit): Op<Yaml> {
    Op(Str(e.name),
       if e.Drop? then Gone else if (if e.Put? then p.insertMoves else p.entryMoves) then Move else Stay)
  }

  /** What an edit leaves below its key. */
  function Left(p: Policy, e: Edit, es: Entries): Option<Yaml> {
    match e
    case Put(_, value) => Some(value)
    case Drop(_) => None
    case Into(name, edits) =>
      match Below(es, name)
      case None => Get(es, Str(name))
      case Some(sub) => Some(Hash(Apply(p, edits, sub).entries))
  }

  predicate Succeeds(p: Policy, e: Edit, es: Entries) {
    e.Into? ==> Below(es, e.name).Some? && Apply(p, e.edits, Below(es, e.name).value).ok
  }

  lemma IntoWithoutMapping(p: Policy, e: Edit, es: Entries, k: Yaml)
    requires e.Into? && Below(es, e.name).None?
    ensures var r := Step(p, e, es);
            Keys(r.entries) == OrderStep(Keys(es), OpOf(p, e)) && Get(r.entries, k) == Get(es, k) && !r.ok
  {
    EntryFacts(p, es, Str(e.name), Hash([]), k);
    EntryFacts(p, es, Str(e.name), Hash([]), Str(e.name));
  }

  lemma IntoUnfolds(p: Policy, e: Edit, es: Entries)
    requires e.Into? && Below(es, e.name).Some?
    ensures var at, sub := EntryOr(p, es, Str(e.name), Hash([])), Apply(p, e.edits, Below(es, e.name).value);
            Step(p, e, es) == Edited(Replace(at, Str(e.name), Hash(sub.entries)), sub.ok)
            && Get(at, Str(e.name)).Some?
  {
    EntryFacts(p, es, Str(e.name), Hash([]), Str(e.name));
    assert Get(EntryOr(p, es, Str(e.name), Hash([])), Str(e.name)) == Some(Hash(Below(es, e.name).value));
  }

  lemma IntoMapping(p: Policy, e: Edit, es: Entries, k: Yaml)
    requires e.Into? && Below(es, e.name).Some?
    ensures var r, sub := Step(p, e, es), Apply(p, e.edits, Below(es, e.name).value);
            Keys(r.entries) == OrderStep(Keys(es), OpOf(p, e))
            && Get(r.entries, k) == (if k == Str(e.name) then Some(Hash(sub.entries)) else Get(es, k))
            && r.ok == sub.ok
  {
    var key := Str(e.name);
    IntoUnfolds(p, e, es);
    EntryFacts(p, es, key, Hash([]), k);
    ReplaceFacts(EntryOr(p, es, key, Hash([])), key, Hash(Apply(p, e.edits, Below(es, e.name).value).entries), k);
  }

  /** An edit orders the keys as its operation says, changes no other key, and leaves its result below its own. */
  lemma StepFacts(p: Policy, e: Edit, es: Entries, k: Yaml)
    ensures var r := Step(p, e, es);
            Keys(r.entries) == OrderStep(Keys(es), OpOf(p, e))
            && Get(r.entries, k) == (if k == Str(e.name) then Left(p, e, es) else Get(es, k))
            && (r.ok <==> Succeeds(p, e, es))
  {
    match e {
      case Put(name, value) => InsertFacts(p, es, Str(name), value, k);
      case Drop(name) => WithoutFacts(es, Str(name), k);
      case Into(name, edits) =>
        if Below(es, name).Some? {
          IntoMapping(p, e, es, k);
        } else {
          IntoWithoutMapping(p, e, es, k);
        }
    }
  }

  // ----- All edits -----

  function Ops(p: Policy, edits: seq<Edit>): (r: seq<Op<Yaml>>)
    ensures |r| == |edits| && forall i :: 0 <= i < |r| ==> r[i] == OpOf(p, edits[i])
  {
    if edits == [] then [] else Ops(p, edits[..|edits| - 1]) + [OpOf(p, edits[|edits| - 1])]
  }

  /** No key is edited twice, at any depth. */
  predicate DistinctEdits(edits: seq<Edit>)
    decreases edits
  {
    (forall i, j :: 0 <= i < j < |edits| ==> edits[i].name != edits[j].name)
    && forall i :: 0 <= i < |edits| && edits[i].Into? ==> DistinctEdits(edits[i].edits)
  }

  lemma DistinctOps(p: Policy, edits: seq<Edit>)
    requires DistinctEdits(edits)
    ensures Distinct(Ops(p, edits))
  {
  }

  lemma {:induction false} ApplyOrder(p: Policy, edits: seq<Edit>, es: Entries)
    requires Apply(p, edits, es).ok
    ensures Keys(Apply(p, edits, es).entries) == Order(Keys(es), Ops(p, edits))
  {
    if edits != [] {
      var n := |edits| - 1;
      ApplyOrder(p, edits[..n], es);
      StepFacts(p, edits[n], Apply(p, edits[..n], es).entries, Str(""));
      assert Ops(p, edits)[..n] == Ops(p, edits[..n]);
    }
  }

  /** No edit concerns the key. */
  predicate Leaves(edits: seq<Edit>, k: Yaml) {
    forall i :: 0 <= i < |edits| ==> Str(edits[i].name) != k
  }

  lemma LeavesBefore(edits: seq<Edit>, k: Yaml)
    requires edits != [] && Leaves(edits, k)
    ensures Leaves(edits[..|edits| - 1], k) && Str(edits[|edits| - 1].name) != k
  {
  }

  lemma {:induction false} ApplyOther(p: Policy, edits: seq<Edit>, es: Entries, k: Yaml)
    requires Leaves(edits, k)
    ensures Get(Apply(p, edits, es).entries, k) == Get(es, k)
  {
    if edits != [] {
      var n := |edits| - 1;
      LeavesBefore(edits, k);
      ApplyOther(p, edits[..n], es, k);
      StepFacts(p, edits[n], Apply(p, edits[..n], es).entries, k);
    }
  }

  lemma LeftDependsOnKey(p: Policy, e: Edit, a: Entries, b: Entries)
    requires Get(a, Str(e.name)) == Get(b, Str(e.name))
    ensures Left(p, e, a) == Left(p, e, b) && (Succeeds(p, e, a) <==> Succeeds(p, e, b))
  {
  }

  /** After a successful run every edited key holds what its edit leaves when it is done alone. */
  lemma {:induction false} ApplyAt(p: Policy, edits: seq<Edit>, es: Entries, i: nat)
    requires DistinctEdits(edits) && Apply(p, edits, es).ok && i < |edits|
    ensures Get(Apply(p, edits, es).entries, Str(edits[i].name)) == Left(p, edits[i], es) && Succeeds(p, edits[i], es)
  {
    var n := |edits| - 1;
    DistinctBefore(edits);
    if i < n {
      ApplyAt(p, edits[..n], es, i);
      assert Str(edits[i].name) != Str(edits[n].name);
      StepFacts(p, edits[n], Apply(p, edits[..n], es).entries, Str(edits[i].name));
    } else {
      ApplyLast(p, edits, es);
    }
  }

  lemma DistinctBefore(edits: seq<Edit>)
    requires DistinctEdits(edits) && edits != []
    ensures DistinctEdits(edits[..|edits| - 1])
    ensures Leaves(edits[..|edits| - 1], Str(edits[|edits| - 1].name))
  {
  }

  lemma ApplyLast(p: Policy, edits: seq<Edit>, es: Entries)
    requires DistinctEdits(edits) && edits != [] && Apply(p, edits[..|edits| - 1], es).ok
    ensures var e, r := edits[|edits| - 1], Apply(p, edits, es);
            Get(r.entries, Str(e.name)) == Left(p, e, es) && (r.ok <==> Succeeds(p, e, es))
  {
    var n := |edits| - 1;
    DistinctBefore(edits);
    ApplyOther(p, edits[..n], es, Str(edits[n].name));
    var before := Apply(p, edits[..n], es).entries;
    LeftDependsOnKey(p, edits[n], before, es);
    StepFacts(p, edits[n], before, Str(edits[n].name));
  }

  /** The edits can all be done if each can be done alone. */
  lemma {:induction false} ApplySucceeds(p: Policy, edits: seq<Edit>, es: Entries)
    requires DistinctEdits(edits) && forall i :: 0 <= i < |edits| ==> Succeeds(p, edits[i], es)
    ensures Apply(p, edits, es).ok
  {
    if edits != [] {
      var n := |edits| - 1;
      DistinctBefore(edits);
      ApplySucceeds(p, edits[..n], es);
      ApplyLast(p, edits, es);
    }
  }
}
