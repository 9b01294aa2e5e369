/** What a list of edits does to the order of the keys of a mapping, and when doing it again changes nothing. */
module KeyOrder {
  /** A key that keeps its place, is moved to the back, or is removed. Absent keys are added at the back. */
  datatype Mode = Stay | Move | Gone

  datatype Op<K> = Op(key: K, mode: Mode)

  predicate Unique<K(==, !new)>(keys: seq<K>) { forall i, j :: 0 <= i < j < |keys| ==> keys[i] != keys[j] }

  predicate Distinct<K(==, !new)>(ops: seq<Op<K>>) { forall i, j :: 0 <= i < j < |ops| ==> ops[i].key != ops[j].key }

  function Remove<K(==, !new)>(keys: seq<K>, key: K): (r: seq<K>)
    ensures key !in r && forall k :: k in r <==> k in keys && k != key
  {
    if keys == [] then []
    else if keys[|keys| - 1] == key then Remove(keys[..|keys| - 1], key)
    else Remove(keys[..|keys| - 1], key) + [keys[|keys| - 1]]
  }

  function OrderStep<K(==, !new)>(keys: seq<K>, op: Op<K>): (r: seq<K>)
    ensures forall k :: k != op.key ==> (k in r <==> k in keys)
    ensures op.key in r <==> !op.mode.Gone?
  {
    match op.mode
    case Stay => if op.key in keys then keys else keys + [op.key]
    case Move => Remove(keys, op.key) + [op.key]
    case Gone => Remove(keys, op.key)
  }

  function Order<K(==, !new)>(keys: seq<K>, ops: seq<Op<K>>): seq<K> {
    if ops == [] then keys else OrderStep(Order(keys, ops[..|ops| - 1]), ops[|ops| - 1])
  }

  /** The keys that are moved, in order. */
  function Moved<K(==, !new)>(ops: seq<Op<K>>): (r: seq<K>)
    ensures forall k :: k in r <==> exists i :: 0 <= i < |ops| && ops[i] == Op(k, Move)
  {
    if ops == [] then []
    else
      var n := |ops| - 1;
      assert ops == ops[..n] + [ops[n]];
      if ops[n].mode.Move? then Moved(ops[..n]) + [ops[n].key] else Moved(ops[..n])
  }

  /** No key that stays is new after a key that is moved. */
  predicate Settles<K(==, !new)>(keys: seq<K>, ops: seq<Op<K>>) {
    forall i, j :: 0 <= i < j < |ops| && ops[i].mode.Move? && ops[j].mode.Stay? ==> ops[j].key in keys
  }

  lemma UniqueLast<K(!new)>(keys: seq<K>)
    requires keys != [] && Unique(keys)
    ensures var n := |keys| - 1; Unique(keys[..n]) && keys[n] !in keys[..n]
  {
  }

  // ----- Removing keys -----

  lemma {:induction false} RemoveConcat<K(!new)>(a: seq<K>, b: seq<K>, key: K)
    ensures Remove(a + b, key) == Remove(a, key) + Remove(b, key)
  {
    if b == [] {
      assert a + b == a;
    } else {
      var n := |b| - 1;
      assert (a + b)[..|a + b| - 1] == a + b[..n] && (a + b)[|a + b| - 1] == b[n];
      RemoveConcat(a, b[..n], key);
    }
  }

  lemma {:induction false} RemoveAbsent<K(!new)>(keys: seq<K>, key: K)
    requires key !in keys
    ensures Remove(keys, key) == keys
  {
    if keys != [] {
      var n := |keys| - 1;
      assert keys[n] in keys;
      RemoveAbsent(keys[..n], key);
      assert keys == keys[..n] + [keys[n]];
    }
  }

  lemma {:induction false} RemoveKeepsUnique<K(!new)>(keys: seq<K>, key: K)
    requires Unique(keys)
    ensures Unique(Remove(keys, key))
  {
    if keys != [] {
      var n := |keys| - 1;
      RemoveKeepsUnique(keys[..n], key);
      var r := Remove(keys[..n], key);
      forall i | 0 <= i < |r| ensures r[i] != keys[n] {
        assert r[i] in r && r[i] in keys[..n];
      }
    }
  }

  lemma {:induction false} OrderKeepsUnique<K(!new)>(keys: seq<K>, ops: seq<Op<K>>)
    requires Unique(keys)
    ensures Unique(Order(keys, ops))
  {
    if ops != [] {
      var n := |ops| - 1;
      OrderKeepsUnique(keys, ops[..n]);
      RemoveKeepsUnique(Order(keys, ops[..n]), ops[n].key);
    }
  }

  // ----- Which keys there are afterwards -----

  lemma {:induction false} OrderMembers<K(!new)>(keys: seq<K>, ops: seq<Op<K>>, i: nat)
    requires Distinct(ops) && i < |ops|
    ensures ops[i].key in Order(keys, ops) <==> !ops[i].mode.Gone?
  {
    var n := |ops| - 1;
    if i < n {
      OrderMembers(keys, ops[..n], i);
    }
  }

  lemma {:induction false} OrderKeeps<K(!new)>(keys: seq<K>, ops: seq<Op<K>>, key: K)
    requires forall i :: 0 <= i < |ops| ==> ops[i].key != key
    ensures key in Order(keys, ops) <==> key in keys
  {
    if ops != [] {
      OrderKeeps(keys, ops[..|ops| - 1], key);
    }
  }

  // ----- The moved keys end up at the back -----

  predicate EndsWithKeys<K(==, !new)>(keys: seq<K>, tail: seq<K>) {
    |tail| <= |keys| && keys[|keys| - |tail|..] == tail
  }

  lemma EndsWithSplit<K(!new)>(base: seq<K>, tail: seq<K>)
    ensures EndsWithKeys(base + tail, tail)
  {
  }

  lemma MovedNext<K(!new)>(ops: seq<Op<K>>)
    requires ops != [] && Distinct(ops)
    ensures var n := |ops| - 1; ops[n].key !in Moved(ops[..n]) && Distinct(ops[..n])
  {
  }

  lemma SettlesBefore<K(!new)>(keys: seq<K>, ops: seq<Op<K>>)
    requires ops != [] && Settles(keys, ops)
    ensures Settles(keys, ops[..|ops| - 1])
  {
  }

  lemma {:induction false} MovedAreLast<K(!new)>(keys: seq<K>, ops: seq<Op<K>>)
    requires Distinct(ops) && Settles(keys, ops)
    ensures EndsWithKeys(Order(keys, ops), Moved(ops))
  {
    if ops != [] {
      var n := |ops| - 1;
      MovedNext(ops);
      SettlesBefore(keys, ops);
      MovedAreLast(keys, ops[..n]);
      if ops[n].mode.Stay? { StayingIsOld(keys, ops); }
      NextIsLast(Order(keys, ops[..n]), Moved(ops[..n]), ops[n]);
    }
  }

  lemma NextIsLast<K(!new)>(keys: seq<K>, moved: seq<K>, op: Op<K>)
    requires EndsWithKeys(keys, moved) && op.key !in moved
    requires op.mode.Stay? ==> moved == [] || op.key in keys
    ensures EndsWithKeys(OrderStep(keys, op), if op.mode.Move? then moved + [op.key] else moved)
  {
    var base := keys[..|keys| - |moved|];
    assert keys == base + moved;
    RemoveConcat(base, moved, op.key);
    RemoveAbsent(moved, op.key);
    EndsWithSplit(Remove(base, op.key), moved);
    assert Remove(base, op.key) + moved + [op.key] == Remove(base, op.key) + (moved + [op.key]);
    EndsWithSplit(Remove(base, op.key), moved + [op.key]);
  }

  /** When the last key stays, either nothing was moved or the key is there already. */
  lemma StayingIsOld<K(!new)>(keys: seq<K>, ops: seq<Op<K>>)
    requires ops != [] && Distinct(ops) && Settles(keys, ops) && ops[|ops| - 1].mode.Stay?
    ensures var n := |ops| - 1; Moved(ops[..n]) == [] || ops[n].key in Order(keys, ops[..n])
  {
    var n := |ops| - 1;
    var moved := Moved(ops[..n]);
    if moved != [] {
      assert moved[0] in moved;
      var i :| 0 <= i < |ops[..n]| && ops[..n][i] == Op(moved[0], Move);
      assert ops[i].mode.Move?;
      OrderKeeps(keys, ops[..n], ops[n].key);
    }
  }

  // ----- Doing it again -----

  /** The keys when the first `i` of the moved ones have been moved again. */
  function Turned<K>(base: seq<K>, moved: seq<K>, i: nat): seq<K>
    requires i <= |moved|
  {
    base + (moved[i..] + moved[..i])
  }

  lemma TurnedMembers<K(!new)>(base: seq<K>, moved: seq<K>, i: nat, key: K)
    requires i <= |moved|
    ensures key in Turned(base, moved, i) <==> key in base + moved
  {
    assert moved == moved[..i] + moved[i..];
  }

  /** Moving the first of the keys at the back turns the back round by one. */
  lemma Rotate<K(!new)>(base: seq<K>, moved: seq<K>, i: nat)
    requires Unique(base + moved) && i < |moved|
    ensures OrderStep(Turned(base, moved, i), Op(moved[i], Move)) == Turned(base, moved, i + 1)
  {
    var key := moved[i];
    forall k | 0 <= k < |base| ensures base[k] != key {
      assert (base + moved)[k] != (base + moved)[|base| + i];
    }
    forall k | 0 <= k < |moved| && k != i ensures moved[k] != key {
      assert (base + moved)[|base| + k] != (base + moved)[|base| + i];
    }
    var others := moved[i + 1..] + moved[..i];
    assert Turned(base, moved, i) == base + [key] + others;
    RemoveConcat(base + [key], others, key);
    RemoveConcat(base, [key], key);
    RemoveAbsent(base, key);
    RemoveAbsent(others, key);
    assert Remove([key], key) == [];
    assert base + [] == base;
  }

  /** The moved keys are at the back, the keys that stay are there and the removed ones are not. */
  predicate IsArranged<K(==, !new)>(base: seq<K>, ops: seq<Op<K>>) {
    Unique(base + Moved(ops)) && HasKeysOf(base + Moved(ops), ops)
  }

  lemma OrderNext<K(!new)>(keys: seq<K>, ops: seq<Op<K>>, n: nat)
    requires n < |ops|
    ensures Order(keys, ops[..n + 1]) == OrderStep(Order(keys, ops[..n]), ops[n])
  {
    assert ops[..n + 1][..n] == ops[..n];
  }

  lemma {:induction false} RotatedAfter<K(!new)>(base: seq<K>, ops: seq<Op<K>>, n: nat)
    requires n <= |ops| && IsArranged(base, ops)
    ensures |Moved(ops[..n])| <= |Moved(ops)|
    ensures Order(base + Moved(ops), ops[..n]) == Turned(base, Moved(ops), |Moved(ops[..n])|)
  {
    MovedPrefix(ops, n);
    if n == 0 {
      assert Turned(base, Moved(ops), 0) == base + Moved(ops);
    } else {
      RotatedAfter(base, ops, n - 1);
      OrderNext(base + Moved(ops), ops, n - 1);
      TurnStep(base, ops, Moved(ops), n - 1);
    }
  }

  lemma TurnStep<K(!new)>(base: seq<K>, ops: seq<Op<K>>, moved: seq<K>, n: nat)
    requires n < |ops| && moved == Moved(ops) && Unique(base + moved)
    requires ops[n].mode.Stay? ==> ops[n].key in base + moved
    requires ops[n].mode.Gone? ==> ops[n].key !in base + moved
    ensures var i := |Moved(ops[..n])|;
            var next := |Moved(ops[..n + 1])|;
            i <= |moved| && next <= |moved|
            && OrderStep(Turned(base, moved, i), ops[n]) == Turned(base, moved, next)
  {
    MovedPrefix(ops, n);
    MovedPrefix(ops, n + 1);
    var i, op := |Moved(ops[..n])|, ops[n];
    assert ops[..n + 1][..n] == ops[..n];
    TurnedMembers(base, moved, i, op.key);
    match op.mode {
      case Stay =>
      case Gone => RemoveAbsent(Turned(base, moved, i), op.key);
      case Move =>
        assert moved[..i + 1][i] == op.key;
        Rotate(base, moved, i);
    }
  }

  lemma {:induction false} MovedPrefix<K(!new)>(ops: seq<Op<K>>, n: nat)
    requires n <= |ops|
    ensures |Moved(ops[..n])| <= |Moved(ops)| && Moved(ops[..n]) == Moved(ops)[..|Moved(ops[..n])|]
  {
    if n < |ops| {
      var m := |ops| - 1;
      assert ops[..m][..n] == ops[..n];
      MovedPrefix(ops[..m], n);
    } else {
      assert ops[..n] == ops;
    }
  }

  /** The keys that stay are there and the removed ones are not. */
  predicate HasKeysOf<K(==, !new)>(keys: seq<K>, ops: seq<Op<K>>) {
    forall i :: 0 <= i < |ops| ==> (ops[i].mode.Gone? <==> ops[i].key !in keys)
  }

  lemma KeysAfterwards<K(!new)>(keys: seq<K>, ops: seq<Op<K>>)
    requires Distinct(ops)
    ensures HasKeysOf(Order(keys, ops), ops)
  {
    forall i | 0 <= i < |ops| ensures ops[i].mode.Gone? <==> ops[i].key !in Order(keys, ops) {
      OrderMembers(keys, ops, i);
    }
  }

  /** If the moved keys are at the back and the others are as they should be, the edits change nothing. */
  lemma LastIsSame<K(!new)>(keys: seq<K>, ops: seq<Op<K>>)
    requires Unique(keys) && Distinct(ops) && EndsWithKeys(keys, Moved(ops)) && HasKeysOf(keys, ops)
    ensures Order(keys, ops) == keys
  {
    var moved := Moved(ops);
    var base := keys[..|keys| - |moved|];
    assert keys == base + moved;
    RotatedAfter(base, ops, |ops|);
    assert ops[..|ops|] == ops;
    assert Turned(base, moved, |moved|) == base + moved;
  }

  /** If the moved keys are at the back, doing it again changes nothing. */
  lemma AgainIsSame<K(!new)>(keys: seq<K>, ops: seq<Op<K>>)
    requires Unique(keys) && Distinct(ops)
    requires EndsWithKeys(Order(keys, ops), Moved(ops))
    ensures Order(Order(keys, ops), ops) == Order(keys, ops)
  {
    OrderKeepsUnique(keys, ops);
    KeysAfterwards(keys, ops);
    LastIsSame(Order(keys, ops), ops);
  }

  // ----- When it does change something -----

  predicate Before<K(==, !new)>(keys: seq<K>, a: K, b: K) {
    exists i, j :: 0 <= i < j < |keys| && keys[i] == a && keys[j] == b
  }

  lemma {:induction false} RemoveKeepsBefore<K(!new)>(keys: seq<K>, a: K, b: K, key: K)
    requires Before(keys, a, b) && key != a && key != b
    ensures Before(Remove(keys, key), a, b)
  {
    var i, j :| 0 <= i < j < |keys| && keys[i] == a && keys[j] == b;
    var n := |keys| - 1;
    var r := Remove(keys[..n], key);
    if j < n {
      assert keys[..n][i] == a && keys[..n][j] == b;
      RemoveKeepsBefore(keys[..n], a, b, key);
      var x, y :| 0 <= x < y < |r| && r[x] == a && r[y] == b;
      assert Remove(keys, key)[x] == a && Remove(keys, key)[y] == b;
    } else {
      assert keys[..n][i] == a && a in keys[..n];
      assert a in r;
      var x :| 0 <= x < |r| && r[x] == a;
      assert Remove(keys, key)[x] == a && Remove(keys, key)[|r|] == b;
    }
  }

  lemma StepKeepsBefore<K(!new)>(keys: seq<K>, a: K, b: K, op: Op<K>)
    requires Before(keys, a, b) && op.key != a && op.key != b
    ensures Before(OrderStep(keys, op), a, b)
  {
    RemoveKeepsBefore(keys, a, b, op.key);
    var kept := Remove(keys, op.key);
    var x, y :| 0 <= x < y < |kept| && kept[x] == a && kept[y] == b;
    assert (kept + [op.key])[x] == a && (kept + [op.key])[y] == b;
    var i, j :| 0 <= i < j < |keys| && keys[i] == a && keys[j] == b;
    assert (keys + [op.key])[i] == a && (keys + [op.key])[j] == b;
  }

  lemma OneMoreKeepsBefore<K(!new)>(keys: seq<K>, ops: seq<Op<K>>, a: K, b: K)
    requires ops != [] && Before(Order(keys, ops[..|ops| - 1]), a, b)
    requires ops[|ops| - 1].key != a && ops[|ops| - 1].key != b
    ensures Before(Order(keys, ops), a, b)
  {
    StepKeepsBefore(Order(keys, ops[..|ops| - 1]), a, b, ops[|ops| - 1]);
  }

  lemma LastComesAfterMoved<K(!new)>(keys: seq<K>, ops: seq<Op<K>>, i: nat)
    requires Distinct(ops) && i < |ops| - 1 && ops[i].mode.Move?
    requires ops[|ops| - 1].mode.Stay? && ops[|ops| - 1].key !in keys
    ensures Before(Order(keys, ops), ops[i].key, ops[|ops| - 1].key)
  {
    var n := |ops| - 1;
    DistinctFromLast(ops);
    OrderMembers(keys, ops[..n], i);
    OrderKeeps(keys, ops[..n], ops[n].key);
    AddedLast(Order(keys, ops[..n]), ops[i].key, ops[n].key);
  }

  /** A key that is new and stays comes after a key that was moved before. */
  lemma {:induction false} NewComesAfterMoved<K(!new)>(keys: seq<K>, ops: seq<Op<K>>, i: nat, j: nat)
    requires Distinct(ops) && i < j < |ops| && ops[i].mode.Move? && ops[j].mode.Stay? && ops[j].key !in keys
    ensures Before(Order(keys, ops), ops[i].key, ops[j].key)
  {
    var n := |ops| - 1;
    if j < n {
      DistinctFromLast(ops);
      assert ops[..n][i] == ops[i] && ops[..n][j] == ops[j];
      NewComesAfterMoved(keys, ops[..n], i, j);
      OneMoreKeepsBefore(keys, ops, ops[i].key, ops[j].key);
    } else {
      LastComesAfterMoved(keys, ops, i);
    }
  }

  lemma DistinctFromLast<K(!new)>(ops: seq<Op<K>>)
    requires Distinct(ops) && ops != []
    ensures var n := |ops| - 1;
            Distinct(ops[..n]) && forall i :: 0 <= i < n ==> ops[..n][i] == ops[i] && ops[i].key != ops[n].key
  {
  }

  lemma AddedLast<K(!new)>(keys: seq<K>, a: K, b: K)
    requires a in keys
    ensures Before(keys + [b], a, b)
  {
    var x :| 0 <= x < |keys| && keys[x] == a;
    assert (keys + [b])[x] == a && (keys + [b])[|keys|] == b;
  }

  lemma UniqueIndex<K(!new)>(keys: seq<K>, i: nat, j: nat)
    requires Unique(keys) && i < |keys| && j < |keys| && keys[i] == keys[j]
    ensures i == j
  {
  }

  lemma TailIndex<K(!new)>(keys: seq<K>, n: nat, j: nat)
    requires n <= j < |keys|
    ensures keys[n..][j - n] == keys[j] && keys[j] in keys[n..]
  {
  }

  lemma AfterMovedIsMoved<K(!new)>(keys: seq<K>, moved: seq<K>, a: K, b: K)
    requires Unique(keys) && EndsWithKeys(keys, moved) && Before(keys, a, b) && a in moved
    ensures b in moved
  {
    var i, j :| 0 <= i < j < |keys| && keys[i] == a && keys[j] == b;
    var x :| 0 <= x < |moved| && moved[x] == a;
    var n := |keys| - |moved|;
    TailIndex(keys, n, n + x);
    UniqueIndex(keys, i, n + x);
    TailIndex(keys, n, j);
  }

  /** Doing the edits a second time changes the order exactly when a key that stays is new after one that moves. */
  lemma AgainChangesNothingIff<K(!new)>(keys: seq<K>, ops: seq<Op<K>>)
    requires Unique(keys) && Distinct(ops)
    ensures Order(Order(keys, ops), ops) == Order(keys, ops) <==> Settles(keys, ops)
  {
    if Settles(keys, ops) {
      MovedAreLast(keys, ops);
      AgainIsSame(keys, ops);
    } else {
      AgainIsDifferent(keys, ops);
    }
  }

  lemma AgainIsDifferent<K(!new)>(keys: seq<K>, ops: seq<Op<K>>)
    requires Unique(keys) && Distinct(ops) && !Settles(keys, ops)
    ensures Order(Order(keys, ops), ops) != Order(keys, ops)
  {
    var after := Order(keys, ops);
    var i, j :| 0 <= i < j < |ops| && ops[i].mode.Move? && ops[j].mode.Stay? && ops[j].key !in keys;
    SettledAfterwards(keys, ops);
    MovedAreLast(after, ops);
    OrderKeepsUnique(keys, ops);
    NewComesAfterMoved(keys, ops, i, j);
    assert ops[i] == Op(ops[i].key, Move) && ops[j].key !in Moved(ops);
    if Order(after, ops) == after {
      AfterMovedIsMoved(after, Moved(ops), ops[i].key, ops[j].key);
    }
  }

  /** After the edits every key that stays is there, so from then on the edits change nothing. */
  lemma SettledAfterwards<K(!new)>(keys: seq<K>, ops: seq<Op<K>>)
    requires Distinct(ops)
    ensures Settles(Order(keys, ops), ops)
  {
    forall j | 0 <= j < |ops| && ops[j].mode.Stay? ensures ops[j].key in Order(keys, ops) {
      OrderMembers(keys, ops, j);
    }
  }

  // ----- Edits that change nothing -----

  /** Edits leave the order as it is exactly if the moved keys are at the back already, the keys that stay are there
      and the removed ones are not. */
  lemma OrderIsSameIff<K(!new)>(keys: seq<K>, ops: seq<Op<K>>)
    requires Unique(keys) && Distinct(ops)
    ensures Order(keys, ops) == keys <==> EndsWithKeys(keys, Moved(ops)) && HasKeysOf(keys, ops)
  {
    if Order(keys, ops) == keys {
      KeysAfterwards(keys, ops);
      MovedAreLast(keys, ops);
    } else if EndsWithKeys(keys, Moved(ops)) && HasKeysOf(keys, ops) {
      LastIsSame(keys, ops);
    }
  }

  lemma OneOp<K(!new)>(keys: seq<K>, op: Op<K>)
    ensures Order(keys, [op]) == OrderStep(keys, op) && Distinct([op])
    ensures Moved([op]) == if op.mode.Move? then [op.key] else []
  {
    assert [op][..0] == [];
  }

  lemma OneOpIsSameIff<K(!new)>(keys: seq<K>, op: Op<K>)
    requires Unique(keys) && !op.mode.Gone?
    ensures OrderStep(keys, op) == keys <==> op.key in keys && (op.mode.Move? ==> EndsWithKeys(keys, [op.key]))
  {
    OneOp(keys, op);
    OrderIsSameIff(keys, [op]);
    if op.mode.Stay? {
      assert keys[|keys|..] == [];
    }
  }
}
