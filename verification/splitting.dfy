/** Splitting sequences at a separator, and the inverse. */
module Splitting {
  import opened Wrappers

  /** Index of the first separator, or the length of the sequence. */
  function FirstIndex<T(==)>(s: seq<T>, sep: T): (i: nat)
    ensures i <= |s|
    ensures forall j :: 0 <= j < i ==> s[j] != sep
    ensures i < |s| ==> s[i] == sep
  {
    if s == [] || s[0] == sep then 0 else FirstIndex(s[1..], sep) + 1
  }

  lemma FirstIndexAt<T>(piece: seq<T>, sep: T, rest: seq<T>)
    requires sep !in piece
    ensures FirstIndex(piece + [sep] + rest, sep) == |piece|
    ensures FirstIndex(piece, sep) == |piece|
  {
    var s := piece + [sep] + rest;
    assert forall j :: 0 <= j < |piece| ==> s[j] == piece[j];
    assert s[|piece|] == sep;
  }

  /** The pieces between separators; there is always at least one. */
  function Split<T(==)>(s: seq<T>, sep: T): (r: seq<seq<T>>)
    ensures r != []
    ensures forall i :: 0 <= i < |r| ==> sep !in r[i]
  {
    var i := FirstIndex(s, sep);
    if i < |s| then [s[..i]] + Split(s[i + 1..], sep) else [s]
  }

  function Join<T>(pieces: seq<seq<T>>, sep: T): seq<T> {
    if pieces == [] then []
    else if |pieces| == 1 then pieces[0]
    else pieces[0] + [sep] + Join(pieces[1..], sep)
  }

  lemma JoinPrepend<T>(first: seq<T>, rest: seq<seq<T>>, sep: T)
    requires rest != []
    ensures Join([first] + rest, sep) == first + [sep] + Join(rest, sep)
  {
    assert ([first] + rest)[1..] == rest;
  }

  lemma AroundSeparator<T>(s: seq<T>, i: nat)
    requires i < |s|
    ensures s == s[..i] + [s[i]] + s[i + 1..]
  {
  }

  /** Joining undoes splitting. */
  lemma {:induction false} JoinOfSplit<T>(s: seq<T>, sep: T)
    ensures Join(Split(s, sep), sep) == s
  {
    var i := FirstIndex(s, sep);
    if i < |s| {
      JoinOfSplit(s[i + 1..], sep);
      JoinPrepend(s[..i], Split(s[i + 1..], sep), sep);
      AroundSeparator(s, i);
    }
  }

  lemma SplitHead<T>(piece: seq<T>, sep: T, rest: seq<T>)
    requires sep !in piece
    ensures Split(piece + [sep] + rest, sep) == [piece] + Split(rest, sep)
    ensures Split(piece, sep) == [piece]
  {
    FirstIndexAt(piece, sep, rest);
    var s := piece + [sep] + rest;
    assert s[..|piece|] == piece && s[|piece| + 1..] == rest;
  }

  /** Splitting undoes joining, when no piece holds a separator. */
  lemma {:induction false} SplitOfJoin<T>(pieces: seq<seq<T>>, sep: T)
    requires pieces != [] && forall i :: 0 <= i < |pieces| ==> sep !in pieces[i]
    ensures Split(Join(pieces, sep), sep) == pieces
  {
    if |pieces| == 1 {
      SplitHead(pieces[0], sep, []);
    } else {
      SplitOfJoin(pieces[1..], sep);
      SplitHead(pieces[0], sep, Join(pieces[1..], sep));
    }
  }

  /** The text before and after the last separator. */
  function SplitLast<T(==)>(s: seq<T>, sep: T): (r: Option<(seq<T>, seq<T>)>)
    ensures r.Some? ==> sep !in r.value.1 && s == r.value.0 + [sep] + r.value.1
    ensures r.None? <==> sep !in s
  {
    if s == [] then None
    else
      var n := |s| - 1;
      if s[n] == sep then Some((s[..n], []))
      else
        match SplitLast(s[..n], sep)
        case None => None
        case Some((before, after)) => Some((before, after + [s[n]]))
  }

  lemma {:induction false} SplitLastAt<T>(before: seq<T>, sep: T, after: seq<T>)
    requires sep !in after
    ensures SplitLast(before + [sep] + after, sep) == Some((before, after))
  {
    var s := before + [sep] + after;
    if after == [] {
      assert s[..|s| - 1] == before;
    } else {
      var n := |after| - 1;
      assert s[..|s| - 1] == before + [sep] + after[..n];
      SplitLastAt(before, sep, after[..n]);
      assert after == after[..n] + [after[n]];
    }
  }

  /** Drops the separators at the end. */
  function TrimEndOf<T(==)>(s: seq<T>, sep: T): (r: seq<T>)
    ensures |r| <= |s| && r == s[..|r|]
    ensures r != [] ==> r[|r| - 1] != sep
    ensures forall i :: |r| <= i < |s| ==> s[i] == sep
  {
    if s != [] && s[|s| - 1] == sep then TrimEndOf(s[..|s| - 1], sep) else s
  }

  /** Drops the separators at the start. */
  function TrimStartOf<T(==)>(s: seq<T>, sep: T): (r: seq<T>)
    ensures |r| <= |s| && r == s[|s| - |r|..]
    ensures r != [] ==> r[0] != sep
    ensures forall i :: 0 <= i < |s| - |r| ==> s[i] == sep
  {
    if s != [] && s[0] == sep then TrimStartOf(s[1..], sep) else s
  }

  /** Separators at the end do not matter to trimming. */
  lemma TrimEndAgain<T>(s: seq<T>, sep: T)
    ensures TrimEndOf(s + [sep], sep) == TrimEndOf(s, sep)
  {
    assert (s + [sep])[..|s|] == s;
  }

  lemma Trimmed<T>(s: seq<T>, sep: T)
    requires s != [] ==> s[|s| - 1] != sep
    ensures TrimEndOf(s, sep) == s
  {
  }
}
