/** The output of `git check-attr -z`: triples of path, attribute and value, each field ended by a NUL byte. */
module GitOutput {
  import opened Wrappers
  import opened Seqs
  import opened Splitting

  type Bytes = seq<Byte>

  const NUL: Byte := 0
  const SLASH: Byte := 0x2F
  const DOT: Bytes := [0x2E]
  const DOT_DOT: Bytes := [0x2E, 0x2E]
  const FILTER: Bytes := [0x66, 0x69, 0x6C, 0x74, 0x65, 0x72]
  const LFS: Bytes := [0x6C, 0x66, 0x73]

  datatype GitPathError = MalformedAttributeOutput | PathOutsideWorktree

  // ----- Paths -----

  /** What `Path::components` yields on Unix. */
  datatype Component = RootDir | CurDir | ParentDir | Normal(name: Bytes)

  /** The components of the pieces between slashes; a dot counts only at the very start. */
  function PieceComponents(pieces: seq<Bytes>, first: bool): seq<Component> {
    if pieces == [] then []
    else
      var rest := PieceComponents(pieces[1..], false);
      if pieces[0] == [] || (pieces[0] == DOT && !first) then rest
      else if pieces[0] == DOT then [CurDir] + rest
      else if pieces[0] == DOT_DOT then [ParentDir] + rest
      else [Normal(pieces[0])] + rest
  }

  predicate IsAbsolute(path: Bytes) { path != [] && path[0] == SLASH }

  function Components(path: Bytes): seq<Component> {
    if IsAbsolute(path) then [RootDir] + PieceComponents(Split(path, SLASH), false)
    else PieceComponents(Split(path, SLASH), true)
  }

  predicate AllNormal(components: seq<Component>) {
    forall i :: 0 <= i < |components| ==> components[i].Normal?
  }

  /** `safe_git_relative_path`. */
  function SafeRelativePath(path: Bytes): Result<Bytes, GitPathError> {
    if !IsAbsolute(path) && Components(path) != [] && AllNormal(Components(path)) then Success(path)
    else Failure(PathOutsideWorktree)
  }

  /** A path stays inside: its first piece names something and no piece goes up. */
  predicate Contained(path: Bytes) {
    var pieces := Split(path, SLASH);
    pieces[0] != [] && pieces[0] != DOT && forall i :: 0 <= i < |pieces| ==> pieces[i] != DOT_DOT
  }

  lemma {:induction false} NormalPieces(pieces: seq<Bytes>)
    ensures AllNormal(PieceComponents(pieces, false)) <==> forall i :: 0 <= i < |pieces| ==> pieces[i] != DOT_DOT
  {
    if pieces != [] {
      var rest := PieceComponents(pieces[1..], false);
      NormalPieces(pieces[1..]);
      assert forall i :: 1 <= i < |pieces| ==> pieces[i] == pieces[1..][i - 1];
      var all := PieceComponents(pieces, false);
      if all != rest {
        assert all[0] == (if pieces[0] == DOT_DOT then ParentDir else Normal(pieces[0])) && all[1..] == rest;
        assert AllNormal(all) <==> all[0].Normal? && AllNormal(all[1..]);
      }
    }
  }

  lemma AbsoluteStartsEmpty(path: Bytes)
    ensures IsAbsolute(path) ==> Split(path, SLASH)[0] == []
    ensures Split(path, SLASH)[0] == [] ==> IsAbsolute(path) || path == []
  {
  }

  /** Exactly the contained paths are safe, and they are returned as they are. */
  lemma SafeIffContained(path: Bytes)
    ensures SafeRelativePath(path) == if Contained(path) then Success(path) else Failure(PathOutsideWorktree)
  {
    var pieces := Split(path, SLASH);
    AbsoluteStartsEmpty(path);
    NormalPieces(pieces[1..]);
    var rest, all := PieceComponents(pieces[1..], false), PieceComponents(pieces, true);
    assert forall i :: 1 <= i < |pieces| ==> pieces[i] == pieces[1..][i - 1];
    if pieces[0] != [] {
      assert all[1..] == rest;
      assert AllNormal(all) <==> all[0].Normal? && AllNormal(all[1..]);
    } else if path == [] {
      assert all == [];
    }
  }

  /** Following the pieces from a directory, with `..` going up. */
  function Follow(directory: seq<Bytes>, pieces: seq<Bytes>): seq<Bytes>
    decreases pieces
  {
    if pieces == [] then directory
    else if pieces[0] == [] || pieces[0] == DOT then Follow(directory, pieces[1..])
    else if pieces[0] == DOT_DOT then Follow(if directory == [] then [] else directory[..|directory| - 1], pieces[1..])
    else Follow(directory + [pieces[0]], pieces[1..])
  }

  lemma {:induction false} FollowGoesDown(directory: seq<Bytes>, pieces: seq<Bytes>)
    requires forall i :: 0 <= i < |pieces| ==> pieces[i] != DOT_DOT
    ensures directory <= Follow(directory, pieces)
    decreases pieces
  {
    if pieces != [] {
      FollowGoesDown(directory, pieces[1..]);
      FollowGoesDown(directory + [pieces[0]], pieces[1..]);
    }
  }

  /** A safe path leads strictly below any directory it is followed from. */
  lemma SafePathStaysBelow(directory: seq<Bytes>, path: Bytes)
    requires SafeRelativePath(path).Success?
    ensures directory < Follow(directory, Split(path, SLASH))
  {
    SafeIffContained(path);
    var pieces := Split(path, SLASH);
    FollowGoesDown(directory + [pieces[0]], pieces[1..]);
    assert directory < directory + [pieces[0]];
  }

  // ----- Triples -----

  function Prepend(path: Bytes, r: Result<seq<Bytes>, GitPathError>): Result<seq<Bytes>, GitPathError> {
    match r case Success(paths) => Success([path] + paths) case Failure(e) => Failure(e)
  }

  /** The fields, taken three at a time; an empty field ends them if it is the last. */
  function ParseFields(fields: seq<Bytes>): Result<seq<Bytes>, GitPathError> {
    if fields == [] || fields == [[]] then Success([])
    else if fields[0] == [] || |fields| < 3 then Failure(MalformedAttributeOutput)
    else if fields[1] == FILTER && fields[2] == LFS then
      match SafeRelativePath(fields[0])
      case Failure(e) => Failure(e)
      case Success(path) => Prepend(path, ParseFields(fields[3..]))
    else ParseFields(fields[3..])
  }

  function After(paths: seq<Bytes>, r: Result<seq<Bytes>, GitPathError>): Result<seq<Bytes>, GitPathError> {
    match r case Success(more) => Success(paths + more) case Failure(e) => Failure(e)
  }

  lemma AfterPrepend(paths: seq<Bytes>, path: Bytes, r: Result<seq<Bytes>, GitPathError>)
    ensures After(paths, Prepend(path, r)) == After(paths + [path], r)
  {
    if r.Success? {
      assert paths + ([path] + r.value) == paths + [path] + r.value;
    }
  }

  /** `parse_lfs_filter_attribute_paths`. */
  method ParseLfsFilterAttributePaths(stdout: Bytes) returns (r: Result<seq<Bytes>, GitPathError>)
    ensures r == ParseFields(Split(stdout, NUL))
  {
    var paths: seq<Bytes> := [];
    var fields := Split(stdout, NUL);
    ghost var whole := ParseFields(fields);
    assert After([], whole) == whole by { if whole.Success? { assert [] + whole.value == whole.value; } }
    while fields != []
      invariant whole == After(paths, ParseFields(fields))
      decreases |fields|
    {
      var relativePath := fields[0];
      fields := fields[1..];
      if relativePath == [] {
        if fields == [] {
          break;
        }
        return Failure(MalformedAttributeOutput);
      }
      if fields == [] { return Failure(MalformedAttributeOutput); }
      var attribute := fields[0];
      fields := fields[1..];
      if fields == [] { return Failure(MalformedAttributeOutput); }
      var value := fields[0];
      fields := fields[1..];
      if attribute == FILTER && value == LFS {
        var path := SafeRelativePath(relativePath);
        if path.Failure? { return Failure(path.error); }
        AfterPrepend(paths, path.value, ParseFields(fields));
        paths := paths + [path.value];
      }
    }
    assert paths + [] == paths;
    return Success(paths);
  }

  // ----- The stream of a list of triples -----

  datatype Triple = Triple(path: Bytes, attribute: Bytes, value: Bytes)

  /** A triple that the format can carry. */
  predicate Carried(t: Triple) { t.path != [] && NUL !in t.path && NUL !in t.attribute && NUL !in t.value }

  predicate AllCarried(ts: seq<Triple>) { forall i :: 0 <= i < |ts| ==> Carried(ts[i]) }

  function Encoded(ts: seq<Triple>): Bytes {
    if ts == [] then []
    else ts[0].path + [NUL] + (ts[0].attribute + [NUL] + (ts[0].value + [NUL] + Encoded(ts[1..])))
  }

  function FieldsOf(ts: seq<Triple>): seq<Bytes> {
    if ts == [] then [] else [ts[0].path, ts[0].attribute, ts[0].value] + FieldsOf(ts[1..])
  }

  /** The paths marked `filter=lfs`, in order, unless one of them is not contained. */
  function Selected(ts: seq<Triple>): Result<seq<Bytes>, GitPathError> {
    if ts == [] then Success([])
    else if ts[0].attribute == FILTER && ts[0].value == LFS then
      if Contained(ts[0].path) then Prepend(ts[0].path, Selected(ts[1..])) else Failure(PathOutsideWorktree)
    else Selected(ts[1..])
  }

  lemma {:induction false} EncodedSplits(ts: seq<Triple>)
    requires AllCarried(ts)
    ensures Split(Encoded(ts), NUL) == FieldsOf(ts) + [[]]
  {
    if ts == [] {
      assert Encoded(ts) == [];
    } else {
      var t, rest := ts[0], Encoded(ts[1..]);
      EncodedSplits(ts[1..]);
      SplitHead(t.value, NUL, rest);
      SplitHead(t.attribute, NUL, t.value + [NUL] + rest);
      SplitHead(t.path, NUL, t.attribute + [NUL] + (t.value + [NUL] + rest));
      ThreeMore(t.path, t.attribute, t.value, FieldsOf(ts[1..]), [[]]);
    }
  }

  lemma ThreeMore<T>(a: T, b: T, c: T, middle: seq<T>, end: seq<T>)
    ensures [a] + ([b] + ([c] + (middle + end))) == [a, b, c] + middle + end
  {
  }

  lemma {:induction false} FieldsParse(ts: seq<Triple>, end: seq<Bytes>)
    requires AllCarried(ts) && (end == [] || end == [[]])
    ensures ParseFields(FieldsOf(ts) + end) == Selected(ts)
  {
    if ts == [] {
      assert FieldsOf(ts) + end == end;
    } else {
      FieldsParse(ts[1..], end);
      var fields := FieldsOf(ts) + end;
      assert fields[3..] == FieldsOf(ts[1..]) + end;
      assert Carried(ts[0]);
      SafeIffContained(ts[0].path);
    }
  }

  /** Parsing the stream of any carried triples yields exactly the selected paths, or fails if one of them is not
      contained; the last NUL may be missing. */
  lemma StreamParses(ts: seq<Triple>)
    requires AllCarried(ts)
    ensures ParseFields(Split(Encoded(ts), NUL)) == Selected(ts)
    ensures ts != [] ==> Encoded(ts) != [] && ParseFields(Split(WithoutLast(Encoded(ts)), NUL)) == Selected(ts)
  {
    EncodedSplits(ts);
    FieldsParse(ts, [[]]);
    FieldsParse(ts, []);
    assert FieldsOf(ts) + [] == FieldsOf(ts);
    if ts != [] {
      EndsWithNul(ts);
      SplitWithoutLast(Encoded(ts), NUL, FieldsOf(ts));
    }
  }

  function WithoutLast<T>(s: seq<T>): seq<T>
    requires s != []
  {
    s[..|s| - 1]
  }

  lemma {:induction false} EndsWithNul(ts: seq<Triple>)
    requires ts != []
    ensures Encoded(ts) != [] && Encoded(ts)[|Encoded(ts)| - 1] == NUL
  {
    if |ts| > 1 { EndsWithNul(ts[1..]); }
  }

  lemma SplitWithoutLast<T>(s: seq<T>, sep: T, pieces: seq<seq<T>>)
    requires s != [] && s[|s| - 1] == sep && Split(s, sep) == pieces + [[]]
    ensures Split(WithoutLast(s), sep) == pieces
  {
    var short := WithoutLast(s);
    assert s == short + [sep];
    SplitAppendSeparator(short, sep);
    SameButAppended(Split(short, sep), pieces, []);
  }

  lemma SameButAppended<T>(a: seq<T>, b: seq<T>, last: T)
    requires a + [last] == b + [last]
    ensures a == b
  {
    assert (a + [last])[..|a|] == a && (b + [last])[..|b|] == b;
  }

  lemma SplitAppendBehind<T>(head: seq<T>, rest: seq<T>, sep: T)
    requires sep !in head && Split(rest + [sep], sep) == Split(rest, sep) + [[]]
    ensures Split(head + [sep] + rest + [sep], sep) == Split(head + [sep] + rest, sep) + [[]]
  {
    SplitHead(head, sep, rest);
    SplitHead(head, sep, rest + [sep]);
    ConcatAssociates(head + [sep], rest, [sep]);
    ConcatAssociates([head], Split(rest, sep), [[]]);
  }

  lemma {:induction false} SplitAppendSeparator<T>(s: seq<T>, sep: T)
    ensures Split(s + [sep], sep) == Split(s, sep) + [[]]
  {
    var i := FirstIndex(s, sep);
    if i < |s| {
      SplitAppendSeparator(s[i + 1..], sep);
      SplitAppendBehind(s[..i], s[i + 1..], sep);
      AroundSeparator(s, i);
    } else {
      assert s + [sep] == s + [sep] + [] && sep !in s;
      SplitHead(s, sep, []);
    }
  }

  // ----- Nothing else is accepted -----

  /** The triples of fields that were accepted. */
  function TriplesOf(fields: seq<Bytes>): (ts: seq<Triple>)
    requires ParseFields(fields).Success?
    ensures fields == FieldsOf(ts) || fields == FieldsOf(ts) + [[]]
    ensures forall i :: 0 <= i < |ts| ==> ts[i].path != []
  {
    if fields == [] || fields == [[]] then []
    else
      var ts := [Triple(fields[0], fields[1], fields[2])] + TriplesOf(fields[3..]);
      assert fields == [fields[0], fields[1], fields[2]] + fields[3..];
      ts
  }

  lemma {:induction false} FieldsAreCarried(fields: seq<Bytes>)
    requires ParseFields(fields).Success? && forall i :: 0 <= i < |fields| ==> NUL !in fields[i]
    ensures AllCarried(TriplesOf(fields))
  {
    if fields != [] && fields != [[]] {
      FieldsAreCarried(fields[3..]);
      assert Carried(TriplesOf(fields)[0]);
    }
  }

  /** Every accepted stream is the stream of carried triples, with or without its last NUL, whose selected paths
      are all contained; what is returned are those paths. */
  lemma AcceptedIsEncoded(stdout: Bytes)
    requires ParseFields(Split(stdout, NUL)).Success?
    ensures var ts := TriplesOf(Split(stdout, NUL));
            AllCarried(ts) && Selected(ts) == ParseFields(Split(stdout, NUL))
            && (stdout == Encoded(ts) || stdout + [NUL] == Encoded(ts))
  {
    var fields := Split(stdout, NUL);
    var ts := TriplesOf(fields);
    FieldsAreCarried(fields);
    EncodedSplits(ts);
    JoinOfSplit(stdout, NUL);
    JoinOfSplit(Encoded(ts), NUL);
    FieldsParse(ts, [[]]);
    FieldsParse(ts, []);
    assert FieldsOf(ts) + [] == FieldsOf(ts);
    if fields == FieldsOf(ts) {
      SplitAppendSeparator(stdout, NUL);
      JoinOfSplit(stdout + [NUL], NUL);
    }
  }

  /** An empty path that is not the last field is always rejected. */
  lemma {:induction false} EmptyPathIsRejected(fields: seq<Bytes>, k: nat)
    requires 3 * k < |fields| - 1 && fields[3 * k] == []
    ensures ParseFields(fields).Failure?
  {
    if k > 0 && |fields| >= 3 {
      assert fields[3..][3 * (k - 1)] == fields[3 * k];
      EmptyPathIsRejected(fields[3..], k - 1);
    }
  }
}
