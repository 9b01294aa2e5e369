/** Git LFS object identifiers and pointer files: the parser, the printer and the extension map. */
module LfsPointer {
  import opened Wrappers
  import opened Text
  import opened Decimals
  import opened LineText

  const POINTER_VERSION := "https://git-lfs.github.com/spec/v1"
  const VERSION_ALIASES := ["http://git-media.io/v/2", "https://hawser.github.com/spec/v1", POINTER_VERSION]
  const SIZE_CUTOFF := 1024
  const SHA256_PREFIX := "sha256:"
  // The SHA-256 digest of no bytes, in four parts of sixteen digits.
  const EMPTY_SHA256 := "e3b0c44298fc1c14" + "9afbf4c8996fb924" + "27ae41e4649b934c" + "a495991b7852b855"

  datatype ObjectError =
    | BlankOid
    | UnsupportedAlgorithm(algorithm: string)
    | InvalidSha256Length(actual: nat)
    | InvalidSha256Hex(index: nat)
    | NonCanonicalSha256Hex(index: nat)
    | MissingVersion
    | InvalidVersion(version: string)
    | MissingOid
    | OidMissingPrefix(oid: string)
    | MissingSize
    | InvalidSize(value: string)
    | UnexpectedLine(line: string)
    | InvalidExtensionKey(key: string)
    | InvalidExtensionValue(key: string)
    | DuplicatePriority(priority: nat)
    | TooLarge(size: nat)

  // ----- Object identifiers -----

  predicate IsLowerHex(c: char) { '0' <= c <= '9' || 'a' <= c <= 'f' }

  predicate IsHex(c: char) { IsLowerHex(c) || 'A' <= c <= 'F' }

  predicate IsCanonicalHex(s: string) {
    |s| == 64 && forall i :: 0 <= i < |s| ==> IsLowerHex(s[i])
  }

  /** A validated SHA-256 object identifier. */
  type Oid = s: string | IsCanonicalHex(s) witness seq(64, _ => '0')

  /** Byte offset of the first character that `ok` rejects. */
  function FirstBad(s: string, ok: char -> bool): (r: Option<nat>)
    ensures r.None? <==> forall i :: 0 <= i < |s| ==> ok(s[i])
  {
    if s == "" then None
    else if !ok(s[0]) then Some(0)
    else
      match FirstBad(s[1..], ok)
      case None => None
      case Some(i) => Some(CharLen(s[0]) + i)
  }

  function OidFromHex(hex: string): (r: Result<Oid, ObjectError>)
    ensures r.Success? <==> ByteLen(hex) == 64 && forall i :: 0 <= i < |hex| ==> IsHex(hex[i])
    ensures r.Success? ==> |r.value| == |hex| && forall i :: 0 <= i < |hex| ==> r.value[i] == ToLower(hex[i])
  {
    if ByteLen(hex) != 64 then Failure(InvalidSha256Length(ByteLen(hex)))
    else
      match FirstBad(hex, IsHex)
      case Some(i) => Failure(InvalidSha256Hex(i))
      case None =>
        ByteLenAscii(hex);
        Success(seq(|hex|, i requires 0 <= i < |hex| => ToLower(hex[i])))
  }

  lemma HexLength(s: string)
    requires forall i :: 0 <= i < |s| ==> IsHex(s[i])
    ensures ByteLen(s) == |s|
  {
    ByteLenAscii(s);
  }

  function OidFromCanonicalHex(hex: string): (r: Result<Oid, ObjectError>)
    ensures r.Success? <==> ByteLen(hex) == 64 && forall i :: 0 <= i < |hex| ==> IsLowerHex(hex[i])
    ensures r.Success? ==> r.value == hex
  {
    if ByteLen(hex) != 64 then Failure(InvalidSha256Length(ByteLen(hex)))
    else
      match FirstBad(hex, IsLowerHex)
      case Some(i) => Failure(NonCanonicalSha256Hex(i))
      case None => HexLength(hex); Success(hex)
  }

  /** `LfsOid::new`: either spelling, either letter case, surrounding white space allowed. */
  function NewOid(value: string): Result<Oid, ObjectError> {
    var trimmed := Trim(value);
    if trimmed == "" then Failure(BlankOid) else OidOf(SplitOnce(trimmed, ':'), trimmed)
  }

  function OidOf(parts: Option<(string, string)>, whole: string): Result<Oid, ObjectError> {
    match parts
    case None => OidFromHex(whole)
    case Some((algorithm, hex)) =>
      if algorithm == "sha256" then OidFromHex(hex) else Failure(UnsupportedAlgorithm(algorithm))
  }

  function PointerOid(oid: Oid): string { SHA256_PREFIX + oid }

  lemma PlainOidReads(oid: Oid)
    ensures NewOid(oid) == Success(oid)
  {
    HexLength(oid);
    TrimIsIdentity(oid);
    assert OidFromHex(oid).value == oid;
    assert ':' !in oid;
  }

  lemma PrefixedOidReads(oid: Oid)
    ensures NewOid(PointerOid(oid)) == Success(oid)
  {
    HexLength(oid);
    assert OidFromHex(oid).value == oid;
    var prefixed := PointerOid(oid);
    assert prefixed == "sha256" + [':'] + oid;
    SplitOnceAt("sha256", ':', oid);
    assert prefixed[0] == 's' && prefixed[|prefixed| - 1] == oid[63];
    TrimIsIdentity(prefixed);
  }

  /** Both spellings of an identifier read back as the identifier itself, so `new` normalises once. */
  lemma NewOidRoundTrip(oid: Oid)
    ensures NewOid(oid) == NewOid(PointerOid(oid)) == Success(oid)
  {
    PlainOidReads(oid);
    PrefixedOidReads(oid);
  }

  /** The strict reader accepts exactly the canonical spellings, and agrees with `new` on them. */
  lemma CanonicalReaderIsStrict(hex: string)
    ensures OidFromCanonicalHex(hex).Success? <==> IsCanonicalHex(hex)
    ensures OidFromCanonicalHex(hex).Success? ==> OidFromCanonicalHex(hex) == NewOid(hex)
  {
    if forall i :: 0 <= i < |hex| ==> IsLowerHex(hex[i]) {
      HexLength(hex);
    }
    if OidFromCanonicalHex(hex).Success? {
      NewOidRoundTrip(hex);
    }
  }

  // ----- Sizes -----

  const U64_LIMIT := 0x1_0000_0000_0000_0000
  type U64 = n: int | 0 <= n < 0x1_0000_0000_0000_0000

  /** `str::parse::<u64>`: one optional plus sign, then decimal digits. */
  function ParseU64(s: string): Option<U64> {
    var digits := if s != "" && s[0] == '+' then s[1..] else s;
    if digits != "" && AllDigits(digits) && DigitsValue(digits) < U64_LIMIT then Some(DigitsValue(digits)) else None
  }

  // ----- Extensions -----

  predicate IsNameStart(c: char) {
    '0' <= c <= '9' || 'a' <= c <= 'z' || 'A' <= c <= 'Z' || c == '_'
  }

  /** ASCII white space; unlike the Unicode property it leaves out the vertical tab. */
  predicate IsAsciiWhitespace(c: char) {
    c == ' ' || c == '\t' || c == '\n' || c == '\r' || c == 12 as char
  }

  predicate HasAsciiWhitespace(s: string) {
    exists i :: 0 <= i < |s| && IsAsciiWhitespace(s[i])
  }

  /** The priority digit of an extension key `ext-<digit>-<name>`. */
  function ExtensionPriority(key: string): (r: Option<nat>)
    ensures r.Some? ==> r.value <= 9 && StartsWith(key, "ext-")
  {
    match StripPrefix(key, "ext-")
    case None => None
    case Some(rest) =>
      match SplitOnce(rest, '-')
      case None => None
      case Some((priority, name)) =>
        if ByteLen(priority) != 1 || name == "" || !IsNameStart(name[0]) || HasAsciiWhitespace(name) then None
        else if IsDigit(priority[0]) then Some((priority[0] - '0') as int) else None
  }

  lemma KeyParts(key: string) returns (priority: char, name: string)
    requires ExtensionPriority(key).Some?
    ensures IsDigit(priority) && name != "" && IsNameStart(name[0]) && !HasAsciiWhitespace(name)
    ensures key == ['e', 'x', 't', '-', priority, '-'] + name
    ensures ExtensionPriority(key) == Some((priority - '0') as int)
  {
    var rest := StripPrefix(key, "ext-").value;
    var parts := SplitOnce(rest, '-').value;
    assert |parts.0| == 1;
    priority, name := parts.0[0], parts.1;
    assert parts.0 == [priority];
    assert key == "ext-" + rest;
  }

  lemma ExtensionKeyReads(priority: char, name: string)
    requires IsDigit(priority) && name != "" && IsNameStart(name[0]) && !HasAsciiWhitespace(name)
    ensures ExtensionPriority(['e', 'x', 't', '-', priority, '-'] + name) == Some((priority - '0') as int)
  {
    var key := ['e', 'x', 't', '-', priority, '-'] + name;
    assert key[..4] == "ext-" && key[4..] == [priority] + ['-'] + name;
    SplitOnceAt([priority], '-', name);
    assert ByteLen([priority]) == 1;
  }

  /** The form of an extension key: `ext-`, a digit, a hyphen, and a name that starts with a letter, a digit or an
      underscore and holds no ASCII white space. */
  predicate IsExtensionKey(key: string) {
    |key| >= 7 && key[..4] == "ext-" && IsDigit(key[4]) && key[5] == '-'
    && IsNameStart(key[6]) && !HasAsciiWhitespace(key[6..])
  }

  /** Exactly the keys of this form have a priority, and it is their digit. */
  lemma ExtensionKeysAreExact(key: string, priority: nat)
    ensures ExtensionPriority(key) == Some(priority) <==> IsExtensionKey(key) && priority == (key[4] - '0') as int
  {
    if ExtensionPriority(key).Some? {
      var digit, name := KeyParts(key);
      assert key[6..] == name && key[6] == name[0] && key[4] == digit && key[..4] == "ext-";
    }
    if IsExtensionKey(key) {
      assert key == ['e', 'x', 't', '-', key[4], '-'] + key[6..];
      ExtensionKeyReads(key[4], key[6..]);
    }
  }

  lemma NoWhitespaceConcat(a: string, b: string)
    requires !HasAsciiWhitespace(a) && !HasAsciiWhitespace(b)
    ensures !HasAsciiWhitespace(a + b)
  {
  }

  /** An extension key holds no white space, so the first space of its line ends it. */
  lemma ExtensionKeyHasNoWhitespace(key: string)
    requires ExtensionPriority(key).Some?
    ensures !HasAsciiWhitespace(key) && |key| >= 6 && key[0] == 'e'
  {
    var priority, name := KeyParts(key);
    NoWhitespaceConcat(['e', 'x', 't', '-', priority, '-'], name);
  }

  predicate IsExtensionValue(value: string) {
    StartsWith(value, SHA256_PREFIX) && IsCanonicalHex(value[|SHA256_PREFIX|..])
  }

  function NormalizeExtensionValue(key: string, value: string): Result<string, ObjectError> {
    if '\r' in value || '\n' in value then Failure(InvalidExtensionValue(key))
    else
      match StripPrefix(value, SHA256_PREFIX)
      case None => Failure(InvalidExtensionValue(key))
      case Some(hex) =>
        match OidFromCanonicalHex(hex)
        case Success(oid) => Success(PointerOid(oid))
        case Failure(_) => Failure(InvalidExtensionValue(key))
  }

  /** Normalising accepts exactly the canonical pointer identifiers and changes none of them. */
  lemma NormalizingIsIdentity(key: string, value: string)
    ensures NormalizeExtensionValue(key, value)
         == if IsExtensionValue(value) then Success(value) else Failure(InvalidExtensionValue(key))
  {
    if StartsWith(value, SHA256_PREFIX) {
      var hex := value[|SHA256_PREFIX|..];
      assert value == SHA256_PREFIX + hex;
      CanonicalReaderIsStrict(hex);
      if IsCanonicalHex(hex) { PointerOidIsOneLine(hex); }
    }
  }

  lemma PointerOidIsOneLine(oid: Oid)
    ensures '\r' !in PointerOid(oid) && '\n' !in PointerOid(oid)
  {
    var value := PointerOid(oid);
    forall i | 0 <= i < |value| ensures value[i] != '\r' && value[i] != '\n' {
      assert i < 7 || value[i] == oid[i - 7];
    }
  }

  /** A `BTreeMap<String, String>`, as its entries in key order. */
  type Entries = seq<(string, string)>

  predicate Sorted(es: Entries) {
    forall i, j :: 0 <= i < j < |es| ==> Less(es[i].0, es[j].0)
  }

  /** `BTreeMap::insert`: replaces the value of an existing key. */
  function Insert(es: Entries, key: string, value: string): Entries {
    if es == [] || Less(key, es[0].0) then [(key, value)] + es
    else if es[0].0 == key then [(key, value)] + es[1..]
    else [es[0]] + Insert(es[1..], key, value)
  }

  /** `insert_extension_record`. */
  function InsertRecord(es: Entries, key: string, value: string): Result<Entries, ObjectError> {
    match ExtensionPriority(key)
    case None => Failure(InvalidExtensionKey(key))
    case Some(priority) =>
      if exists i :: 0 <= i < |es| && es[i].0 != key && ExtensionPriority(es[i].0) == Some(priority)
      then Failure(DuplicatePriority(priority))
      else Success(Insert(es, key, value))
  }

  // ----- Pointers -----

  datatype LfsObject = LfsObject(oid: Oid, size: U64)
  datatype Pointer = Pointer(extensions: Entries, obj: LfsObject)

  function NewPointer(obj: LfsObject): Pointer { Pointer([], obj) }

  function EmptyOid(): Oid {
    assert forall i :: 0 <= i < 16 ==> IsLowerHex("e3b0c44298fc1c14"[i]);
    assert forall i :: 0 <= i < 16 ==> IsLowerHex("9afbf4c8996fb924"[i]);
    assert forall i :: 0 <= i < 16 ==> IsLowerHex("27ae41e4649b934c"[i]);
    assert forall i :: 0 <= i < 16 ==> IsLowerHex("a495991b7852b855"[i]);
    EMPTY_SHA256
  }

  const EMPTY_POINTER := NewPointer(LfsObject(EmptyOid(), 0))

  function InsertExtension(p: Pointer, key: string, value: string): Result<Pointer, ObjectError> {
    if ExtensionPriority(key).None? then Failure(InvalidExtensionKey(key))
    else
      match NormalizeExtensionValue(key, value)
      case Failure(e) => Failure(e)
      case Success(v) =>
        match InsertRecord(p.extensions, key, v)
        case Failure(e) => Failure(e)
        case Success(es) => Success(p.(extensions := es))
  }

  /** A pointer whose extensions are inserted in place. */
  class PointerBuilder {
    var pointer: Pointer

    constructor (obj: LfsObject)
      ensures pointer == NewPointer(obj)
    {
      pointer := NewPointer(obj);
    }

    /** `insert_extension`: on an error the pointer stays as it was. */
    method AddExtension(key: string, value: string) returns (r: Result<(), ObjectError>)
      modifies this
      ensures match InsertExtension(old(pointer), key, value)
              case Success(p) => r == Success(()) && pointer == p
              case Failure(e) => r == Failure(e) && pointer == old(pointer)
    {
      if ExtensionPriority(key).None? { return Failure(InvalidExtensionKey(key)); }
      var normalized := NormalizeExtensionValue(key, value);
      if normalized.Failure? { return Failure(normalized.error); }
      var extensions := InsertRecord(pointer.extensions, key, normalized.value);
      if extensions.Failure? { return Failure(extensions.error); }
      pointer := pointer.(extensions := extensions.value);
      return Success(());
    }
  }

  // ----- Printing -----

  function Line(e: (string, string)): string { e.0 + [' '] + e.1 }

  function Fields(p: Pointer): Entries {
    Insert(Insert(p.extensions, "oid", PointerOid(p.obj.oid)), "size", Decimal(p.obj.size))
  }

  function FieldLines(es: Entries): (r: seq<string>)
    ensures |r| == |es| && forall i :: 0 <= i < |es| ==> r[i] == Line(es[i])
  {
    seq(|es|, i requires 0 <= i < |es| => Line(es[i]))
  }

  /** `to_pointer_file`. */
  function Render(p: Pointer): string {
    if p.obj.size == 0 then ""
    else Terminated(["version " + POINTER_VERSION] + FieldLines(Fields(p)))
  }

  method ToPointerFile(p: Pointer) returns (pointer: string)
    ensures pointer == Render(p)
  {
    if p.obj.size == 0 { return ""; }
    pointer := "version " + POINTER_VERSION + "\n";
    var fields := Insert(p.extensions, "oid", PointerOid(p.obj.oid));
    fields := Insert(fields, "size", Decimal(p.obj.size));
    ghost var lines := ["version " + POINTER_VERSION];
    for i := 0 to |fields|
      invariant pointer == Terminated(lines)
      invariant lines == ["version " + POINTER_VERSION] + FieldLines(fields)[..i]
    {
      TerminatedAppend(lines, Line(fields[i]));
      lines := lines + [Line(fields[i])];
      pointer := pointer + (fields[i].0 + " " + fields[i].1 + "\n");
    }
    assert FieldLines(fields)[..|fields|] == FieldLines(fields);
  }

  // ----- Parsing -----

  function NonBlank(lines: seq<string>): seq<string> {
    if lines == [] then []
    else (if Trim(lines[0]) == "" then [] else [lines[0]]) + NonBlank(lines[1..])
  }

  datatype ParseState = ParseState(previous: Option<string>, extensions: Entries, oid: Option<Oid>, size: Option<U64>)

  function ParseOid(value: string): Result<Oid, ObjectError> {
    match StripPrefix(value, SHA256_PREFIX)
    case None => Failure(OidMissingPrefix(value))
    case Some(hex) => OidFromCanonicalHex(hex)
  }

  function ParseField(st: ParseState, key: string, value: string, line: string): Result<ParseState, ObjectError> {
    if key == "oid" then
      match ParseOid(value)
      case Success(oid) => Success(st.(oid := Some(oid)))
      case Failure(e) => Failure(e)
    else if key == "size" then
      match ParseU64(value)
      case Some(size) => Success(st.(size := Some(size)))
      case None => Failure(InvalidSize(value))
    else if ExtensionPriority(key).Some? then
      match NormalizeExtensionValue(key, value)
      case Failure(e) => Failure(e)
      case Success(v) =>
        match InsertRecord(st.extensions, key, v)
        case Success(es) => Success(st.(extensions := es))
        case Failure(e) => Failure(e)
    else Failure(UnexpectedLine(line))
  }

  function ParseLine(st: ParseState, line: string): Result<ParseState, ObjectError> {
    match SplitOnce(line, ' ')
    case None => Failure(UnexpectedLine(line))
    case Some((key, value)) =>
      if st.previous.Some? && !Less(st.previous.value, key) then Failure(UnexpectedLine(line))
      else ParseField(st.(previous := Some(key)), key, value, line)
  }

  const START := ParseState(None, [], None, None)

  function ParseLines(lines: seq<string>): Result<ParseState, ObjectError> {
    Fold(ParseLine, START, lines)
  }

  function Finish(st: ParseState): Result<Pointer, ObjectError> {
    if st.oid.None? then Failure(MissingOid)
    else if st.size.None? then Failure(MissingSize)
    else Success(Pointer(st.extensions, LfsObject(st.oid.value, st.size.value)))
  }

  function ParseVersionAndFields(lines: seq<string>): Result<Pointer, ObjectError> {
    if lines == [] then Failure(MissingVersion)
    else
      match StripPrefix(lines[0], "version ")
      case None => Failure(UnexpectedLine(lines[0]))
      case Some(version) =>
        if version !in VERSION_ALIASES then Failure(InvalidVersion(version))
        else
          match ParseLines(lines[1..])
          case Failure(e) => Failure(e)
          case Success(st) => Finish(st)
  }

  function Parse(contents: string): Result<Pointer, ObjectError> {
    if SIZE_CUTOFF <= ByteLen(contents) then Failure(TooLarge(ByteLen(contents)))
    else if contents == "" then Success(EMPTY_POINTER)
    else ParseVersionAndFields(NonBlank(Lines(contents)))
  }

  method ParsePointer(contents: string) returns (r: Result<Pointer, ObjectError>)
    ensures r == Parse(contents)
  {
    if SIZE_CUTOFF <= ByteLen(contents) { return Failure(TooLarge(ByteLen(contents))); }
    if contents == "" { return Success(EMPTY_POINTER); }
    var lines := NonBlank(Lines(contents));
    if lines == [] { return Failure(MissingVersion); }
    var version := StripPrefix(lines[0], "version ");
    if version.None? { return Failure(UnexpectedLine(lines[0])); }
    if version.value !in VERSION_ALIASES { return Failure(InvalidVersion(version.value)); }

    var previousKey: Option<string> := None;
    var extensions: Entries := [];
    var oid: Option<Oid> := None;
    var size: Option<U64> := None;
    var rest := lines[1..];
    for i := 0 to |rest|
      invariant ParseLines(rest[..i]) == Success(ParseState(previousKey, extensions, oid, size))
    {
      var line := rest[i];
      FoldNext(ParseLine, START, rest, i);
      var split := SplitOnce(line, ' ');
      if split.None? { return Failure(UnexpectedLine(line)); }
      var (key, value) := split.value;
      if previousKey.Some? && !Less(previousKey.value, key) { return Failure(UnexpectedLine(line)); }
      previousKey := Some(key);
      if key == "oid" {
        var parsed := ParseOid(value);
        if parsed.Failure? { return Failure(parsed.error); }
        oid := Some(parsed.value);
      } else if key == "size" {
        var parsed := ParseU64(value);
        if parsed.None? { return Failure(InvalidSize(value)); }
        size := Some(parsed.value);
      } else if ExtensionPriority(key).Some? {
        var normalized := NormalizeExtensionValue(key, value);
        if normalized.Failure? { return Failure(normalized.error); }
        var inserted := InsertRecord(extensions, key, normalized.value);
        if inserted.Failure? { return Failure(inserted.error); }
        extensions := inserted.value;
      } else {
        return Failure(UnexpectedLine(line));
      }
    }
    assert rest[..|rest|] == rest;
    if oid.None? { return Failure(MissingOid); }
    if size.None? { return Failure(MissingSize); }
    return Success(Pointer(extensions, LfsObject(oid.value, size.value)));
  }
}
