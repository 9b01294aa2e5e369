/** How long the canonical form of an accepted pointer text can be. */
module LfsPointerCanonical {
  import opened Wrappers
  import opened Text
  import opened Splitting
  import opened Decimals
  import opened LineText
  import opened LfsPointer
  import opened LfsPointerProofs

  /** Bytes of the lines when each ends with one line feed. */
  function TotalSize(lines: seq<string>): nat {
    if lines == [] then 0 else ByteLen(lines[0]) + 1 + TotalSize(lines[1..])
  }

  lemma {:induction false} TotalSizeAppend(lines: seq<string>, last: string)
    ensures TotalSize(lines + [last]) == TotalSize(lines) + ByteLen(last) + 1
  {
    if lines == [] {
      assert lines + [last] == [last] && [last][1..] == [];
    } else {
      assert (lines + [last])[1..] == lines[1..] + [last];
      TotalSizeAppend(lines[1..], last);
    }
  }

  lemma {:induction false} TerminatedSize(lines: seq<string>)
    ensures ByteLen(Terminated(lines)) == TotalSize(lines)
  {
    if lines != [] {
      TerminatedSize(lines[1..]);
      ByteLenConcat(lines[0] + ['\n'], Terminated(lines[1..]));
      ByteLenConcat(lines[0], ['\n']);
      assert ByteLen(['\n']) == 1;
    }
  }

  lemma StrippingShortens(line: string)
    ensures ByteLen(StripCarriageReturn(line)) <= ByteLen(line)
  {
    var kept := StripCarriageReturn(line);
    assert line == kept + line[|kept|..];
    ByteLenConcat(kept, line[|kept|..]);
  }

  lemma BytesAroundLineFeed(s: string, i: nat)
    requires i < |s| && s[i] == '\n'
    ensures ByteLen(s) == ByteLen(s[..i]) + 1 + ByteLen(s[i + 1..])
  {
    AroundSeparator(s, i);
    LineFeedBetween(s[..i], s[i + 1..]);
  }

  lemma LineFeedBetween(a: string, b: string)
    ensures ByteLen(a + ['\n'] + b) == ByteLen(a) + 1 + ByteLen(b)
  {
    ByteLenConcat(a + ['\n'], b);
    ByteLenConcat(a, ['\n']);
    assert ByteLen(['\n']) == 1;
  }

  lemma TotalSizePrepend(first: string, lines: seq<string>)
    ensures TotalSize([first] + lines) == ByteLen(first) + 1 + TotalSize(lines)
  {
    assert ([first] + lines)[1..] == lines;
  }

  lemma {:induction false} LinesSize(s: string)
    ensures TotalSize(Lines(s)) <= if s == "" then 0 else ByteLen(s) + 1
  {
    if s != "" {
      var i := IndexOf(s, '\n');
      if i < |s| {
        LinesSize(s[i + 1..]);
        StrippingShortens(s[..i]);
        BytesAroundLineFeed(s, i);
        TotalSizePrepend(StripCarriageReturn(s[..i]), Lines(s[i + 1..]));
      } else {
        TotalSizePrepend(s, []);
        assert [s] + [] == [s];
      }
    }
  }

  lemma {:induction false} NonBlankShrinks(lines: seq<string>)
    ensures TotalSize(NonBlank(lines)) <= TotalSize(lines)
  {
    if lines != [] {
      var rest := NonBlank(lines[1..]);
      NonBlankShrinks(lines[1..]);
      TotalSizePrepend(lines[0], rest);
      assert NonBlank(lines) == rest || NonBlank(lines) == [lines[0]] + rest by {
        assert [] + rest == rest;
      }
    }
  }

  /** Splitting a text into lines and dropping blank ones yields at most one byte more than the text has:
      the line feed that the last line may lack. */
  lemma SplittingAddsOneByte(s: string)
    ensures TotalSize(NonBlank(Lines(s))) <= ByteLen(s) + 1
  {
    LinesSize(s);
    NonBlankShrinks(Lines(s));
  }

  // ----- Rendered size of what has been parsed -----

  function EntrySize(e: (string, string)): nat { ByteLen(e.0) + ByteLen(e.1) + 2 }

  function EntriesSize(es: Entries): nat {
    if es == [] then 0 else EntrySize(es[0]) + EntriesSize(es[1..])
  }

  function DecimalSize(n: nat): nat { |Decimal(n)| + 6 }

  /** Rendered bytes of the fields that the parser has read so far. */
  function FieldsSize(st: ParseState): nat {
    EntriesSize(st.extensions) + (if st.oid.Some? then 76 else 0) + (if st.size.Some? then DecimalSize(st.size.value) else 0)
  }

  lemma {:induction false} InsertSize(es: Entries, key: string, value: string)
    ensures EntriesSize(Insert(es, key, value)) <= EntriesSize(es) + EntrySize((key, value))
  {
    if es != [] && !Less(key, es[0].0) && es[0].0 != key {
      InsertSize(es[1..], key, value);
    }
  }

  lemma LineSize(e: (string, string))
    ensures ByteLen(Line(e)) + 1 == EntrySize(e)
  {
    ByteLenConcat(e.0 + [' '], e.1);
    ByteLenConcat(e.0, [' ']);
    assert ByteLen([' ']) == 1;
  }

  lemma PrefixSize()
    ensures ByteLen(SHA256_PREFIX) == 7
  {
    ByteLenAscii(SHA256_PREFIX);
  }

  lemma ParsedOidSize(value: string)
    requires ParseOid(value).Success?
    ensures ByteLen(value) == 71
  {
    var hex := value[|SHA256_PREFIX|..];
    assert value == SHA256_PREFIX + hex;
    ByteLenConcat(SHA256_PREFIX, hex);
    PrefixSize();
  }

  lemma ParsedSizeSize(value: string)
    requires ParseU64(value).Some?
    ensures |Decimal(ParseU64(value).value)| <= ByteLen(value)
  {
    DecimalIsShortest(if value[0] == '+' then value[1..] else value);
  }

  lemma FieldGrowth(st: ParseState, key: string, value: string, line: string)
    requires ParseField(st, key, value, line).Success?
    ensures FieldsSize(ParseField(st, key, value, line).value) <= FieldsSize(st) + EntrySize((key, value))
  {
    if key == "oid" {
      ParsedOidSize(value);
      assert ByteLen("oid") == 3 by { ByteLenAscii("oid"); }
    } else if key == "size" {
      ParsedSizeSize(value);
      assert ByteLen("size") == 4 by { ByteLenAscii("size"); }
    } else {
      NormalizingIsIdentity(key, value);
      InsertSize(st.extensions, key, value);
    }
  }

  lemma LineGrowth(st: ParseState, line: string)
    requires ParseLine(st, line).Success?
    ensures FieldsSize(ParseLine(st, line).value) <= FieldsSize(st) + ByteLen(line) + 1
  {
    var (key, value) := SplitOnce(line, ' ').value;
    assert line == Line((key, value));
    LineSize((key, value));
    FieldGrowth(st.(previous := Some(key)), key, value, line);
  }

  lemma ParsedSize(lines: seq<string>)
    requires ParseLines(lines).Success?
    ensures FieldsSize(ParseLines(lines).value) <= TotalSize(lines)
  {
    forall st, line | ParseLine(st, line).Success?
      ensures FieldsSize(ParseLine(st, line).value) <= FieldsSize(st) + TotalSize([line])
    {
      LineGrowth(st, line);
      TotalSizePrepend(line, []);
      assert [line] + [] == [line];
    }
    forall a, line ensures TotalSize(a + [line]) == TotalSize(a) + TotalSize([line]) {
      TotalSizeAppend(a, line);
      TotalSizeAppend([], line);
      assert [] + [line] == [line];
    }
    FoldGrowth(ParseLine, START, lines, FieldsSize, TotalSize);
  }

  lemma {:induction false} FieldLinesSize(es: Entries)
    ensures TotalSize(FieldLines(es)) == EntriesSize(es)
  {
    if es != [] {
      FieldLinesSize(es[1..]);
      LineSize(es[0]);
      assert FieldLines(es)[1..] == FieldLines(es[1..]);
    }
  }

  lemma RenderedSize(p: Pointer)
    requires Valid(p) && p.obj.size != 0
    ensures ByteLen(Render(p)) == 43 + EntriesSize(p.extensions) + 76 + DecimalSize(p.obj.size)
  {
    RenderIsText(p);
    FieldsAreExtensionsOidSize(p);
    var version := "version " + POINTER_VERSION;
    var oidEntry, sizeEntry := ("oid", PointerOid(p.obj.oid)), ("size", Decimal(p.obj.size));
    var fields := FieldLines(Fields(p));
    assert fields == FieldLines(p.extensions) + [Line(oidEntry)] + [Line(sizeEntry)];
    TerminatedSize([version] + fields);
    assert ([version] + fields)[1..] == fields;
    TotalSizeAppend(FieldLines(p.extensions) + [Line(oidEntry)], Line(sizeEntry));
    TotalSizeAppend(FieldLines(p.extensions), Line(oidEntry));
    FieldLinesSize(p.extensions);
    VersionLineSize();
    OidLineSize(p.obj.oid);
    SizeLineSize(p.obj.size);
  }

  lemma VersionLineSize()
    ensures ByteLen("version " + POINTER_VERSION) == 42
  {
    ByteLenAscii("version " + POINTER_VERSION);
  }

  lemma OidLineSize(oid: Oid)
    ensures ByteLen(Line(("oid", PointerOid(oid)))) == 75
  {
    LineSize(("oid", PointerOid(oid)));
    OidValueIsPlain(oid);
    ByteLenAscii(PointerOid(oid));
    ByteLenAscii("oid");
  }

  lemma SizeLineSize(n: nat)
    ensures ByteLen(Line(("size", Decimal(n)))) == DecimalSize(n) - 1
  {
    LineSize(("size", Decimal(n)));
    ByteLenAscii(Decimal(n));
    ByteLenAscii("size");
  }

  lemma VersionSize(line: string)
    requires StripPrefix(line, "version ").Some? && StripPrefix(line, "version ").value in VERSION_ALIASES
    ensures 31 <= ByteLen(line)
  {
    var version := StripPrefix(line, "version ").value;
    assert line == "version " + version;
    assert version == VERSION_ALIASES[0] || version == VERSION_ALIASES[1] || version == VERSION_ALIASES[2];
    assert 23 <= |version|;
  }

  lemma FinishedSize(st: ParseState)
    requires Finish(st).Success?
    ensures var p := Finish(st).value;
            FieldsSize(st) == EntriesSize(p.extensions) + 76 + DecimalSize(p.obj.size)
  {
  }

  lemma ParsedLinesSize(lines: seq<string>)
    requires ParseVersionAndFields(lines).Success?
    ensures var p := ParseVersionAndFields(lines).value;
            32 + EntriesSize(p.extensions) + 76 + DecimalSize(p.obj.size) <= TotalSize(lines)
  {
    VersionSize(lines[0]);
    ParsedSize(lines[1..]);
    FinishedSize(ParseLines(lines[1..]).value);
  }

  /** The canonical form of an accepted text has at most twelve bytes more: eleven for the oldest version
      alias and one for a missing final line feed. */
  lemma CanonicalFormIsBounded(contents: string)
    requires Parse(contents).Success?
    ensures ByteLen(Render(Parse(contents).value)) <= ByteLen(contents) + 12
  {
    var p := Parse(contents).value;
    ParseYieldsValid(contents);
    if p.obj.size != 0 {
      RenderedSize(p);
      ParsedLinesSize(NonBlank(Lines(contents)));
      SplittingAddsOneByte(contents);
    }
  }

  /** An accepted text of at most 1011 bytes that names a non-empty object has a canonical form that parses to
      an equal pointer and renders to itself. */
  lemma CanonicalFormIsFixed(contents: string)
    requires Parse(contents).Success? && Parse(contents).value.obj.size != 0 && ByteLen(contents) <= 1011
    ensures Parse(Render(Parse(contents).value)) == Parse(contents)
    ensures Render(Parse(Render(Parse(contents).value)).value) == Render(Parse(contents).value)
  {
    CanonicalFormIsBounded(contents);
    ParseYieldsValid(contents);
    PointerRoundTrip(Parse(contents).value);
  }

  // ----- The bound is attained -----

  const OLDEST_VERSION := "http://git-media.io/v/2"

  lemma UnterminatedSize(first: string, middle: seq<string>, next: string, last: string)
    ensures ByteLen(Terminated([first] + middle + [next]) + last)
         == ByteLen(first) + 1 + TotalSize(middle) + ByteLen(next) + 1 + ByteLen(last)
  {
    ByteLenConcat(Terminated([first] + middle + [next]), last);
    TerminatedSize([first] + middle + [next]);
    TotalSizeAppend([first] + middle, next);
    TotalSizePrepend(first, middle);
  }

  lemma OldestTextSize(p: Pointer)
    ensures ByteLen(PointerText(p, OLDEST_VERSION, false)) == 32 + EntriesSize(p.extensions) + 76 + DecimalSize(p.obj.size) - 1
  {
    UnterminatedSize("version " + OLDEST_VERSION, FieldLines(p.extensions), Line(("oid", PointerOid(p.obj.oid))), SizeLineOf(p));
    FieldLinesSize(p.extensions);
    OidLineSize(p.obj.oid);
    SizeLineSize(p.obj.size);
    ByteLenAscii("version " + OLDEST_VERSION);
  }

  /** Every pointer has an accepted text exactly twelve bytes shorter than its rendering, so a rendering of 1024
      to 1035 bytes comes from an accepted text and is itself refused. */
  lemma BoundIsAttained(p: Pointer)
    requires Valid(p) && p.obj.size != 0 && ByteLen(Render(p)) < SIZE_CUTOFF + 12
    ensures var contents := PointerText(p, OLDEST_VERSION, false);
            ByteLen(contents) + 12 == ByteLen(Render(p)) && Parse(contents) == Success(p)
            && (SIZE_CUTOFF <= ByteLen(Render(p)) ==> Parse(Render(Parse(contents).value)) == Failure(TooLarge(ByteLen(Render(p)))))
  {
    RenderedSize(p);
    OldestTextSize(p);
    TextParses(p, OLDEST_VERSION, false);
  }

  function LongName(n: nat): string { seq(n, _ => 'a') }

  function ZeroOid(): Oid { seq(64, _ => '0') }

  /** A pointer with one extension, whose name has `n` letters. */
  function LongPointer(n: nat): Pointer {
    Pointer([("ext-0-" + LongName(n), PointerOid(ZeroOid()))], LfsObject(ZeroOid(), 1))
  }

  lemma LongKeyIsValid(n: nat)
    requires 0 < n
    ensures ExtensionPriority("ext-0-" + LongName(n)) == Some(0)
  {
    var key, name := "ext-0-" + LongName(n), LongName(n);
    assert key[4..] == "0" + ['-'] + name && key[..4] == "ext-";
    SplitOnceAt("0", '-', name);
    ByteLenAscii("0");
  }

  lemma LongPointerIsValid(n: nat)
    requires 0 < n
    ensures Valid(LongPointer(n))
  {
    LongKeyIsValid(n);
    assert PointerOid(ZeroOid())[|SHA256_PREFIX|..] == ZeroOid();
  }

  lemma LongPointerSize(n: nat)
    requires 0 < n
    ensures ByteLen(Render(LongPointer(n))) == n + 205
  {
    var key := "ext-0-" + LongName(n);
    LongPointerIsValid(n);
    OidValueIsPlain(ZeroOid());
    ByteLenAscii(PointerOid(ZeroOid()));
    ByteLenAscii(key);
    assert Decimal(1) == ['0' + 1 as char];
    RenderedSize(LongPointer(n));
  }

  /** 1011 bytes is the best limit: some accepted text of 1012 bytes has a canonical form that is refused. */
  lemma LimitIsTight()
    ensures exists contents :: ByteLen(contents) == 1012 && Parse(contents).Success?
                               && Parse(contents).value.obj.size != 0 && Parse(Render(Parse(contents).value)).Failure?
  {
    LongPointerIsValid(819);
    LongPointerSize(819);
    BoundIsAttained(LongPointer(819));
    var contents := PointerText(LongPointer(819), OLDEST_VERSION, false);
    assert ByteLen(contents) == 1012 && Parse(contents).Success?;
  }
}
