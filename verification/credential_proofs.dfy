/** The query and the parser are compatible: an answer may repeat the query in any order. */
module CredentialProofs {
  import opened Wrappers
  import opened Text
  import opened Decimals
  import opened Seqs
  import opened LineText
  import opened Utf8Text
  import opened Urls
  import opened Credentials

  /** An attribute that the parser ignores. */
  predicate Unknown(line: string) {
    SplitOnce(line, '=').Some? && ReadKey(SplitOnce(line, '=').value.0).None?
  }

  /** The lines of an answer: every one of the attributes, in any order and as often as the helper likes, and any
      attributes that are not known. */
  predicate Answers(lines: seq<string>, attributes: Attributes) {
    (forall line :: line in lines ==> WholeLine(line) && (line in AttributeLines(attributes) || Unknown(line)))
    && (forall line :: line in AttributeLines(attributes) ==> line in lines)
  }

  // ----- The value that all lines of a key agree on -----

  predicate HasKey(line: string, key: Key) {
    SplitOnce(line, '=').Some? && SplitOnce(line, '=').value.0 == KeyText(key)
  }

  lemma LineReads(attribute: (Key, string))
    ensures SplitOnce(Line(attribute), '=') == Some((KeyText(attribute.0), attribute.1))
    ensures HasKey(Line(attribute), attribute.0)
    ensures forall key :: HasKey(Line(attribute), key) ==> key == attribute.0
  {
    KeyReads(attribute.0);
    SplitOnceAt(KeyText(attribute.0), '=', attribute.1);
    forall key | HasKey(Line(attribute), key) ensures key == attribute.0 {
      KeyReads(key);
    }
  }

  /** Every line of the key is this one. */
  predicate OnlyLineOf(lines: seq<string>, key: Key, line: string) {
    forall i :: 0 <= i < |lines| && HasKey(lines[i], key) ==> lines[i] == line
  }

  lemma {:induction false} AgreedValue(lines: seq<string>, key: Key, line: string)
    requires line in lines && HasKey(line, key) && OnlyLineOf(lines, key, line)
    ensures LastValue(lines, KeyText(key)) == Some(SplitOnce(line, '=').value.1)
  {
    var n := |lines| - 1;
    if !HasKey(lines[n], key) {
      assert lines == lines[..n] + [lines[n]];
      AgreedValue(lines[..n], key, line);
    }
  }

  lemma {:induction false} NoValue(lines: seq<string>, key: Key)
    requires forall line :: line in lines ==> !HasKey(line, key)
    ensures LastValue(lines, KeyText(key)) == None
  {
    if lines != [] {
      var n := |lines| - 1;
      assert lines[n] in lines;
      NoValue(lines[..n], key);
    }
  }

  // ----- The values of an answer -----

  predicate DistinctKeys(attributes: Attributes) {
    forall i, j :: 0 <= i < j < |attributes| ==> attributes[i].0 != attributes[j].0
  }

  function ValueIn(attributes: Attributes, key: Key): Option<string> {
    if attributes == [] then None
    else
      var n := |attributes| - 1;
      if attributes[n].0 == key then Some(attributes[n].1) else ValueIn(attributes[..n], key)
  }

  lemma ValueInAppend(attributes: Attributes, last: (Key, string), key: Key)
    ensures ValueIn(attributes + [last], key) == if last.0 == key then Some(last.1) else ValueIn(attributes, key)
  {
    assert (attributes + [last])[..|attributes|] == attributes;
  }

  lemma {:induction false} ValueInAt(attributes: Attributes, i: nat)
    requires DistinctKeys(attributes) && i < |attributes|
    ensures ValueIn(attributes, attributes[i].0) == Some(attributes[i].1)
  {
    var n := |attributes| - 1;
    if i < n {
      ValueInAt(attributes[..n], i);
    }
  }

  lemma {:induction false} ValueInNone(attributes: Attributes, key: Key)
    requires forall i :: 0 <= i < |attributes| ==> attributes[i].0 != key
    ensures ValueIn(attributes, key) == None
  {
    if attributes != [] {
      ValueInNone(attributes[..|attributes| - 1], key);
    }
  }

  lemma KnownLine(lines: seq<string>, attributes: Attributes, line: string, key: Key) returns (i: nat)
    requires Answers(lines, attributes) && line in lines && HasKey(line, key)
    ensures i < |attributes| && attributes[i].0 == key && line == Line(attributes[i])
  {
    KeyReads(key);
    assert line in AttributeLines(attributes);
    i :| i < |attributes| && AttributeLines(attributes)[i] == line;
    LineReads(attributes[i]);
  }

  lemma OnlyLineOfKey(lines: seq<string>, attributes: Attributes, i: nat)
    requires Answers(lines, attributes) && DistinctKeys(attributes) && i < |attributes|
    ensures OnlyLineOf(lines, attributes[i].0, Line(attributes[i]))
  {
    forall k | 0 <= k < |lines| && HasKey(lines[k], attributes[i].0) ensures lines[k] == Line(attributes[i]) {
      assert lines[k] in lines;
      var j := KnownLine(lines, attributes, lines[k], attributes[i].0);
    }
  }

  lemma PresentValue(lines: seq<string>, attributes: Attributes, i: nat)
    requires Answers(lines, attributes) && DistinctKeys(attributes) && i < |attributes|
    ensures LastValue(lines, KeyText(attributes[i].0)) == Some(attributes[i].1)
  {
    LineReads(attributes[i]);
    assert AttributeLines(attributes)[i] == Line(attributes[i]);
    OnlyLineOfKey(lines, attributes, i);
    AgreedValue(lines, attributes[i].0, Line(attributes[i]));
  }

  lemma AbsentValue(lines: seq<string>, attributes: Attributes, key: Key)
    requires Answers(lines, attributes) && forall i :: 0 <= i < |attributes| ==> attributes[i].0 != key
    ensures LastValue(lines, KeyText(key)) == None
  {
    forall line | line in lines ensures !HasKey(line, key) {
      if HasKey(line, key) {
        var j := KnownLine(lines, attributes, line, key);
      }
    }
    NoValue(lines, key);
  }

  /** In an answer the last value of every known key is the one that the attributes give it. */
  lemma AnsweredValue(lines: seq<string>, attributes: Attributes, key: Key)
    requires Answers(lines, attributes) && DistinctKeys(attributes)
    ensures LastValue(lines, KeyText(key)) == ValueIn(attributes, key)
  {
    if i :| 0 <= i < |attributes| && attributes[i].0 == key {
      PresentValue(lines, attributes, i);
      ValueInAt(attributes, i);
    } else {
      AbsentValue(lines, attributes, key);
      ValueInNone(attributes, key);
    }
  }

  // ----- The lines of an answer -----

  /** What may follow the lines: nothing, or a blank line and anything after it. */
  predicate EndsAnswer(rest: string) { rest == "" || rest[0] == '\n' }

  lemma NothingAfterBlank(rest: string)
    requires EndsAnswer(rest)
    ensures Lines(rest) == [] || Lines(rest)[0] == ""
  {
    if rest != "" {
      assert IndexOf(rest, '\n') == 0;
    }
  }

  lemma {:induction false} UntilBlankStops(lines: seq<string>, after: seq<string>)
    requires forall i :: 0 <= i < |lines| ==> lines[i] != ""
    requires after == [] || after[0] == ""
    ensures UntilBlank(lines + after) == lines
  {
    if lines == [] {
      assert lines + after == after;
    } else {
      UntilBlankStops(lines[1..], after);
      HeadOfConcat(lines, after);
    }
  }

  lemma LineIsAttribute(line: string, attributes: Attributes)
    requires line in AttributeLines(attributes) || Unknown(line)
    ensures line != "" && '=' in line
  {
    if line in AttributeLines(attributes) {
      var i :| 0 <= i < |attributes| && AttributeLines(attributes)[i] == line;
      LineReads(attributes[i]);
    }
  }

  lemma AnswerLines(lines: seq<string>, attributes: Attributes, rest: string)
    requires Answers(lines, attributes) && EndsAnswer(rest)
    ensures UntilBlank(Lines(Terminated(lines) + rest)) == lines && AllAttributes(lines)
  {
    forall i | 0 <= i < |lines| ensures WholeLine(lines[i]) && lines[i] != "" && '=' in lines[i] {
      assert lines[i] in lines;
      LineIsAttribute(lines[i], attributes);
    }
    LinesOfTerminated(lines, rest);
    NothingAfterBlank(rest);
    UntilBlankStops(lines, Lines(rest));
  }

  // ----- Compatibility -----

  /** The query's attributes and the password. */
  function Expected(l: Lookup, token: string): Attributes
    requires l.lfsUrl.host.Some?
  {
    Query(l) + [(PasswordKey, token)]
  }

  lemma QueryValues(l: Lookup, key: Key)
    requires l.lfsUrl.host.Some?
    ensures ValueIn(Query(l), key)
            == match key
               case ProtocolKey => Some(l.lfsUrl.scheme)
               case HostKey => Some(HostField(l.lfsUrl))
               case PathKey => ExpectedPath(l.lfsUrl)
               case UsernameKey => Some(l.username)
               case PasswordKey => None
  {
    var a, b, c := (ProtocolKey, l.lfsUrl.scheme), (HostKey, HostField(l.lfsUrl)), (UsernameKey, l.username);
    ValueInAppend([], a, key);
    ValueInAppend([a], b, key);
    assert [] + [a] == [a] && [a] + [b] == [a, b];
    match ExpectedPath(l.lfsUrl) {
      case None =>
        ValueInAppend([a, b], c, key);
        assert [a, b] + [c] == Query(l);
      case Some(path) =>
        var p := (PathKey, path);
        ValueInAppend([a, b], p, key);
        ValueInAppend([a, b, p], c, key);
        assert [a, b] + [p] == [a, b, p] && [a, b, p] + [c] == Query(l);
    }
  }

  /** The keys of a query are distinct, and none is the password's. */
  lemma KeysOfThree(query: Attributes)
    requires |query| == 3 && query[0].0 == ProtocolKey && query[1].0 == HostKey && query[2].0 == UsernameKey
    ensures DistinctKeys(query) && forall i :: 0 <= i < |query| ==> query[i].0 != PasswordKey
  {
  }

  lemma KeysOfFour(query: Attributes)
    requires |query| == 4 && query[0].0 == ProtocolKey && query[1].0 == HostKey && query[2].0 == PathKey
    requires query[3].0 == UsernameKey
    ensures DistinctKeys(query) && forall i :: 0 <= i < |query| ==> query[i].0 != PasswordKey
  {
  }

  lemma QueryKeysAreDistinct(l: Lookup)
    requires l.lfsUrl.host.Some?
    ensures DistinctKeys(Query(l)) && forall i :: 0 <= i < |Query(l)| ==> Query(l)[i].0 != PasswordKey
  {
    if ExpectedPath(l.lfsUrl).Some? { KeysOfFour(Query(l)); } else { KeysOfThree(Query(l)); }
  }

  lemma DistinctAppend(attributes: Attributes, last: (Key, string))
    requires DistinctKeys(attributes) && forall i :: 0 <= i < |attributes| ==> attributes[i].0 != last.0
    ensures DistinctKeys(attributes + [last])
  {
  }

  lemma ExpectedFields(lines: seq<string>, l: Lookup, token: string, key: Key)
    requires l.lfsUrl.host.Some? && Answers(lines, Expected(l, token))
    ensures LastValue(lines, KeyText(key)) == if key == PasswordKey then Some(token) else ValueIn(Query(l), key)
  {
    QueryKeysAreDistinct(l);
    DistinctAppend(Query(l), (PasswordKey, token));
    AnsweredValue(lines, Expected(l, token), key);
    ValueInAppend(Query(l), (PasswordKey, token), key);
  }

  lemma ExpectedPathIsNormal(u: Url)
    ensures NormalizePath(ExpectedPath(u)) == ExpectedPath(u)
  {
  }

  lemma AnsweredFields(l: Lookup, token: string, lines: seq<string>)
    requires l.lfsUrl.host.Some? && Answers(lines, Expected(l, token))
    ensures LastFields(lines)
            == Fields(Some(l.lfsUrl.scheme), Some(HostField(l.lfsUrl)), ExpectedPath(l.lfsUrl), Some(l.username), Some(token))
  {
    ExpectedFields(lines, l, token, ProtocolKey);
    ExpectedFields(lines, l, token, HostKey);
    ExpectedFields(lines, l, token, PathKey);
    ExpectedFields(lines, l, token, UsernameKey);
    ExpectedFields(lines, l, token, PasswordKey);
    QueryValues(l, ProtocolKey);
    QueryValues(l, HostKey);
    QueryValues(l, PathKey);
    QueryValues(l, UsernameKey);
  }

  /** Any answer within the limit that holds the query's attributes and the password in any order, and any unknown
      attributes, is accepted and yields the token, whatever follows a blank line. */
  lemma AnswersAreAccepted(l: Lookup, token: string, lines: seq<string>, rest: string)
    requires ValidLookup(l) && TokenText(token) && Answers(lines, Expected(l, token)) && EndsAnswer(rest)
    requires ByteLen(Terminated(lines) + rest) <= MAX_CREDENTIAL_OUTPUT_LEN
    ensures ParseFillOutput(l, Encode(Terminated(lines) + rest)) == Success(Credential(l.lfsUrl, l.username, token))
  {
    var output := Terminated(lines) + rest;
    DecodesExactlyEncodings(Encode(output), output);
    AnswerLines(lines, Expected(l, token), rest);
    FieldsAreLastValues(lines);
    AnsweredFields(l, token, lines);
    ExpectedPathIsNormal(l.lfsUrl);
  }

  // ----- Answers exist -----

  lemma LineIsWhole(attribute: (Key, string))
    requires NoControl(attribute.1)
    ensures WholeLine(Line(attribute))
  {
    KeyReads(attribute.0);
    assert NoControl(Line(attribute));
  }

  predicate NoControlIn(attributes: Attributes) {
    forall i :: 0 <= i < |attributes| ==> NoControl(attributes[i].1)
  }

  lemma QueryHasNoControl(l: Lookup)
    requires ValidLookup(l)
    ensures NoControlIn(Query(l))
  {
    AuthorityIsSafe(l.lfsUrl);
  }

  /** Attributes whose values hold no control character answer themselves, in any order. */
  lemma AttributesAnswerThemselves(attributes: Attributes)
    requires NoControlIn(attributes)
    ensures Answers(AttributeLines(attributes), attributes)
  {
    forall i | 0 <= i < |attributes| ensures WholeLine(Line(attributes[i])) {
      LineIsWhole(attributes[i]);
    }
  }

  /** The helper that echoes the query and adds the password is always accepted. */
  lemma EchoIsAccepted(l: Lookup, token: string)
    requires ValidLookup(l) && TokenText(token) && ByteLen(Printed(Expected(l, token)) + "\n") <= MAX_CREDENTIAL_OUTPUT_LEN
    ensures ParseFillOutput(l, Encode(Printed(Expected(l, token)) + "\n")) == Success(Credential(l.lfsUrl, l.username, token))
  {
    QueryHasNoControl(l);
    AttributesAnswerThemselves(Expected(l, token));
    AnswersAreAccepted(l, token, AttributeLines(Expected(l, token)), "\n");
  }

  /** The query itself is read back exactly; it is no answer because the password is missing. */
  lemma QueryReadsBack(l: Lookup)
    requires ValidLookup(l)
    ensures var host := l.lfsUrl.host.value.text + if l.lfsUrl.port.None? then "" else ":" + Decimal(l.lfsUrl.port.value);
            ParseFields(Printed(Query(l)) + "\n")
            == Success(Fields(Some(l.lfsUrl.scheme), Some(host), ExpectedPath(l.lfsUrl), Some(l.username), None))
  {
    var lines := AttributeLines(Query(l));
    QueryHasNoControl(l);
    AttributesAnswerThemselves(Query(l));
    AnswerLines(lines, Query(l), "\n");
    FieldsAreLastValues(lines);
    QueryKeysAreDistinct(l);
    QueryFields(lines, l);
  }

  lemma QueryFields(lines: seq<string>, l: Lookup)
    requires l.lfsUrl.host.Some? && Answers(lines, Query(l)) && DistinctKeys(Query(l))
    ensures LastFields(lines)
            == Fields(Some(l.lfsUrl.scheme), Some(HostField(l.lfsUrl)), ExpectedPath(l.lfsUrl), Some(l.username), None)
  {
    forall key ensures LastValue(lines, KeyText(key)) == ValueIn(Query(l), key) {
      AnsweredValue(lines, Query(l), key);
    }
    QueryValues(l, ProtocolKey);
    QueryValues(l, HostKey);
    QueryValues(l, PathKey);
    QueryValues(l, UsernameKey);
    QueryValues(l, PasswordKey);
  }

  // ----- The text of the query -----

  lemma LinesOfThree(a: (Key, string), b: (Key, string), c: (Key, string))
    ensures AttributeLines([a, b, c]) == [Line(a), Line(b), Line(c)]
  {
  }

  lemma LinesOfFour(a: (Key, string), b: (Key, string), c: (Key, string), d: (Key, string))
    ensures AttributeLines([a, b, c, d]) == [Line(a), Line(b), Line(c), Line(d)]
  {
  }

  lemma LinesAreLiteral(protocol: string, host: string, path: string, username: string)
    ensures Line((ProtocolKey, protocol)) == "protocol=" + protocol
    ensures Line((HostKey, host)) == "host=" + host
    ensures Line((PathKey, path)) == "path=" + path
    ensures Line((UsernameKey, username)) == "username=" + username
  {
  }

  /** The lines of the query, which `Terminated` prints: the path without its slashes has one, unless nothing is left. */
  lemma QueryLines(l: Lookup, path: string)
    requires l.lfsUrl.host.Some? && IsBehindSlashes(Path(l.lfsUrl), path)
    ensures var host := l.lfsUrl.host.value.text + if l.lfsUrl.port.None? then "" else ":" + Decimal(l.lfsUrl.port.value);
            Printed(Query(l))
            == Terminated(if path == ""
                          then ["protocol=" + l.lfsUrl.scheme, "host=" + host, "username=" + l.username]
                          else ["protocol=" + l.lfsUrl.scheme, "host=" + host, "path=" + path, "username=" + l.username])
  {
    NormalizedPathIs(Path(l.lfsUrl), path);
    var a, b, c := (ProtocolKey, l.lfsUrl.scheme), (HostKey, HostField(l.lfsUrl)), (UsernameKey, l.username);
    LinesAreLiteral(a.1, b.1, path, c.1);
    LinesOfThree(a, b, c);
    LinesOfFour(a, b, (PathKey, path), c);
  }
}
