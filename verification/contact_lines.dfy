/**
  The contact lines pasted as text (`name,phone` per line) and the records they
  become. The `ChatUI` screen parses them in `syncContacts` and `doSync` with one
  identical pipeline; the `Settings` screen parses them in `sync` with a slightly
  different one. Both trim each line, drop blank lines, split each line on commas and
  trim the first two fields; they differ in how they split lines and in the phone of
  a line without a comma.
 */
module ContactLines {
  import opened Optional
  import opened Sequences
  import opened Text

  /** A parsed contact. `phone` is absent (JavaScript `undefined`) when the line had
      no comma and the parser does not substitute an empty string. */
  datatype ContactLine = ContactLine(name: string, phone: Option<string>)

  // ---------------------------------------------------------------------------
  // one line

  /** `const [n, p] = line.split(','); {name: (n || '').trim(), phone: (p || '').trim()}`:
      a missing phone becomes the empty string. */
  function ParseLineUi(line: string): (r: ContactLine)
    ensures r.phone.Some?
    ensures IsTrimmed(r.name) && IsTrimmed(r.phone.value)
    ensures ',' !in line ==> r == ContactLine(Trim(line), Some([]))
  {
    var fields := Split(line, ',');
    ContactLine(Trim(fields[0]), Some(Trim(if |fields| > 1 then fields[1] else [])))
  }

  /** `const [name, phone] = line.split(',').map(s => s.trim())`: a missing phone
      stays absent. */
  function ParseLineSettings(line: string): (r: ContactLine)
    ensures r.phone.None? <==> ',' !in line
    ensures IsTrimmed(r.name) && (r.phone.Some? ==> IsTrimmed(r.phone.value))
    ensures ',' !in line ==> r.name == Trim(line)
  {
    SplitSingle(line, ',');
    var fields := Split(line, ',');
    ContactLine(Trim(fields[0]), if |fields| > 1 then Some(Trim(fields[1])) else None)
  }

  /** The name is the trimmed text before the first comma, the phone the trimmed text
      between the first and the second. */
  lemma NameAndPhone(a: string, b: string)
    requires ',' !in a && ',' !in b
    ensures ParseLineUi(a + [','] + b) == ContactLine(Trim(a), Some(Trim(b)))
    ensures ParseLineSettings(a + [','] + b) == ContactLine(Trim(a), Some(Trim(b)))
  {
    SplitCons(a, ',', b);
    assert Split(b, ',') == [b];
  }

  /** Fields after the second comma are ignored by both parsers. */
  lemma ExtraFieldsIgnored(a: string, b: string, rest: string)
    requires ',' !in a && ',' !in b
    ensures ParseLineUi(a + [','] + b + [','] + rest) == ParseLineUi(a + [','] + b)
    ensures ParseLineSettings(a + [','] + b + [','] + rest) == ParseLineSettings(a + [','] + b)
  {
    assert a + [','] + b + [','] + rest == a + [','] + (b + [','] + rest);
    SplitCons(a, ',', b + [','] + rest);
    SplitCons(b, ',', rest);
    NameAndPhone(a, b);
  }

  /** The two parsers differ only in the phone of a line without a comma. */
  lemma LineParsersAgree(line: string)
    ensures ParseLineUi(line) == WithEmptyPhone(ParseLineSettings(line))
  {
  }

  /** The `ChatUI` reading of a record: an absent phone read as the empty string. */
  function WithEmptyPhone(c: ContactLine): (r: ContactLine)
    ensures r.name == c.name && r.phone.Some?
    ensures c.phone.Some? ==> r.phone == c.phone
    ensures c.phone.None? ==> r.phone == Some([])
  {
    c.(phone := Some(c.phone.GetOr([])))
  }

  // ---------------------------------------------------------------------------
  // the whole text

  /** `lines.map(parse)`. */
  function Map<T>(parse: string -> T, lines: seq<string>): (r: seq<T>)
    ensures |r| == |lines|
  {
    if |lines| == 0 then [] else [parse(lines[0])] + Map(parse, lines[1..])
  }

  /** Record `k` is the parse of line `k`. */
  lemma {:induction false} MapAt<T>(parse: string -> T, lines: seq<string>)
    ensures forall k :: 0 <= k < |lines| ==> Map(parse, lines)[k] == parse(lines[k])
    decreases |lines|
  {
    if |lines| > 0 {
      MapAt(parse, lines[1..]);
      var r := Map(parse, lines);
      assert r == [parse(lines[0])] + Map(parse, lines[1..]);
      forall k | 0 < k < |lines|
        ensures r[k] == parse(lines[k])
      {
        assert r[k] == Map(parse, lines[1..])[k - 1];
        assert lines[1..][k - 1] == lines[k];
      }
    }
  }

  /** Mapping distributes over concatenation. */
  /** The first line is parsed on its own, in front of the rest. */
  lemma MapCons<T>(parse: string -> T, line: string, rest: seq<string>)
    ensures Map(parse, [line] + rest) == [parse(line)] + Map(parse, rest)
  {
    assert ([line] + rest)[0] == line && ([line] + rest)[1..] == rest;
  }

  lemma {:induction false} MapAppend<T>(parse: string -> T, a: seq<string>, b: seq<string>)
    ensures Map(parse, a + b) == Map(parse, a) + Map(parse, b)
    decreases |a|
  {
    if |a| == 0 {
      assert a + b == b;
    } else {
      var line, rest := a[0], a[1..];
      MapAppend(parse, rest, b);
      assert a == [line] + rest;
      assert a + b == [line] + (rest + b);
      MapCons(parse, line, rest + b);
      MapCons(parse, line, rest);
      AppendAssoc([parse(line)], Map(parse, rest), Map(parse, b));
    }
  }

  /** `raw.split('\n').map(l => l.trim()).filter(Boolean).map(parse)` in `ChatUI`:
      one record per non-blank line, every name and phone trimmed and present. */
  function ParseContactsUi(raw: string): (r: seq<ContactLine>)
    ensures forall k :: 0 <= k < |r| ==> r[k].phone.Some? && IsTrimmed(r[k].name) && IsTrimmed(r[k].phone.value)
    ensures |r| <= |Split(raw, '\n')|
  {
    MapAt(ParseLineUi, Clean(Split(raw, '\n')));
    Map(ParseLineUi, Clean(Split(raw, '\n')))
  }

  /** `text.split(/\n+/).map(l => l.trim()).filter(Boolean).map(parse)` in `Settings`:
      one record per non-blank line, every name and present phone trimmed. */
  function ParseContactsSettings(raw: string): (r: seq<ContactLine>)
    ensures forall k :: 0 <= k < |r| ==> IsTrimmed(r[k].name) && (r[k].phone.Some? ==> IsTrimmed(r[k].phone.value))
    ensures |r| <= |SplitRuns(raw, '\n')|
  {
    MapAt(ParseLineSettings, Clean(SplitRuns(raw, '\n')));
    Map(ParseLineSettings, Clean(SplitRuns(raw, '\n')))
  }

  /** A single line yields one record when it is not blank and none when it is. */
  lemma OneLineUi(line: string)
    requires '\n' !in line
    ensures ParseContactsUi(line) == if Trim(line) == [] then [] else [ParseLineUi(Trim(line))]
  {
    assert Split(line, '\n') == [line];
    assert [line][1..] == [];
  }

  /** Records come out in line order: the text before a line break parses to the
      records before those of the text after it. */
  lemma ContactsInLineOrderUi(a: string, b: string)
    ensures ParseContactsUi(a + ['\n'] + b) == ParseContactsUi(a) + ParseContactsUi(b)
  {
    SplitAppend(a, '\n', b);
    CleanAppend(Split(a, '\n'), Split(b, '\n'));
    MapAppend(ParseLineUi, Clean(Split(a, '\n')), Clean(Split(b, '\n')));
  }

  /** Splitting on runs of line breaks reads the same lines as splitting on each one. */
  lemma SettingsSplitsLikeUi(raw: string)
    ensures ParseContactsSettings(raw) == Map(ParseLineSettings, Clean(Split(raw, '\n')))
  {
    CleanSplitRuns(raw, '\n');
  }

  /** A single line yields one record when it is not blank and none when it is. */
  lemma OneLineSettings(line: string)
    requires '\n' !in line
    ensures ParseContactsSettings(line) == if Trim(line) == [] then [] else [ParseLineSettings(Trim(line))]
  {
    SettingsSplitsLikeUi(line);
    assert Split(line, '\n') == [line];
    assert [line][1..] == [];
  }

  /** Records come out in line order, however many line breaks separate the lines. */
  lemma ContactsInLineOrderSettings(a: string, b: string)
    ensures ParseContactsSettings(a + ['\n'] + b) == ParseContactsSettings(a) + ParseContactsSettings(b)
  {
    SettingsSplitsLikeUi(a + ['\n'] + b);
    SettingsSplitsLikeUi(a);
    SettingsSplitsLikeUi(b);
    SplitAppend(a, '\n', b);
    CleanAppend(Split(a, '\n'), Split(b, '\n'));
    MapAppend(ParseLineSettings, Clean(Split(a, '\n')), Clean(Split(b, '\n')));
  }

  /** Blank lines and runs of line breaks add no record. */
  lemma BlankLinesIgnored(a: string, blank: string, b: string)
    requires '\n' !in blank && Trim(blank) == []
    ensures ParseContactsUi(a + ['\n'] + blank + ['\n'] + b) == ParseContactsUi(a + ['\n'] + b)
    ensures ParseContactsSettings(a + ['\n'] + blank + ['\n'] + b) == ParseContactsSettings(a + ['\n'] + b)
  {
    var x := blank + ['\n'] + b;
    assert a + ['\n'] + blank + ['\n'] + b == a + ['\n'] + x;
    ContactsInLineOrderUi(a, x);
    ContactsInLineOrderUi(blank, b);
    ContactsInLineOrderUi(a, b);
    OneLineUi(blank);
    assert ParseContactsUi(x) == ParseContactsUi(b);
    ContactsInLineOrderSettings(a, x);
    ContactsInLineOrderSettings(blank, b);
    ContactsInLineOrderSettings(a, b);
    OneLineSettings(blank);
    assert ParseContactsSettings(x) == ParseContactsSettings(b);
  }

  /** The two screens read the same records from the same text, except that
      `ChatUI` gives a line without a comma the phone `''` where `Settings` leaves it
      absent. */
  lemma ParsersAgree(raw: string)
    ensures |ParseContactsUi(raw)| == |ParseContactsSettings(raw)|
    ensures forall k :: 0 <= k < |ParseContactsUi(raw)| ==>
      ParseContactsUi(raw)[k] == WithEmptyPhone(ParseContactsSettings(raw)[k])
  {
    SettingsSplitsLikeUi(raw);
    var lines := Clean(Split(raw, '\n'));
    MapAt(ParseLineUi, lines);
    MapAt(ParseLineSettings, lines);
    forall k | 0 <= k < |lines|
      ensures Map(ParseLineUi, lines)[k] == WithEmptyPhone(Map(ParseLineSettings, lines)[k])
    {
      LineParsersAgree(lines[k]);
    }
  }
}
