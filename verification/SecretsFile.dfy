/** A project's secrets env file: reading it, and setting and unsetting keys
    without changing what any other line means (src/boxmunge/secrets.py). */
module SecretsFile {
  import opened Options
  import opened Text
  import opened SecretsCodec

  /** A line as stored, and its literal value; None for one only Compose can read. */
  datatype Entry = Entry(line: string, value: Option<string>)

  type Entries = map<string, Entry>

  predicate KeyStart(c: char) {
    'a' <= c <= 'z' || 'A' <= c <= 'Z' || c == '_'
  }

  predicate ValidKey(key: string) {
    key != "" && KeyStart(key[0]) && forall c :: c in key ==> KeyStart(c) || '0' <= c <= '9'
  }

  predicate Forbidden(c: char) {
    var n := c as int;
    n <= 8 || (10 <= n <= 31) || n == 127
  }

  /** validate_secret raises nothing. */
  predicate Storable(key: string, value: string) {
    ValidKey(key) && (forall c :: c in value ==> !Forbidden(c)) && Decode(Encode(value)) == Some(value)
  }

  predicate Contains(s: string, pair: string)
    requires |pair| == 2
  {
    exists i :: 0 <= i < |s| - 1 && s[i] == pair[0] && s[i + 1] == pair[1]
  }

  predicate PlainUnquoted(text: string) {
    '$' !in text && !Contains(text, " #") && text == Strip(text)
    && !("'" <= text) && !("\"" <= text) && Decode(Encode(text)) == Some(text)
  }

  function SepAt(line: string): nat {
    if line == "" || line[0] == '=' then 0 else 1 + SepAt(line[1..])
  }

  lemma {:induction false} SepAtFirst(line: string)
    ensures SepAt(line) <= |line|
    ensures '=' !in line[..SepAt(line)]
    ensures '=' in line ==> SepAt(line) < |line| && line[SepAt(line)] == '='
  {
    if line != "" && line[0] != '=' {
      SepAtFirst(line[1..]);
      assert line[..SepAt(line)] == [line[0]] + line[1..][..SepAt(line[1..])];
      assert '=' in line ==> '=' in line[1..];
    }
  }

  function KeyOf(line: string): string
    requires '=' in line
  {
    SepAtFirst(line);
    line[..SepAt(line)]
  }

  function RawOf(line: string): string
    requires '=' in line
  {
    SepAtFirst(line);
    line[SepAt(line) + 1..]
  }

  function ValueOf(key: string, raw: string): Option<string> {
    if !ValidKey(key) then None
    else if "'" <= raw then Decode(raw)
    else if PlainUnquoted(raw) then Some(raw) else None
  }

  predicate Skipped(line: string) {
    Strip(line) == "" || "#" <= LStrip(line)
  }

  function ParseLines(lines: seq<string>, entries: Entries): Option<Entries>
    decreases |lines|
  {
    if lines == [] then Some(entries)
    else if Skipped(lines[0]) then ParseLines(lines[1..], entries)
    else if '=' !in lines[0] || KeyOf(lines[0]) in entries then None
    else
      var key := KeyOf(lines[0]);
      ParseLines(lines[1..], entries[key := Entry(lines[0], ValueOf(key, RawOf(lines[0])))])
  }

  /** secrets._parse; None for a line without `=` or a key set twice. */
  function Parse(content: Option<string>): Option<Entries> {
    match content
    case None => Some(map[])
    case Some(text) => ParseLines(Split(text, '\n'), map[])
  }

  function Stored(key: string, value: string): string {
    key + "=" + Encode(value)
  }

  function Migrated(m: Entries): Entries {
    map k | k in m :: if m[k].value.Some? then Entry(Stored(k, m[k].value.value), m[k].value) else m[k]
  }

  function Rewritten(m: Entries, key: string, value: Option<string>): Entries {
    var kept := Migrated(m - {key});
    if value.Some? then kept[key := Entry(Stored(key, value.value), value)] else kept
  }

  /** Keys whose value can make Compose read the lines after it into it. */
  function Spanning(m: Entries): set<string>
    requires WellFormed(m)
  {
    set k | k in m && m[k].value.None? && MaySpan(RawOf(m[k].line))
  }

  function Render(order: seq<string>, m: Entries): string
    requires forall k :: k in order ==> k in m
  {
    if order == [] then "" else m[order[0]].line + ['\n'] + Render(order[1..], m)
  }

  // ---------------------------------------------------------------------
  // Printing and parsing
  // ---------------------------------------------------------------------

  /** The line is one that parses to this entry under this key. */
  predicate WellLine(key: string, e: Entry) {
    !Skipped(e.line) && '\n' !in e.line && '=' in e.line
    && KeyOf(e.line) == key && e.value == ValueOf(key, RawOf(e.line))
  }

  predicate WellFormed(m: Entries) {
    forall k :: k in m ==> WellLine(k, m[k])
  }

  lemma {:induction false} ParsedIsWellFormed(lines: seq<string>, entries: Entries)
    requires WellFormed(entries) && forall l :: l in lines ==> '\n' !in l
    ensures ParseLines(lines, entries).Some? ==> WellFormed(ParseLines(lines, entries).value)
    decreases |lines|
  {
    if lines != [] {
      assert lines[0] in lines;
      if Skipped(lines[0]) {
        ParsedIsWellFormed(lines[1..], entries);
      } else if '=' in lines[0] && KeyOf(lines[0]) !in entries {
        var key := KeyOf(lines[0]);
        ParsedIsWellFormed(lines[1..], entries[key := Entry(lines[0], ValueOf(key, RawOf(lines[0])))]);
      }
    }
  }

  lemma ParseIsWellFormed(content: Option<string>)
    ensures Parse(content).Some? ==> WellFormed(Parse(content).value)
  {
    if content.Some? {
      ParsedIsWellFormed(Split(content.value, '\n'), map[]);
    }
  }

  predicate NoRepeats(order: seq<string>) {
    forall i, j :: 0 <= i < j < |order| ==> order[i] != order[j]
  }

  function Picked(m: Entries, order: seq<string>): Entries
    requires forall k :: k in order ==> k in m
  {
    map k | k in order :: m[k]
  }

  lemma ParseOneLine(key: string, e: Entry, rest: seq<string>, done: Entries)
    requires WellLine(key, e) && key !in done
    ensures ParseLines([e.line] + rest, done) == ParseLines(rest, done[key := e])
  {
    assert ([e.line] + rest)[1..] == rest;
  }

  lemma ParseNothing(done: Entries)
    ensures ParseLines(Split("", '\n'), done) == Some(done)
  {
    assert Split("", '\n') == [""] && Skipped("") && [""][1..] == [];
  }

  lemma SplitOfRender(order: seq<string>, m: Entries)
    requires order != [] && WellFormed(m) && forall k :: k in order ==> k in m
    ensures Split(Render(order, m), '\n') == [m[order[0]].line] + Split(Render(order[1..], m), '\n')
  {
    assert WellLine(order[0], m[order[0]]);
    SplitFirst(m[order[0]].line, '\n', Render(order[1..], m));
  }

  lemma PickedFirst(order: seq<string>, m: Entries, done: Entries)
    requires order != [] && NoRepeats(order)
    requires forall k :: k in order ==> k in m && k !in done
    ensures done[order[0] := m[order[0]]] + Picked(m, order[1..]) == done + Picked(m, order)
  {
    var k := order[0];
    assert forall x :: x in order <==> x == k || x in order[1..];
  }

  /** The lines of a rendered file, split again. */
  ghost function Lines(order: seq<string>, m: Entries): seq<string>
    requires forall k :: k in order ==> k in m
  {
    Split(Render(order, m), '\n')
  }

  lemma {:induction false} ParseOfRender(order: seq<string>, m: Entries, done: Entries)
    requires WellFormed(m) && NoRepeats(order)
    requires forall k :: k in order ==> k in m && k !in done
    ensures ParseLines(Lines(order, m), done) == Some(done + Picked(m, order))
    decreases |order|
  {
    if order == [] {
      ParseNothing(done);
      assert done + Picked(m, order) == done;
    } else {
      var k, rest := order[0], order[1..];
      assert WellLine(k, m[k]) && k in order;
      SplitOfRender(order, m);
      ParseOneLine(k, m[k], Lines(rest, m), done);
      ParseOfRender(rest, m, done[k := m[k]]);
      PickedFirst(order, m, done);
    }
  }

  /** Printing a well-formed file's entries, in any order, and parsing them back
      gives exactly those entries. */
  lemma ParseUndoesRender(order: seq<string>, m: Entries)
    requires WellFormed(m) && NoRepeats(order)
    requires forall k :: k in order <==> k in m
    ensures Parse(Some(Render(order, m))) == Some(m)
  {
    ParseOfRender(order, m, map[]);
    assert map[] + Picked(m, order) == m;
  }

  // ---------------------------------------------------------------------
  // A rewritten file is well formed
  // ---------------------------------------------------------------------

  lemma {:induction false} EscapeKeepsNoNewline(value: string)
    requires '\n' !in value
    ensures '\n' !in Escape(value)
  {
    if value != "" {
      EscapeKeepsNoNewline(value[1..]);
    }
  }

  lemma {:induction false} RStripKeepsStart(s: string)
    requires s != "" && !IsSpace(s[0])
    ensures RStrip(s) != ""
    decreases |s|
  {
    if IsSpace(s[|s| - 1]) {
      RStripKeepsStart(s[..|s| - 1]);
    }
  }

  lemma {:induction false} SepAfter(key: string, raw: string)
    requires '=' !in key
    ensures SepAt(key + "=" + raw) == |key|
  {
    if key != "" {
      assert (key + "=" + raw)[1..] == key[1..] + "=" + raw;
      SepAfter(key[1..], raw);
    }
  }

  lemma StoredIsWellFormed(key: string, value: string)
    requires ValidKey(key) && '\n' !in value && Decode(Encode(value)) == Some(value)
    ensures WellLine(key, Entry(Stored(key, value), Some(value)))
  {
    var line := Stored(key, value);
    assert line[0] == key[0];
    RStripKeepsStart(line);
    EscapeKeepsNoNewline(value);
    assert forall c :: c in key ==> c != '=' && c != '\n';
    SepAfter(key, Encode(value));
    SepAtFirst(line);
    assert line[|key|] == '=';
    assert line[..|key|] == key && line[|key| + 1..] == Encode(value);
  }

  lemma {:induction false} ScanNewline(text: string, escaped: bool)
    requires '\n' !in text && Scan(text, escaped).Some?
    ensures '\n' !in Scan(text, escaped).value
    decreases |text|
  {
    if text[0] != '\'' || escaped {
      ScanNewline(text[1..], !escaped && text[0] == '\\');
    }
  }

  /** A literal value's line can always be printed again in the quoted form. */
  lemma MigratedLine(key: string, e: Entry)
    requires WellLine(key, e) && e.value.Some?
    ensures WellLine(key, Entry(Stored(key, e.value.value), e.value))
  {
    var raw := RawOf(e.line);
    SepAtFirst(e.line);
    assert '\n' !in raw;
    if "'" <= raw {
      EncodeUndoesDecode(raw);
      ScanNewline(raw[1..], false);
    }
    StoredIsWellFormed(key, e.value.value);
  }

  lemma MigratedIsWellFormed(m: Entries)
    requires WellFormed(m)
    ensures WellFormed(Migrated(m))
  {
    forall k | k in m
      ensures WellLine(k, Migrated(m)[k])
    {
      assert WellLine(k, m[k]);
      if m[k].value.Some? {
        MigratedLine(k, m[k]);
      }
    }
  }

  lemma RewrittenIsWellFormed(m: Entries, key: string, value: Option<string>)
    requires WellFormed(m) && (value.Some? ==> Storable(key, value.value))
    ensures WellFormed(Rewritten(m, key, value))
  {
    MigratedIsWellFormed(m - {key});
    if value.Some? {
      assert Forbidden('\n');
      StoredIsWellFormed(key, value.value);
    }
  }

  // ---------------------------------------------------------------------
  // Edits
  // ---------------------------------------------------------------------

  datatype Edit = Set(key: string, value: string) | Unset(key: string) {
    function Value(): Option<string> {
      if Set? then Some(value) else None
    }
  }

  /** Neither validate_secret, nor _parse, nor the line-spanning check refuses it. */
  predicate Accepts(content: Option<string>, e: Edit) {
    (e.Set? ==> Storable(e.key, e.value))
    && Parse(content).Some?
    && (ParseIsWellFormed(content);
        var spanning := Spanning(Parse(content).value);
        spanning == {} || e.key in spanning)
  }

  /** The file after an accepted edit; it is left alone when nothing changes. */
  ghost function AfterEdit(content: Option<string>, e: Edit): Option<string> {
    if !Accepts(content, e) then content
    else
      var m := Parse(content).value;
      var n := Rewritten(m, e.key, e.Value());
      if e.Set? || e.key in m || n != m then Some(Render(Sorted(n.Keys), n)) else content
  }

  ghost function AfterEdits(content: Option<string>, edits: seq<Edit>): Option<string> {
    if edits == [] then content
    else AfterEdit(AfterEdits(content, edits[..|edits| - 1]), edits[|edits| - 1])
  }

  /** The last accepted edit of a key. */
  ghost function LastEdit(content: Option<string>, edits: seq<Edit>, key: string): Option<Edit> {
    if edits == [] then None
    else
      var last, before := edits[|edits| - 1], edits[..|edits| - 1];
      if last.key == key && Accepts(AfterEdits(content, before), last) then Some(last)
      else LastEdit(content, before, key)
  }

  lemma EditParses(content: Option<string>, e: Edit)
    requires Parse(content).Some?
    ensures Parse(AfterEdit(content, e)).Some?
    ensures Accepts(content, e) ==>
              Parse(AfterEdit(content, e)).value == Rewritten(Parse(content).value, e.key, e.Value())
  {
    ParseIsWellFormed(content);
    if Accepts(content, e) {
      var m := Parse(content).value;
      var n := Rewritten(m, e.key, e.Value());
      RewrittenIsWellFormed(m, e.key, e.Value());
      ParseUndoesRender(Sorted(n.Keys), n);
    }
  }

  /** What the file says of one key after the edits, given what it said before. */
  predicate KeepsMeaning(m: Entries, n: Entries, key: string, last: Option<Edit>) {
    match last
    case Some(Set(_, value)) => key in n && n[key].value == Some(value)
    case Some(Unset(_)) => key !in n
    case None =>
      (key in m <==> key in n)
      && (key in m ==> n[key].value == m[key].value && (m[key].value.None? ==> n[key].line == m[key].line))
  }

  lemma {:induction false} EditsKeepMeaning(content: Option<string>, edits: seq<Edit>, key: string)
    requires Parse(content).Some?
    ensures Parse(AfterEdits(content, edits)).Some?
    ensures KeepsMeaning(Parse(content).value, Parse(AfterEdits(content, edits)).value, key,
                         LastEdit(content, edits, key))
    ensures WellFormed(Parse(content).value) && WellFormed(Parse(AfterEdits(content, edits)).value)
    ensures key in Spanning(Parse(AfterEdits(content, edits)).value) ==> key in Spanning(Parse(content).value)
    decreases |edits|
  {
    ParseIsWellFormed(content);
    if edits != [] {
      var last, before := edits[|edits| - 1], edits[..|edits| - 1];
      EditsKeepMeaning(content, before, key);
      var mid := AfterEdits(content, before);
      EditParses(mid, last);
      ParseIsWellFormed(AfterEdit(mid, last));
    }
  }

  /** From any file that parses, after any sequence of edits (refused ones change
      nothing): it still parses; every key reads back what the last accepted edit
      of it said; every other literal value is what it was; every other line
      boxmunge cannot read literally is the same text; and no key's value can
      newly run on into the lines after it. */
  lemma RewriteKeepsMeaning(content: Option<string>, edits: seq<Edit>)
    requires Parse(content).Some?
    ensures Parse(AfterEdits(content, edits)).Some?
    ensures WellFormed(Parse(content).value) && WellFormed(Parse(AfterEdits(content, edits)).value)
    ensures var m, n := Parse(content).value, Parse(AfterEdits(content, edits)).value;
            && (forall key :: KeepsMeaning(m, n, key, LastEdit(content, edits, key)))
            && Spanning(n) <= Spanning(m)
  {
    EditsKeepMeaning(content, edits, "");
    var m, n := Parse(content).value, Parse(AfterEdits(content, edits)).value;
    forall key
      ensures KeepsMeaning(m, n, key, LastEdit(content, edits, key))
      ensures key in Spanning(n) ==> key in Spanning(m)
    {
      EditsKeepMeaning(content, edits, key);
    }
  }

  /** Keys that span lines can be cleared one at a time: unsetting one of them is
      always accepted and takes exactly that one away. */
  lemma SpanningKeysCanBeCleared(content: Option<string>, key: string)
    requires Parse(content).Some?
    requires WellFormed(Parse(content).value) && key in Spanning(Parse(content).value)
    ensures Accepts(content, Unset(key))
    ensures Parse(AfterEdit(content, Unset(key))).Some? && WellFormed(Parse(AfterEdit(content, Unset(key))).value)
    ensures Spanning(Parse(AfterEdit(content, Unset(key))).value) == Spanning(Parse(content).value) - {key}
  {
    EditParses(content, Unset(key));
    ParseIsWellFormed(AfterEdit(content, Unset(key)));
  }

  /** Unsetting a key that is not there leaves a file alone, to the byte, exactly when
      every literal value in it is stored in the quoted form already. */
  lemma LeftAloneExactlyWhen(content: Option<string>, key: string)
    requires Accepts(content, Unset(key)) && key !in Parse(content).value
    ensures AfterEdit(content, Unset(key)) == content
            <==> forall k :: k in Parse(content).value && Parse(content).value[k].value.Some? ==>
                   Parse(content).value[k].line == Stored(k, Parse(content).value[k].value.value)
  {
    var m := Parse(content).value;
    assert m - {key} == m;
    EditParses(content, Unset(key));
    UnchangedExactlyWhenQuoted(m);
    assert Unquoted(m) == {} <==> forall k :: k !in Unquoted(m);
  }

  // ---------------------------------------------------------------------
  // Exactly which edits are accepted
  // ---------------------------------------------------------------------

  /** validate_secret, in characters: a name of letters, digits and underscores that
      does not start with a digit, and a value without control characters other than
      tab that its stored form carries. */
  lemma StorableExactlyWhen(key: string, value: string)
    ensures Storable(key, value)
            <==> && key != "" && !('0' <= key[0] <= '9')
                 && (forall c :: c in key ==> 'a' <= c <= 'z' || 'A' <= c <= 'Z' || '0' <= c <= '9' || c == '_')
                 && (forall c :: c in value ==> c == '\t' || (c as int >= 32 && c as int != 127))
                 && Carriable(value)
  {
    DecodeUndoesEncode(value);
    assert key != "" ==> key[0] in key;
    assert forall c :: Forbidden(c) <==> !(c == '\t' || (c as int >= 32 && c as int != 127));
  }

  lemma {:induction false} RStripped(s: string)
    ensures RStrip(s) == s <==> s == "" || !IsSpace(s[|s| - 1])
    ensures |RStrip(s)| <= |s|
    decreases |s|
  {
    if s != "" && IsSpace(s[|s| - 1]) {
      RStripped(s[..|s| - 1]);
    }
  }

  lemma {:induction false} RStrippedToNothing(s: string)
    ensures RStrip(s) == "" <==> forall c :: c in s ==> IsSpace(c)
    decreases |s|
  {
    if s != "" && IsSpace(s[|s| - 1]) {
      assert s == s[..|s| - 1] + [s[|s| - 1]];
      RStrippedToNothing(s[..|s| - 1]);
    }
  }

  lemma StrippedExactlyWhen(text: string)
    ensures text == Strip(text) <==> text == "" || (!IsSpace(text[0]) && !IsSpace(text[|text| - 1]))
  {
    var k := LStripped(text);
    RStripped(LStrip(text));
    assert text == Strip(text) ==> |LStrip(text)| == |text|;
    if text != "" && k == 0 {
      assert LStrip(text) == text;
    }
  }

  lemma ContainsExactlyWhen(text: string, pair: string)
    requires |pair| == 2
    ensures Contains(text, pair) <==> exists i, j :: 0 <= i && j == i + 2 <= |text| && text[i..j] == pair
  {
    if Contains(text, pair) {
      var i :| 0 <= i < |text| - 1 && text[i] == pair[0] && text[i + 1] == pair[1];
      assert text[i..i + 2] == pair;
    }
    forall i, j | 0 <= i && j == i + 2 <= |text| && text[i..j] == pair
      ensures Contains(text, pair)
    {
      assert text[i] == text[i..j][0] && text[i + 1] == text[i..j][1];
    }
  }

  /** An unquoted value is literal when Compose reads it as written: no `$`, no `#`
      after a space, no white space around it, no opening quote, and a stored form
      that carries it. */
  lemma PlainExactlyWhen(text: string)
    ensures PlainUnquoted(text)
            <==> && '$' !in text && (forall i, j :: 0 <= i && j == i + 2 <= |text| ==> text[i..j] != " #")
                 && (text != "" ==> !IsSpace(text[0]) && !IsSpace(text[|text| - 1]) && text[0] !in {'\'', '"'})
                 && Carriable(text)
  {
    DecodeUndoesEncode(text);
    StrippedExactlyWhen(text);
    ContainsExactlyWhen(text, " #");
  }

  /** Blank lines and comments. */
  lemma SkippedExactlyWhen(line: string)
    ensures Skipped(line)
            <==> || (forall c :: c in line ==> IsSpace(c))
                 || exists k :: 0 <= k < |line| && line[k] == '#' && forall i :: 0 <= i < k ==> IsSpace(line[i])
  {
    var k := LStripped(line);
    RStrippedToNothing(LStrip(line));
    if k < |line| {
      assert line[k] in line && LStrip(line)[0] == line[k];
    } else {
      assert forall c :: c in line ==> exists i :: 0 <= i < |line| && line[i] == c;
    }
  }

  /** Every line but blank ones and comments has an `=`, and no two the same key. */
  predicate OneEach(lines: seq<string>) {
    && (forall i :: 0 <= i < |lines| ==> Skipped(lines[i]) || '=' in lines[i])
    && forall i, j :: 0 <= i < j < |lines| && IsEntry(lines[i]) && IsEntry(lines[j]) ==>
         KeyOf(lines[i]) != KeyOf(lines[j])
  }

  predicate IsEntry(line: string) {
    !Skipped(line) && '=' in line
  }

  lemma KeyAndRaw(line: string)
    requires '=' in line
    ensures line == KeyOf(line) + "=" + RawOf(line) && '=' !in KeyOf(line)
  {
    SepAtFirst(line);
  }

  lemma {:induction false} ParsedLines(lines: seq<string>, entries: Entries)
    ensures ParseLines(lines, entries).Some?
            <==> OneEach(lines) && forall i :: 0 <= i < |lines| && IsEntry(lines[i]) ==> KeyOf(lines[i]) !in entries
    ensures ParseLines(lines, entries).Some? ==>
              var m := ParseLines(lines, entries).value;
              && (forall k :: k in entries ==> k in m && m[k] == entries[k])
              && (forall i :: 0 <= i < |lines| && IsEntry(lines[i]) ==>
                    KeyOf(lines[i]) in m && m[KeyOf(lines[i])].line == lines[i])
              && (forall k :: k in m ==> k in entries || exists i :: 0 <= i < |lines| && IsEntry(lines[i])
                                                                     && KeyOf(lines[i]) == k)
    decreases |lines|
  {
    if lines != [] {
      var rest := lines[1..];
      assert forall i :: 0 < i < |lines| ==> lines[i] == rest[i - 1];
      assert forall i :: 0 <= i < |rest| ==> rest[i] == lines[i + 1];
      if Skipped(lines[0]) {
        ParsedLines(rest, entries);
      } else if '=' in lines[0] && KeyOf(lines[0]) !in entries {
        var key := KeyOf(lines[0]);
        ParsedLines(rest, entries[key := Entry(lines[0], ValueOf(key, RawOf(lines[0])))]);
      }
    }
  }

  /** The value of this line, which boxmunge cannot read, may run on. */
  predicate SpansFrom(line: string) {
    IsEntry(line) && ValueOf(KeyOf(line), RawOf(line)).None? && MaySpan(RawOf(line))
  }

  predicate SomeSpans(lines: seq<string>, key: string) {
    exists i :: 0 <= i < |lines| && SpansFrom(lines[i]) && KeyOf(lines[i]) == key
  }

  lemma SpanningByLines(lines: seq<string>, m: Entries, key: string)
    requires ParseLines(lines, map[]) == Some(m) && WellFormed(m)
    ensures key in Spanning(m) <==> SomeSpans(lines, key)
  {
    ParsedLines(lines, map[]);
    if key in m {
      var i :| 0 <= i < |lines| && IsEntry(lines[i]) && KeyOf(lines[i]) == key;
      assert WellLine(key, m[key]) && m[key].line == lines[i];
    }
  }

  /** Which edits are accepted: of values that can be stored, in files with one line
      a key, and where no value may run on into other lines but, if any does, the
      edited key's. */
  lemma AcceptedExactlyWhen(content: Option<string>, e: Edit)
    ensures var lines := if content.None? then [] else Split(content.value, '\n');
            Accepts(content, e)
            <==> && (e.Set? ==> Storable(e.key, e.value)) && OneEach(lines)
                 && ((exists key :: SomeSpans(lines, key)) ==> SomeSpans(lines, e.key))
  {
    var lines := if content.None? then [] else Split(content.value, '\n');
    ParsedLines(lines, map[]);
    ParseIsWellFormed(content);
    if Parse(content).Some? {
      var m := Parse(content).value;
      forall key
        ensures key in Spanning(m) <==> SomeSpans(lines, key)
      {
        SpanningByLines(lines, m, key);
      }
    }
  }

  // ---------------------------------------------------------------------
  // The file
  // ---------------------------------------------------------------------

  /** What a write tells its caller of the file: its keys, those only Compose can
      read, those whose names are refused now, and the other keys it encoded anew. */
  datatype Inventory = Inventory(keys: set<string>, legacy: set<string>, misnamed: set<string>, migrated: set<string>)

  function Described(m: Entries, migrated: set<string>): Inventory {
    var unknown := set k | k in m && m[k].value.None?;
    Inventory(m.Keys, (set k | k in unknown && ValidKey(k)), (set k | k in unknown && !ValidKey(k)), migrated)
  }

  /** Literal values not stored in the quoted form. */
  function Unquoted(m: Entries): set<string> {
    set k | k in m && m[k].value.Some? && m[k].line != Stored(k, m[k].value.value)
  }

  /** The inventory of the file an accepted edit leaves. */
  ghost predicate Inventories(was: Option<string>, now: Option<string>, e: Edit, inventory: Inventory) {
    Parse(was).Some? && Parse(now).Some?
    && inventory == Described(Parse(now).value, Unquoted(Parse(was).value - {e.key}))
  }

  /** In terms of the two files: every key now; those with no literal value, by
      whether their name is valid; and the other keys whose line the write changed. */
  lemma InventorySays(was: Option<string>, e: Edit, inventory: Inventory)
    requires Accepts(was, e) && Inventories(was, AfterEdit(was, e), e, inventory)
    ensures Parse(was).Some? && Parse(AfterEdit(was, e)).Some?
    ensures var m, n := Parse(was).value, Parse(AfterEdit(was, e)).value;
            && inventory.keys == n.Keys
            && (forall k :: k in inventory.legacy <==> k in n && n[k].value.None? && ValidKey(k))
            && (forall k :: k in inventory.misnamed <==> k in n && n[k].value.None? && !ValidKey(k))
            && (forall k :: k in inventory.migrated <==> k != e.key && k in m && k in n && n[k].line != m[k].line)
  {
    EditParses(was, e);
    LinesChanged(Parse(was).value, e.key, e.Value());
  }

  lemma LinesChanged(m: Entries, key: string, value: Option<string>)
    ensures var n := Rewritten(m, key, value);
            forall k :: k in Unquoted(m - {key}) <==> k != key && k in m && k in n && n[k].line != m[k].line
  {
  }

  datatype Failure = BadValue | Unparseable | SpansLines(keys: set<string>)

  class Secrets {
    var content: Option<string>

    /** secrets._parse: line by line, into a dict. */
    method ParseFile() returns (entries: Option<Entries>)
      ensures entries == Parse(content)
    {
      if content.None? {
        return Some(map[]);
      }
      var lines := Split(content.value, '\n');
      var found: Entries := map[];
      for i := 0 to |lines|
        invariant Parse(content) == ParseLines(lines[i..], found)
      {
        var line := lines[i];
        assert lines[i..][0] == line && lines[i..][1..] == lines[i + 1..];
        if !Skipped(line) {
          if '=' !in line {
            return None;
          }
          var key, raw := KeyOf(line), RawOf(line);
          if key in found {
            return None;
          }
          var value: Option<string>;
          if !ValidKey(key) {
            value := None;
          } else if "'" <= raw {
            value := DecodeSingleQuoted(raw);
          } else {
            value := if PlainUnquoted(raw) then Some(raw) else None;
          }
          found := found[key := Entry(line, value)];
        }
      }
      return Some(found);
    }

    /** secrets._rewrite, under the file's lock. */
    method Rewrite(e: Edit) returns (failure: Option<Failure>, inventory: Inventory)
      requires e.Set? ==> Storable(e.key, e.value)
      modifies this
      ensures content == AfterEdit(old(content), e)
      ensures failure.None? <==> Accepts(old(content), e)
      ensures failure.None? ==> Inventories(old(content), content, e, inventory)
      ensures failure != Some(BadValue)
    {
      inventory := Inventory({}, {}, {}, {});
      var parsed := ParseFile();
      if parsed.None? {
        return Some(Unparseable), inventory;
      }
      ParseIsWellFormed(content);
      var entries := parsed.value;
      var spanning := Spanning(entries);
      if spanning != {} && e.key !in spanning {
        return Some(SpansLines(spanning)), inventory;
      }
      EditParses(content, e);
      var rewritten, write, migrated := Replace(entries, e);
      if write {
        var text := Print(rewritten);
        content := Some(text);
      }
      return None, Described(rewritten, migrated);
    }
  }

  /** The entries after the edit, and whether the file has to be written. */
  method Replace(m: Entries, e: Edit) returns (entries: Entries, write: bool, migrated: set<string>)
    ensures entries == Rewritten(m, e.key, e.Value()) && migrated == Unquoted(m - {e.key})
    ensures write <==> e.Set? || e.key in m || entries != m
  {
    var removed := e.key in m;
    entries, migrated := Migrate(m - {e.key});
    if !removed {
      assert m - {e.key} == m;
    }
    if e.Set? {
      entries := entries[e.key := Entry(Stored(e.key, e.value), Some(e.value))];
    }
    write := e.Set? || removed || migrated != {};
  }

  /** secrets.set_key. */
  method SetKey(file: Secrets, key: string, value: string) returns (failure: Option<Failure>, inventory: Inventory)
    modifies file
    ensures file.content == AfterEdit(old(file.content), Set(key, value))
    ensures failure.None? <==> Accepts(old(file.content), Set(key, value))
    ensures failure.None? ==> Inventories(old(file.content), file.content, Set(key, value), inventory)
    ensures failure == Some(BadValue) <==> !Storable(key, value)
  {
    if !Storable(key, value) {
      return Some(BadValue), Inventory({}, {}, {}, {});
    }
    failure, inventory := file.Rewrite(Set(key, value));
  }

  /** secrets.unset_key: by the exact stored name, valid or not. */
  method UnsetKey(file: Secrets, key: string) returns (failure: Option<Failure>, inventory: Inventory)
    modifies file
    ensures file.content == AfterEdit(old(file.content), Unset(key))
    ensures failure.None? <==> Accepts(old(file.content), Unset(key))
    ensures failure.None? ==> Inventories(old(file.content), file.content, Unset(key), inventory)
  {
    failure, inventory := file.Rewrite(Unset(key));
  }

  /** Re-encodes every literal value not yet in the quoted form. */
  method Migrate(m: Entries) returns (entries: Entries, migrated: set<string>)
    ensures entries == Migrated(m) && migrated == Unquoted(m) && (migrated == {} <==> entries == m)
  {
    entries, migrated := m, {};
    var left := m.Keys;
    while left != {}
      invariant left <= m.Keys == entries.Keys
      invariant forall k :: k in m ==> entries[k] == if k in left then m[k] else Migrated(m)[k]
      invariant migrated == Unquoted(m) - left
      decreases left
    {
      var k :| k in left;
      if entries[k].value.Some? && entries[k].line != Stored(k, entries[k].value.value) {
        entries := entries[k := Entry(Stored(k, entries[k].value.value), entries[k].value)];
        migrated := migrated + {k};
      }
      left := left - {k};
    }
    UnchangedExactlyWhenQuoted(m);
  }

  lemma UnchangedExactlyWhenQuoted(m: Entries)
    ensures Unquoted(m) == {} <==> Migrated(m) == m
  {
    if Migrated(m) == m {
      forall k
        ensures k !in Unquoted(m)
      {
        assert k in m ==> Migrated(m)[k] == m[k];
      }
    } else {
      assert forall k :: k in m && k !in Unquoted(m) ==> Migrated(m)[k] == m[k];
    }
  }

  method Print(entries: Entries) returns (text: string)
    ensures text == Render(Sorted(entries.Keys), entries)
  {
    var order := SortKeys(entries.Keys);
    text := "";
    var i := 0;
    while i < |order|
      invariant 0 <= i <= |order|
      invariant text + Render(order[i..], entries) == Render(order, entries)
    {
      RenderNext(text, order, i, entries);
      text := text + (entries[order[i]].line + ['\n']);
      i := i + 1;
    }
    assert text + "" == text;
  }

  lemma RenderNext(text: string, order: seq<string>, i: nat, m: Entries)
    requires i < |order| && forall k :: k in order ==> k in m
    ensures text + (m[order[i]].line + ['\n']) + Render(order[i + 1..], m) == text + Render(order[i..], m)
  {
    assert order[i..][0] == order[i] && order[i..][1..] == order[i + 1..];
  }
}
