/** How a secret's value is written to and read from an env file: the printer and
    the escape-state scanners of src/boxmunge/secrets.py. */
module SecretsCodec {
  import opened Options

  function Escape(value: string): string {
    if value == "" then ""
    else if value[0] == '\'' then "\\'" + Escape(value[1..]) else [value[0]] + Escape(value[1..])
  }

  function Encode(value: string): string {
    "'" + Escape(value) + "'"
  }

  /** What the single-quote scanner makes of the text after the opening quote. */
  function Scan(text: string, escaped: bool): Option<string> {
    if text == "" then None
    else if text[0] == '\'' && !escaped then (if |text| == 1 then Some("") else None)
    else
      var rest := Scan(text[1..], !escaped && text[0] == '\\');
      if rest.None? then None
      else if escaped then Some((if text[0] == '\'' then "'" else ['\\', text[0]]) + rest.value)
      else if text[0] == '\\' then rest
      else Some([text[0]] + rest.value)
  }

  function Decode(text: string): Option<string> {
    if "'" <= text then Scan(text[1..], false) else None
  }

  function After(out: string, rest: Option<string>): Option<string> {
    if rest.None? then None else Some(out + rest.value)
  }

  lemma AfterAfter(out: string, piece: string, rest: Option<string>)
    ensures After(out, After(piece, rest)) == After(out + piece, rest)
  {
    if rest.Some? {
      assert out + (piece + rest.value) == out + piece + rest.value;
    }
  }

  lemma Cancel(piece: string, got: Option<string>, want: string)
    ensures After(piece, got) == Some(piece + want) <==> got == Some(want)
  {
    if After(piece, got) == Some(piece + want) {
      assert (piece + got.value)[|piece|..] == got.value && (piece + want)[|piece|..] == want;
    }
  }

  /** secrets._decode_single_quoted. */
  method DecodeSingleQuoted(text: string) returns (r: Option<string>)
    ensures r == Decode(text)
  {
    if !("'" <= text) {
      return None;
    }
    var out, escaped := "", false;
    assert forall v: string :: "" + v == v;
    for i := 1 to |text|
      invariant Decode(text) == After(out, Scan(text[i..], escaped))
    {
      ghost var here := text[i..];
      assert here[0] == text[i] && here[1..] == text[i + 1..];
      if text[i] == '\'' && !escaped {
        assert out + "" == out;
        return if i == |text| - 1 then Some(out) else None;
      }
      ghost var rest := Scan(text[i + 1..], !escaped && text[i] == '\\');
      if escaped {
        escaped := false;
        var piece := if text[i] == '\'' then "'" else ['\\', text[i]];
        AfterAfter(out, piece, rest);
        out := out + piece;
      } else if text[i] == '\\' {
        escaped := true;
      } else {
        AfterAfter(out, [text[i]], rest);
        out := out + [text[i]];
      }
    }
    return None;
  }

  // ---------------------------------------------------------------------
  // The codec is a bijection
  // ---------------------------------------------------------------------

  /** Length of the maximal run of backslashes that ends right before `i`. */
  function RunBefore(value: string, i: nat): nat
    requires i <= |value|
  {
    if i == 0 || value[i - 1] != '\\' then 0 else 1 + RunBefore(value, i - 1)
  }

  predicate EvenRunsFrom(value: string, from: nat)
    requires from <= |value|
  {
    forall i | from <= i <= |value| && (i == |value| || value[i] == '\'') :: RunBefore(value, i) % 2 == 0
  }

  /** No odd run of backslashes at the end or right before a single quote. */
  predicate Carriable(value: string) {
    EvenRunsFrom(value, 0)
  }

  function Piece(c: char, escaped: bool): string {
    if escaped then (if c == '\'' then "'" else ['\\', c]) else if c == '\\' then "" else [c]
  }

  lemma ScanStep(c: char, tail: string, escaped: bool)
    requires c != '\'' || escaped
    ensures Scan([c] + tail, escaped) == After(Piece(c, escaped), Scan(tail, !escaped && c == '\\'))
  {
    assert ([c] + tail)[1..] == tail;
    assert forall v: string :: "" + v == v;
  }

  function Pending(escaped: bool): string {
    if escaped then "\\" else ""
  }

  function Closed(value: string): string {
    Escape(value) + "'"
  }

  /** The scanner's output for one escaped character. */
  function Read(c: char, odd: bool): string {
    if c == '\'' then "'" else Piece(c, odd)
  }

  lemma ScanOfEscapeStep(c: char, tail: string, odd: bool)
    ensures Scan(Closed([c] + tail), odd) == if c == '\'' && odd then None
                                             else After(Read(c, odd), Scan(Closed(tail), !odd && c == '\\'))
  {
    assert ([c] + tail)[1..] == tail;
    var end := Closed(tail);
    if c == '\'' {
      assert Closed([c] + tail) == ['\\'] + (['\''] + end);
      ScanStep('\\', ['\''] + end, odd);
      if odd {
        assert |['\''] + end| > 1;
      } else {
        ScanStep('\'', end, true);
        AfterAfter("", "'", Scan(end, false));
      }
    } else {
      assert Closed([c] + tail) == [c] + end;
      ScanStep(c, end, odd);
    }
  }

  lemma ReadGlue(c: char, tail: string, odd: bool)
    requires c != '\'' || !odd
    ensures Read(c, odd) + (Pending(!odd && c == '\\') + tail) == Pending(odd) + ([c] + tail)
  {
    assert Pending(false) + tail == tail && Pending(false) + ([c] + tail) == [c] + tail;
    if odd {
      assert Pending(true) + ([c] + tail) == ['\\', c] + tail;
    } else if c == '\\' {
      assert "" + (Pending(true) + tail) == Pending(true) + tail;
    }
  }

  predicate OddBefore(value: string, i: nat)
    requires i <= |value|
  {
    RunBefore(value, i) % 2 == 1
  }

  lemma EvenRunsStep(value: string, i: nat)
    requires i < |value|
    ensures OddBefore(value, i + 1) <==> value[i] == '\\' && !OddBefore(value, i)
    ensures EvenRunsFrom(value, i) <==> (value[i] == '\'' ==> !OddBefore(value, i)) && EvenRunsFrom(value, i + 1)
  {
  }

  lemma EvenRunsEnd(value: string)
    ensures EvenRunsFrom(value, |value|) <==> !OddBefore(value, |value|)
  {
  }

  /** Scanning the stored form of this value, after an odd run of backslashes or
      not, gives it back. */
  predicate ComesBack(value: string, odd: bool) {
    Scan(Closed(value), odd) == Some(Pending(odd) + value)
  }

  lemma QuoteComesBack(tail: string, odd: bool)
    ensures ComesBack(['\''] + tail, odd) <==> !odd && ComesBack(tail, false)
  {
    ScanOfEscapeStep('\'', tail, odd);
    if !odd {
      Cancel(Read('\'', false), Scan(Closed(tail), false), Pending(false) + tail);
      ReadGlue('\'', tail, false);
    }
  }

  lemma OtherComesBack(c: char, tail: string, odd: bool)
    requires c != '\''
    ensures ComesBack([c] + tail, odd) <==> ComesBack(tail, !odd && c == '\\')
  {
    var next := !odd && c == '\\';
    ScanOfEscapeStep(c, tail, odd);
    Cancel(Read(c, odd), Scan(Closed(tail), next), Pending(next) + tail);
    ReadGlue(c, tail, odd);
  }

  lemma NextComesBack(c: char, tail: string, odd: bool)
    ensures ComesBack([c] + tail, odd) <==> (c == '\'' ==> !odd) && ComesBack(tail, !odd && c == '\\')
  {
    if c == '\'' {
      QuoteComesBack(tail, odd);
    } else {
      OtherComesBack(c, tail, odd);
    }
  }

  lemma NothingComesBack(odd: bool)
    ensures ComesBack("", odd) <==> !odd
  {
    assert Closed("") == "'" && "'"[1..] == "" && Pending(false) + "" == "";
    assert Scan("'", odd) == if odd then None else Some("");
  }

  lemma {:induction false} ScanOfEscape(value: string, i: nat)
    requires i <= |value|
    ensures ComesBack(value[i..], OddBefore(value, i)) <==> EvenRunsFrom(value, i)
    decreases |value| - i
  {
    if i == |value| {
      assert value[i..] == "";
      NothingComesBack(OddBefore(value, i));
      EvenRunsEnd(value);
    } else {
      var c, tail := value[i], value[i + 1..];
      assert value[i..] == [c] + tail;
      EvenRunsStep(value, i);
      ScanOfEscape(value, i + 1);
      NextComesBack(c, tail, OddBefore(value, i));
    }
  }

  /** A value comes back from its stored form exactly when it has no odd run of
      backslashes at its end or right before a single quote. */
  lemma DecodeUndoesEncode(value: string)
    ensures Decode(Encode(value)) == Some(value) <==> Carriable(value)
  {
    ScanOfEscape(value, 0);
    assert value[0..] == value && Encode(value)[1..] == Closed(value);
    assert Pending(false) + value == value;
  }

  lemma EscapeStep(piece: string, tail: string)
    requires |piece| <= 1 || (|piece| == 2 && piece[0] == '\\' && piece[1] != '\'')
    ensures Escape(piece + tail) == (if piece == "'" then ['\\', '\''] else piece) + Escape(tail)
  {
    if |piece| == 0 {
      assert piece + tail == tail;
    } else {
      assert (piece + tail)[1..] == piece[1..] + tail;
      if |piece| == 1 {
        assert piece[1..] + tail == tail && piece == [piece[0]];
      } else {
        assert (piece[1..] + tail)[1..] == tail;
        assert piece == [piece[0]] + [piece[1]];
      }
    }
  }

  lemma {:induction false} EscapeOfScan(text: string, escaped: bool)
    requires Scan(text, escaped).Some?
    ensures Pending(escaped) + text == Closed(Scan(text, escaped).value)
    decreases |text|
  {
    var c, tail := text[0], text[1..];
    assert text == [c] + tail;
    if c == '\'' && !escaped {
      assert Pending(escaped) + text == "'" == Closed("");
    } else {
      ScanStep(c, tail, escaped);
      var next := !escaped && c == '\\';
      var rest := Scan(tail, next).value;
      EscapeOfScan(tail, next);
      EscapeStep(Piece(c, escaped), rest);
      assert Scan(text, escaped).value == Piece(c, escaped) + rest;
      Glue(c, tail, escaped, Escape(rest));
    }
  }

  /** What is written for one scanned character. */
  function Written(c: char, escaped: bool): string {
    if escaped then ['\\', c] else if c == '\\' then "" else [c]
  }

  lemma Glue(c: char, tail: string, escaped: bool, body: string)
    requires Pending(!escaped && c == '\\') + tail == body + "'"
    ensures Pending(escaped) + ([c] + tail) == (Written(c, escaped) + body) + "'"
  {
    assert (Written(c, escaped) + body) + "'" == Written(c, escaped) + (body + "'");
    if escaped {
      assert Pending(false) + tail == tail;
      assert Pending(true) + ([c] + tail) == ['\\', c] + tail;
    } else if c == '\\' {
      assert "" + (body + "'") == body + "'";
      assert Pending(false) + ([c] + tail) == Pending(true) + tail;
    } else {
      assert Pending(false) + tail == tail && Pending(false) + ([c] + tail) == [c] + tail;
    }
  }

  /** Every text that decodes is the stored form of what it decodes to, so no
      two texts decode alike, and what decodes is always a value that can be
      carried. */
  lemma EncodeUndoesDecode(text: string)
    requires Decode(text).Some?
    ensures Encode(Decode(text).value) == text && Carriable(Decode(text).value)
  {
    EscapeOfScan(text[1..], false);
    var value := Decode(text).value;
    assert text == "'" + text[1..] && "" + text[1..] == text[1..];
    assert "'" + (Escape(value) + "'") == Encode(value);
    DecodeUndoesEncode(value);
  }

  // ---------------------------------------------------------------------
  // Values that can run on into the next lines
  // ---------------------------------------------------------------------

  /** Python's str.isspace for one character. */
  predicate IsSpace(c: char) {
    var n := c as int;
    (9 <= n <= 13) || (28 <= n <= 32) || n == 0x85 || n == 0xa0 || n == 0x1680 || (0x2000 <= n <= 0x200a)
    || n == 0x2028 || n == 0x2029 || n == 0x202f || n == 0x205f || n == 0x3000
  }

  function LStrip(s: string): string {
    if s != "" && IsSpace(s[0]) then LStrip(s[1..]) else s
  }

  function RStrip(s: string): string {
    if s != "" && IsSpace(s[|s| - 1]) then RStrip(s[..|s| - 1]) else s
  }

  function Strip(s: string): string {
    RStrip(LStrip(s))
  }

  /** True unless the closing quote is the last character of the text. */
  function RunsOn(text: string, quote: char, escaped: bool): bool {
    if text == "" then true
    else if escaped then RunsOn(text[1..], quote, false)
    else if text[0] == '\\' then RunsOn(text[1..], quote, true)
    else if text[0] == quote then |text| != 1
    else RunsOn(text[1..], quote, false)
  }

  function MaySpan(raw: string): bool {
    var text := LStrip(raw);
    ("'" <= text || "\"" <= text) && RunsOn(text[1..], text[0], false)
  }

  /** secrets._may_span_lines. */
  method MaySpanLines(raw: string) returns (r: bool)
    ensures r == MaySpan(raw)
  {
    var text := LStrip(raw);
    if !("'" <= text || "\"" <= text) {
      return false;
    }
    var escaped := false;
    for i := 1 to |text|
      invariant RunsOn(text[1..], text[0], false) == RunsOn(text[i..], text[0], escaped)
    {
      assert text[i..][0] == text[i] && text[i..][1..] == text[i + 1..];
      if escaped {
        escaped := false;
      } else if text[i] == '\\' {
        escaped := true;
      } else if text[i] == text[0] {
        return i != |text| - 1;
      }
    }
    return true;
  }

  /** The text holds the quote that opened it, not escaped, at `i`: an even run of
      backslashes is right before it, counted after the opening quote. */
  predicate ClosesAt(text: string, i: nat)
    requires i < |text|
  {
    i > 0 && text[i] == text[0] && RunBefore(text[1..], i - 1) % 2 == 0
  }

  /** An odd run of backslashes right before `i` is what the scanner escapes by. */
  lemma {:induction false} RunsOnUnlessClosed(text: string, i: nat)
    requires 1 <= i <= |text| && text[0] != '\\'
    requires forall j :: 1 <= j < i ==> !ClosesAt(text, j)
    ensures RunsOn(text[i..], text[0], OddBefore(text[1..], i - 1))
            <==> !exists e :: i <= e == |text| - 1 && ClosesAt(text, e) && forall j :: i <= j < e ==> !ClosesAt(text, j)
    decreases |text| - i
  {
    if i < |text| {
      assert text[i..][0] == text[i] && text[i..][1..] == text[i + 1..];
      assert text[1..][i - 1] == text[i];
      if !ClosesAt(text, i) {
        RunsOnUnlessClosed(text, i + 1);
      }
    }
  }

  lemma {:induction false} LStripped(s: string) returns (k: nat)
    ensures k <= |s| && LStrip(s) == s[k..] && (forall i :: 0 <= i < k ==> IsSpace(s[i]))
    ensures k < |s| ==> !IsSpace(s[k])
  {
    k := 0;
    if s != "" && IsSpace(s[0]) {
      k := LStripped(s[1..]);
      k := k + 1;
    }
  }

  /** A value may span lines unless it is unquoted, or the first quote of its own
      kind that no backslash escapes is the last character. What is before the
      opening quote is white space. */
  lemma SpansUnlessClosedAtTheEnd(raw: string) returns (k: nat)
    ensures k <= |raw| && (forall i :: 0 <= i < k ==> IsSpace(raw[i])) && (k < |raw| ==> !IsSpace(raw[k]))
    ensures var text := raw[k..];
            MaySpan(raw) <==> && ("'" <= text || "\"" <= text)
                              && !(&& ClosesAt(text, |text| - 1)
                                   && forall i :: 0 <= i < |text| - 1 ==> !ClosesAt(text, i))
  {
    k := LStripped(raw);
    var text := raw[k..];
    if "'" <= text || "\"" <= text {
      RunsOnUnlessClosed(text, 1);
    }
  }

  lemma {:induction false} ScanUnlessRunsOn(text: string, escaped: bool)
    ensures Scan(text, escaped).Some? <==> !RunsOn(text, '\'', escaped)
    decreases |text|
  {
    if text != "" && (escaped || text[0] != '\'') {
      ScanUnlessRunsOn(text[1..], !escaped && text[0] == '\\');
    }
  }

  /** A text that starts with a single quote decodes exactly when it cannot run
      on into the next line: the two scanners agree. */
  lemma DecodesExactlyUnlessItSpans(text: string)
    requires "'" <= text
    ensures Decode(text).Some? <==> !MaySpan(text)
  {
    assert LStrip(text) == text;
    ScanUnlessRunsOn(text[1..], false);
  }
}
