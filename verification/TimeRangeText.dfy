/** The TAMS text form of timestamps and time ranges: the parser and the
    printer of internal/timerange/timerange.go, and what each undoes of the other. */
module TimeRangeText {
  import opened Base
  import opened Decimal
  import opened TimeRanges

  datatype ParseError = NoColon | BadSeconds | BadNanoseconds | SecondsOutOfRange
                      | EmptyString | ExclusiveInstant

  /** The position of the first `c`, or the length when there is none. */
  function IndexOf(s: string, c: char): (k: nat)
    ensures k <= |s| && c !in s[..k] && (k < |s| ==> s[k] == c)
  {
    if s == "" || s[0] == c then 0
    else
      var k := IndexOf(s[1..], c) + 1;
      assert s[..k] == [s[0]] + s[1..][..k - 1];
      k
  }

  lemma {:induction false} IndexOfFirst(a: string, c: char, b: string)
    requires c !in a
    ensures IndexOf(a + [c] + b, c) == |a|
  {
    if a == "" {
    } else {
      IndexOfFirst(a[1..], c, b);
      assert (a + [c] + b)[1..] == a[1..] + [c] + b;
    }
  }

  lemma IndexOfAbsent(a: string, c: char)
    requires c !in a
    ensures IndexOf(a, c) == |a|
  {
  }

  // ----- Timestamps -----

  /** The value of a sign, a magnitude of seconds and nanoseconds. The sign
      applies to the whole value. */
  function Assemble(neg: bool, mag: int, ns: int): Result<Timestamp, ParseError>
    requires 0 <= mag && 0 <= ns < NS_PER_SEC
  {
    if mag > MAX_UINT64 then Err(SecondsOutOfRange)
    else if !neg || (mag == 0 && ns == 0) then
      if mag > MAX64 then Err(SecondsOutOfRange) else Ok(Timestamp(mag, ns))
    else if ns == 0 then
      if mag > MAX64 + 1 then Err(SecondsOutOfRange) else Ok(Timestamp(-(mag - 1) - 1, 0))
    else
      if mag > MAX64 then Err(SecondsOutOfRange) else Ok(Timestamp(-mag - 1, NS_PER_SEC - ns))
  }

  datatype Fields = Fields(neg: bool, secStr: string, nsStr: string)

  /** The sign and the text on either side of the first colon. */
  function Split(s: string): (r: Option<Fields>)
    ensures r.Some? ==> s == (if r.value.neg then "-" else "") + (r.value.secStr + [':'] + r.value.nsStr)
  {
    var neg := s != "" && s[0] == '-';
    var body := if neg then s[1..] else s;
    var k := IndexOf(body, ':');
    if k == |body| then None else Some(Fields(neg, body[..k], body[k + 1..]))
  }

  function ParseTimestamp(s: string): Result<Timestamp, ParseError> {
    var f := Split(s);
    if f.None? then Err(NoColon)
    else if !ValidInt(f.value.secStr) then Err(BadSeconds)
    else if !ValidNano(f.value.nsStr) then Err(BadNanoseconds)
    else
      ValidIsDigits(f.value.secStr);
      ValidIsDigits(f.value.nsStr);
      NanoNumerals(f.value.nsStr);
      Assemble(f.value.neg, Value(f.value.secStr), Value(f.value.nsStr))
  }

  function Format(ts: Timestamp): string {
    if ts.seconds >= 0 then Numeral(ts.seconds) + ":" + Numeral(ts.nanoseconds)
    else
      var magSec: Int64 := -(ts.seconds + 1);
      if ts.nanoseconds == 0 then "-" + Numeral(magSec + 1) + ":" + Numeral(0)
      else "-" + Numeral(magSec) + ":" + Numeral(NS_PER_SEC - ts.nanoseconds)
  }

  /** The spelling of a sign, seconds and nanoseconds. */
  function Written(neg: bool, mag: nat, ns: Nanos): string {
    (if neg then "-" else "") + (Numeral(mag) + [':'] + Numeral(ns))
  }

  function Signed(neg: bool, mag: nat, ns: Nanos): int {
    if neg then -(mag * NS_PER_SEC + ns) else mag * NS_PER_SEC + ns
  }

  lemma DigitsOnly(s: string)
    requires s != "" && AllDigits(s)
    ensures ':' !in s && s[0] != '-'
  {
  }

  lemma SplitJoined(neg: bool, secStr: string, nsStr: string)
    requires secStr != "" && AllDigits(secStr)
    ensures Split((if neg then "-" else "") + (secStr + [':'] + nsStr)) == Some(Fields(neg, secStr, nsStr))
  {
    hide IndexOf, AllDigits;
    var body := secStr + [':'] + nsStr;
    assert ':' !in secStr && secStr[0] != '-' by { DigitsOnly(secStr); }
    IndexOfFirst(secStr, ':', nsStr);
    assert body[..|secStr|] == secStr && body[|secStr| + 1..] == nsStr;
    if neg {
      var s := ['-'] + body;
      assert s[1..] == body;
    } else {
      assert "" + body == body && body[0] == secStr[0];
    }
  }

  lemma ParseWritten(neg: bool, mag: nat, ns: Nanos)
    ensures ParseTimestamp(Written(neg, mag, ns)) == Assemble(neg, mag, ns)
  {
    hide Split, ValidNano, Numeral, Value;
    SplitJoined(neg, Numeral(mag), Numeral(ns));
    NumeralIsValid(mag);
    NumeralIsValid(ns);
    ValueOfNumeral(mag);
    ValueOfNumeral(ns);
    NanoNumerals(Numeral(ns));
  }

  /** Nothing else is accepted: every accepted string is such a spelling. */
  lemma AcceptedIsWritten(s: string) returns (neg: bool, mag: nat, ns: Nanos)
    requires ParseTimestamp(s).Ok?
    ensures s == Written(neg, mag, ns) && ParseTimestamp(s) == Assemble(neg, mag, ns)
  {
    hide Split, Numeral, Value;
    var Fields(n, secStr, nsStr) := Split(s).value;
    ValidIsDigits(secStr);
    ValidIsDigits(nsStr);
    NanoNumerals(nsStr);
    neg, mag, ns := n, Value(secStr), Value(nsStr);
    NumeralOfValue(secStr);
    NumeralOfValue(nsStr);
  }

  /** The sign covers the whole value, and the only loss is a value whose floor
      of seconds leaves int64. */
  lemma AssembleIsSignedValue(neg: bool, mag: nat, ns: Nanos)
    ensures Assemble(neg, mag, ns).Ok? <==>
            MIN64 * NS_PER_SEC <= Signed(neg, mag, ns) < (MAX64 + 1) * NS_PER_SEC
    ensures var r := Assemble(neg, mag, ns); r.Ok? ==> Instant(r.value) == Signed(neg, mag, ns)
  {
  }

  /** The accepted timestamp strings and their values, in both directions. */
  lemma TimestampLanguage(s: string, ts: Timestamp)
    ensures ParseTimestamp(s) == Ok(ts) <==>
            exists neg, mag: nat, ns: Nanos :: s == Written(neg, mag, ns) && Instant(ts) == Signed(neg, mag, ns)
  {
    if ParseTimestamp(s) == Ok(ts) {
      var neg, mag, ns := AcceptedIsWritten(s);
      AssembleIsSignedValue(neg, mag, ns);
    }
    forall neg, mag: nat, ns: Nanos | s == Written(neg, mag, ns) && Instant(ts) == Signed(neg, mag, ns)
      ensures ParseTimestamp(s) == Ok(ts)
    {
      ParseWritten(neg, mag, ns);
      AssembleIsSignedValue(neg, mag, ns);
      BeforeIsOrder(ts, Assemble(neg, mag, ns).value);
    }
  }

  lemma FormatIsWritten(ts: Timestamp) returns (neg: bool, mag: nat, ns: Nanos)
    ensures Format(ts) == Written(neg, mag, ns) && Assemble(neg, mag, ns) == Ok(ts)
  {
    hide Numeral;
    neg := ts.seconds < 0;
    if !neg {
      mag, ns := ts.seconds, ts.nanoseconds;
    } else if ts.nanoseconds == 0 {
      mag, ns := 0 - ts.seconds as int, 0;
    } else {
      mag, ns := 0 - ts.seconds as int - 1, NS_PER_SEC - ts.nanoseconds;
    }
  }

  lemma TimestampRoundTrip(ts: Timestamp)
    ensures ParseTimestamp(Format(ts)) == Ok(ts)
  {
    var neg, mag, ns := FormatIsWritten(ts);
    ParseWritten(neg, mag, ns);
  }

  lemma ZeroSpellings()
    ensures Written(true, 0, 0) == "-0:0" && ParseTimestamp("-0:0") == Ok(Timestamp(0, 0))
    ensures Format(Timestamp(0, 0)) == "0:0" && "0:0" != "-0:0"
  {
    hide ParseTimestamp;
    assert Written(true, 0, 0) == "-0:0";
    ParseWritten(true, 0, 0);
    assert "0:0"[0] != "-0:0"[0];
  }

  /** Every accepted string but "-0:0" is the printed form of its value. */
  lemma TimestampTextRoundTrip(s: string)
    requires ParseTimestamp(s).Ok?
    ensures Format(ParseTimestamp(s).value) == s <==> s != "-0:0"
  {
    hide ParseTimestamp, Format, Written;
    ZeroSpellings();
    var neg, mag, ns := AcceptedIsWritten(s);
    var ts := ParseTimestamp(s).value;
    if !(neg && mag == 0 && ns == 0) {
      var neg', mag', ns' := FormatIsWritten(ts);
      assert neg == neg' && mag == mag' && ns == ns';
    }
  }

  /** A refused timestamp string lacks a colon, has a malformed field, or is the
      writing of a value whose seconds do not fit; the error says which. */
  lemma TimestampErrors(s: string)
    ensures ParseTimestamp(s) == Err(NoColon) <==> ':' !in s
    ensures ParseTimestamp(s) == Err(SecondsOutOfRange) <==>
              exists neg, mag: nat, ns: Nanos :: s == Written(neg, mag, ns) && Assemble(neg, mag, ns).Err?
  {
    hide Assemble, Written, ParseTimestamp, Split;
    ColonDecides(s);
    FieldsDecide(s);
    if ParseTimestamp(s) == Err(SecondsOutOfRange) {
      var neg, mag, ns := RefusedIsWritten(s);
    }
    forall neg, mag: nat, ns: Nanos | s == Written(neg, mag, ns) && Assemble(neg, mag, ns).Err?
      ensures ParseTimestamp(s) == Err(SecondsOutOfRange)
    {
      ParseWritten(neg, mag, ns);
      AssembleError(neg, mag, ns);
    }
  }

  lemma FieldsDecide(s: string)
    ensures ParseTimestamp(s) == Err(NoColon) <==> Split(s).None?
  {
    hide Split, ValidInt, ValidNano, Value;
  }

  lemma RefusedIsWritten(s: string) returns (neg: bool, mag: nat, ns: Nanos)
    requires ParseTimestamp(s) == Err(SecondsOutOfRange)
    ensures s == Written(neg, mag, ns) && Assemble(neg, mag, ns).Err?
  {
    hide Split, Assemble, Value, Numeral;
    var f := Split(s).value;
    ValidIsDigits(f.secStr);
    ValidIsDigits(f.nsStr);
    NanoNumerals(f.nsStr);
    neg, mag, ns := f.neg, Value(f.secStr), Value(f.nsStr);
    NumeralOfValue(f.secStr);
    hide ValidInt;
    NanoIsNumeral(f.nsStr);
  }

  lemma NanoIsNumeral(s: string)
    requires ValidNano(s) && AllDigits(s)
    ensures Numeral(Value(s)) == s
  {
    hide Numeral, Value;
    NumeralOfValue(s);
  }

  lemma AssembleError(neg: bool, mag: nat, ns: Nanos)
    ensures Assemble(neg, mag, ns).Err? ==> Assemble(neg, mag, ns).error == SecondsOutOfRange
  {
  }

  lemma ColonDecides(s: string)
    ensures Split(s).None? <==> ':' !in s
  {
    hide IndexOf;
    var body := if s != "" && s[0] == '-' then s[1..] else s;
    if ':' !in body { IndexOfAbsent(body, ':'); }
    assert ':' in s <==> ':' in body;
  }

  // ----- Ranges -----

  /** The pieces of a range string: an optional marker, timestamp, separator,
      timestamp and marker. */
  datatype Parts = Parts(startMarker: string, start: string, sep: bool, end: string, endMarker: string)

  function Body(p: Parts): string {
    if p.sep then p.start + ['_'] + p.end else p.start
  }

  function Spell(p: Parts): string {
    p.startMarker + (Body(p) + p.endMarker)
  }

  /** Free of markers and separators, as every timestamp is. */
  predicate Plain(s: string) {
    forall c :: c in s ==> c !in {'[', '(', ']', ')', '_'}
  }

  predicate Markers(sm: string, em: string) {
    (sm == "" || sm == "[" || sm == "(") && (em == "" || em == "]" || em == ")")
  }

  predicate Shaped(p: Parts) {
    && Markers(p.startMarker, p.endMarker)
    && Plain(p.start) && Plain(p.end) && (!p.sep ==> p.end == "")
  }

  /** What the pieces denote; a marker beside a missing timestamp is ignored. */
  function Denote(p: Parts): Result<TimeRange, ParseError> {
    if !p.sep && p.start == "" then Ok(EMPTY)
    else if !p.sep && (p.startMarker == "(" || p.endMarker == ")") then Err(ExclusiveInstant)
    else
      var s := if p.start == "" then Ok(Side(None, Unbounded)) else ParseSide(p.start, p.startMarker == "(");
      var e := if !p.sep then s else if p.end == "" then Ok(Side(None, Unbounded)) else ParseSide(p.end, p.endMarker == ")");
      if s.Err? then Err(s.error) else if e.Err? then Err(e.error) else Ok(Joined(s.value, e.value))
  }

  function ParseSide(s: string, exclusive: bool): Result<Side, ParseError> {
    var ts := ParseTimestamp(s);
    if ts.Err? then Err(ts.error) else Ok(Side(Some(ts.value), if exclusive then Exclusive else Inclusive))
  }

  function StartMarker(s: string): (m: string)
    ensures m <= s && Markers(m, "")
  {
    if s != "" && (s[0] == '[' || s[0] == '(') then [s[0]] else ""
  }

  function EndMarker(s: string): (m: string)
    ensures |m| <= |s| && s == s[..|s| - |m|] + m && Markers("", m)
  {
    if s != "" && (s[|s| - 1] == ']' || s[|s| - 1] == ')') then [s[|s| - 1]] else ""
  }

  /** The pieces of a marker-free body: the text around the first separator. */
  function CutBody(sm: string, body: string, em: string): (p: Parts)
    ensures Body(p) == body && p.startMarker == sm && p.endMarker == em && (!p.sep ==> p.end == "")
  {
    var k := IndexOf(body, '_');
    if k == |body| then Parts(sm, body, false, "", em) else Parts(sm, body[..k], true, body[k + 1..], em)
  }

  function Peel(s: string): Parts {
    var sm := StartMarker(s);
    var rest := s[|sm|..];
    var em := EndMarker(rest);
    CutBody(sm, rest[..|rest| - |em|], em)
  }

  lemma PeelSpells(s: string)
    ensures var p := Peel(s); Spell(p) == s && Markers(p.startMarker, p.endMarker) && (!p.sep ==> p.end == "")
  {
    hide CutBody, StartMarker, EndMarker;
    var sm := StartMarker(s);
    assert s == sm + s[|sm|..];
  }

  function ParseRange(s: string): Result<TimeRange, ParseError> {
    if s == "" then Err(EmptyString) else Denote(Peel(s))
  }

  lemma CutSpelled(p: Parts)
    requires '_' !in p.start && (!p.sep ==> p.end == "")
    ensures CutBody(p.startMarker, Body(p), p.endMarker) == p
  {
    if p.sep {
      IndexOfFirst(p.start, '_', p.end);
      assert Body(p)[..|p.start|] == p.start && Body(p)[|p.start| + 1..] == p.end;
    } else {
      IndexOfAbsent(p.start, '_');
    }
  }

  lemma PeelSpelled(p: Parts)
    requires Shaped(p)
    ensures Peel(Spell(p)) == p
  {
    var body := Body(p);
    var rest := body + p.endMarker;
    assert forall c :: c in body ==> c !in {'[', '(', ']', ')'};
    MarkersFound(p.startMarker, body, p.endMarker);
    assert (p.startMarker + rest)[|p.startMarker|..] == rest;
    assert rest[..|rest| - |p.endMarker|] == body;
    CutSpelled(p);
  }

  lemma MarkersFound(sm: string, body: string, em: string)
    requires Markers(sm, em) && forall c :: c in body ==> c !in {'[', '(', ']', ')'}
    ensures StartMarker(sm + (body + em)) == sm && EndMarker(body + em) == em
  {
    var rest := body + em;
    assert rest != "" ==> rest[0] in body || rest[0] in em;
    assert em == "" && rest != "" ==> rest[|rest| - 1] in body;
  }

  lemma WrittenIsPlain(neg: bool, mag: nat, ns: Nanos)
    ensures Plain(Written(neg, mag, ns)) && Written(neg, mag, ns) != ""
  {
    forall c | c in Written(neg, mag, ns) ensures c == '-' || c == ':' || IsDigit(c) {
      var sign := if neg then "-" else "";
      assert c in sign || c in Numeral(mag) + [':'] + Numeral(ns);
      assert c in sign || c in Numeral(mag) || c == ':' || c in Numeral(ns);
    }
  }

  lemma AcceptedIsPlain(s: string)
    requires ParseTimestamp(s).Ok?
    ensures Plain(s) && s != ""
  {
    var neg, mag, ns := AcceptedIsWritten(s);
    WrittenIsPlain(neg, mag, ns);
  }

  /** A side of a range: an omitted timestamp leaves it open whatever the marker, and
      a timestamp is inclusive unless its marker is the exclusive one. */
  predicate SideMeans(text: string, exclusive: bool, at: Option<Timestamp>, kind: BoundType) {
    if text == "" then at.None? && kind == Unbounded
    else at.Some? && ParseTimestamp(text) == Ok(at.value) && kind == if exclusive then Exclusive else Inclusive
  }

  /** What the pieces of a range mean, as the notation defines it: with a separator
      each side speaks for itself; without one, no timestamp is the empty range, and
      a timestamp is an instant, which takes no exclusive marker. */
  predicate Means(p: Parts, tr: TimeRange) {
    if p.sep then
      && SideMeans(p.start, p.startMarker == "(", tr.start, tr.startType)
      && SideMeans(p.end, p.endMarker == ")", tr.end, tr.endType)
    else if p.start == "" then tr == TimeRange(None, Exclusive, None, Exclusive)
    else
      && p.startMarker != "(" && p.endMarker != ")"
      && ParseTimestamp(p.start).Ok?
      && tr == TimeRange(Some(ParseTimestamp(p.start).value), Inclusive, Some(ParseTimestamp(p.start).value), Inclusive)
  }

  /** The accepted range strings and their values, in both directions. */
  lemma RangeLanguage(s: string, tr: TimeRange)
    ensures ParseRange(s) == Ok(tr) <==>
            s != "" && exists p :: Shaped(p) && Spell(p) == s && Means(p, tr)
  {
    hide ParseTimestamp, Peel, Spell;
    if ParseRange(s) == Ok(tr) {
      var p := Peel(s);
      PeelSpells(s);
      if p.start != "" { AcceptedIsPlain(p.start); }
      if p.end != "" { AcceptedIsPlain(p.end); }
      assert Shaped(p) && Means(p, tr);
    }
    forall p | Shaped(p) && Spell(p) == s && Means(p, tr) ensures s != "" ==> ParseRange(s) == Ok(tr) {
      PeelSpelled(p);
    }
  }

  /** The piece before the separator and the piece after it, spelled out. */
  lemma SpellsOut(sm: string, x: string, y: string, em: string)
    ensures Spell(Parts(sm, x, true, y, em)) == sm + x + "_" + y + em
    ensures Spell(Parts(sm, x, true, "", em)) == sm + x + "_" + em
    ensures Spell(Parts(sm, "", true, y, em)) == sm + "_" + y + em
    ensures Spell(Parts(sm, "", true, "", em)) == sm + "_" + em
    ensures Spell(Parts(sm, x, false, "", em)) == sm + x + em
    ensures Spell(Parts(sm, "", false, "", em)) == sm + em
  {
    assert sm + ((x + ['_'] + y) + em) == sm + x + "_" + y + em;
    assert sm + ((x + ['_'] + "") + em) == sm + x + "_" + em;
    assert sm + (("" + ['_'] + y) + em) == sm + "_" + y + em;
    assert sm + (("" + ['_'] + "") + em) == sm + "_" + em;
    assert sm + (x + em) == sm + x + em;
    assert sm + ("" + em) == sm + em;
  }

  function KindOf(exclusive: bool): BoundType { if exclusive then Exclusive else Inclusive }

  /** With a separator: a bound is exclusive exactly when its marker says so, an
      omitted marker is inclusive, and a marker beside an omitted timestamp is ignored. */
  lemma SeparatedForms(sm: string, x: string, y: string, em: string)
    requires sm in {"", "[", "("} && em in {"", "]", ")"}
    requires ParseTimestamp(x).Ok? && ParseTimestamp(y).Ok?
    ensures var a, b := ParseTimestamp(x).value, ParseTimestamp(y).value;
            && ParseRange(sm + x + "_" + y + em) == Ok(TimeRange(Some(a), KindOf(sm == "("), Some(b), KindOf(em == ")")))
            && ParseRange(sm + x + "_" + em) == Ok(TimeRange(Some(a), KindOf(sm == "("), None, Unbounded))
            && ParseRange(sm + "_" + y + em) == Ok(TimeRange(None, Unbounded, Some(b), KindOf(em == ")")))
            && ParseRange(sm + "_" + em) == Ok(TimeRange(None, Unbounded, None, Unbounded))
  {
    hide ParseTimestamp, ParseRange, Spell, Plain;
    AcceptedIsPlain(x);
    AcceptedIsPlain(y);
    assert Plain("") by { NothingIsPlain(); }
    SpellsOut(sm, x, y, em);
    SpelledParse(Parts(sm, x, true, y, em));
    SpelledParse(Parts(sm, x, true, "", em));
    SpelledParse(Parts(sm, "", true, y, em));
    SpelledParse(Parts(sm, "", true, "", em));
  }

  lemma NothingIsPlain()
    ensures Plain("")
  {
  }

  /** Without a separator: no timestamp is the empty range, a timestamp is the
      instant, and an instant with an exclusive marker is an error. */
  lemma UnseparatedForms(sm: string, x: string, em: string)
    requires sm in {"", "[", "("} && em in {"", "]", ")"} && ParseTimestamp(x).Ok?
    ensures var a := ParseTimestamp(x).value;
            ParseRange(sm + x + em) == if sm == "(" || em == ")" then Err(ExclusiveInstant)
                                       else Ok(TimeRange(Some(a), Inclusive, Some(a), Inclusive))
    ensures ParseRange(sm + em) == if sm + em == "" then Err(EmptyString) else Ok(TimeRange(None, Exclusive, None, Exclusive))
  {
    hide ParseTimestamp, ParseRange, Spell, Plain;
    AcceptedIsPlain(x);
    assert Plain("") by { NothingIsPlain(); }
    SpellsOut(sm, x, "", em);
    SpelledParse(Parts(sm, x, false, "", em));
    SpelledParse(Parts(sm, "", false, "", em));
    assert |sm + x + em| > 0;
  }

  lemma SpelledParse(p: Parts)
    requires Shaped(p)
    ensures ParseRange(Spell(p)) == if Spell(p) == "" then Err(EmptyString) else Denote(p)
  {
    hide Peel, Denote;
    PeelSpelled(p);
  }

  /** A timestamp that does not parse makes the range fail with its error, the start
      before the end. */
  lemma BadTimestamps(p: Parts)
    requires Shaped(p) && p.sep
    ensures p.start != "" && ParseTimestamp(p.start).Err? ==> ParseRange(Spell(p)) == Err(ParseTimestamp(p.start).error)
    ensures (p.start == "" || ParseTimestamp(p.start).Ok?) && p.end != "" && ParseTimestamp(p.end).Err? ==>
              ParseRange(Spell(p)) == Err(ParseTimestamp(p.end).error)
  {
    hide ParseTimestamp, Peel, ParseRange;
    SpelledParse(p);
    assert '_' in Body(p);
  }

  lemma ParsedIsWellFormed(s: string)
    requires ParseRange(s).Ok?
    ensures WellFormed(ParseRange(s).value)
  {
    hide ParseTimestamp, Peel;
  }

  // ----- Printing -----

  function PrintParts(tr: TimeRange): Parts {
    if IsEmpty(tr) then Parts("(", "", false, "", ")")
    else if tr.start.Some? && tr.start == tr.end then Parts("[", Format(tr.start.value), false, "", "]")
    else Parts(if tr.start.None? then "" else if tr.startType == Exclusive then "(" else "[",
               if tr.start.None? then "" else Format(tr.start.value), true,
               if tr.end.None? then "" else Format(tr.end.value),
               if tr.end.None? then "" else if tr.endType == Exclusive then ")" else "]")
  }

  /** The canonical text of a range. */
  function RangeText(tr: TimeRange): string {
    Spell(PrintParts(tr))
  }

  lemma FormatIsPlain(ts: Timestamp)
    ensures Plain(Format(ts)) && Format(ts) != ""
  {
    TimestampRoundTrip(ts);
    AcceptedIsPlain(Format(ts));
  }

  lemma PrintedPartsDenote(tr: TimeRange)
    requires WellFormed(tr)
    ensures Shaped(PrintParts(tr)) && Denote(PrintParts(tr)) == Ok(Canonical(tr))
  {
    hide ParseTimestamp, Format;
    if tr.start.Some? { FormatIsPlain(tr.start.value); TimestampRoundTrip(tr.start.value); }
    if tr.end.Some? { FormatIsPlain(tr.end.value); TimestampRoundTrip(tr.end.value); }
  }

  lemma PrintsSomething(tr: TimeRange)
    ensures RangeText(tr) != ""
  {
    hide Format, IsEmpty;
    assert PrintParts(tr).startMarker != "" || '_' in Body(PrintParts(tr));
  }

  /** Parsing undoes printing on every non-empty range, and takes every empty one to `()`. */
  lemma RangeRoundTrip(tr: TimeRange)
    requires WellFormed(tr)
    ensures ParseRange(RangeText(tr)) == Ok(Canonical(tr))
  {
    hide PrintParts, Denote, Peel;
    PrintedPartsDenote(tr);
    PeelSpelled(PrintParts(tr));
    PrintsSomething(tr);
  }

  /** The canonical text, form by form. */
  lemma PrintedForms(tr: TimeRange)
    requires WellFormed(tr)
    ensures Instants(tr) == iset{} ==> RangeText(tr) == "()"
    ensures Instants(tr) != iset{} ==>
              var open, close := if tr.startType == Exclusive then "(" else "[", if tr.endType == Exclusive then ")" else "]";
              RangeText(tr) ==
                if tr.start.None? && tr.end.None? then "_"
                else if tr.start.None? then "_" + Format(tr.end.value) + close
                else if tr.end.None? then open + Format(tr.start.value) + "_"
                else if tr.start == tr.end then "[" + Format(tr.start.value) + "]"
                else open + Format(tr.start.value) + "_" + Format(tr.end.value) + close
  {
    hide Format, Spell, IsEmpty;
    EmptyMeansNoInstant(tr);
    var x := if tr.start.None? then "" else Format(tr.start.value);
    var y := if tr.end.None? then "" else Format(tr.end.value);
    var p := PrintParts(tr);
    SpellsOut(p.startMarker, x, y, p.endMarker);
    assert "(" + ")" == "()";
    assert "" + "_" + "" == "_";
    assert "" + "_" + y + p.endMarker == "_" + y + p.endMarker;
    assert p.startMarker + x + "_" + "" == p.startMarker + x + "_";
  }

  // ----- The imperative forms -----

  method PeelMarkers(s: string) returns (startMarker: string, body: string, endMarker: string)
    requires s != ""
    ensures Peel(s) == CutBody(startMarker, body, endMarker)
  {
    hide CutBody;
    body := s;
    startMarker, endMarker := "", "";
    if body[0] == '[' || body[0] == '(' {
      startMarker := [body[0]];
      body := body[1..];
    }
    ghost var rest := s[|startMarker|..];
    assert body == rest && startMarker == StartMarker(s);
    var n := |body|;
    if n > 0 && (body[n - 1] == ']' || body[n - 1] == ')') {
      endMarker := [body[n - 1]];
      body := body[..n - 1];
    }
    assert endMarker == EndMarker(rest) && body == rest[..|rest| - |endMarker|];
  }

  /** Parse peels the markers off a local string and fills in the range. */
  method Parse(s: string) returns (r: Result<TimeRange, ParseError>)
    ensures r == ParseRange(s)
  {
    hide ParseTimestamp, Peel;
    if s == "" { return Err(EmptyString); }
    var startMarker, body, endMarker := PeelMarkers(s);
    var k := IndexOf(body, '_');
    if k == |body| {
      if body == "" { return Ok(EMPTY); }
      if startMarker == "(" || endMarker == ")" { return Err(ExclusiveInstant); }
      var ts := ParseTimestamp(body);
      if ts.Err? { return Err(ts.error); }
      return Ok(TimeRange(Some(ts.value), Inclusive, Some(ts.value), Inclusive));
    }
    var tr := ETERNITY;
    if body[..k] != "" {
      var ts := ParseTimestamp(body[..k]);
      if ts.Err? { return Err(ts.error); }
      tr := tr.(start := Some(ts.value), startType := Inclusive);
      if startMarker == "(" { tr := tr.(startType := Exclusive); }
    }
    if body[k + 1..] != "" {
      var ts := ParseTimestamp(body[k + 1..]);
      if ts.Err? { return Err(ts.error); }
      tr := tr.(end := Some(ts.value), endType := Inclusive);
      if endMarker == ")" { tr := tr.(endType := Exclusive); }
    }
    return Ok(tr);
  }

  /** String writes the canonical text piece by piece. */
  method Render(tr: TimeRange) returns (b: string)
    requires WellFormed(tr)
    ensures b == RangeText(tr)
  {
    hide Format;
    if IsEmpty(tr) { return "()"; }
    if IsEternity(tr) { return "_"; }
    if tr.start.Some? && tr.end.Some? && tr.start == tr.end {
      return "[" + Format(tr.start.value) + "]";
    }
    b := "";
    if tr.start.Some? {
      b := b + if tr.startType == Exclusive then "(" else "[";
      b := b + Format(tr.start.value);
    }
    b := b + "_";
    if tr.end.Some? {
      b := b + Format(tr.end.value);
      b := b + if tr.endType == Exclusive then ")" else "]";
    }
  }
}
