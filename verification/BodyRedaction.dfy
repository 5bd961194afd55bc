/**
 One message body, redacted and stored: `redact_message_body`. The server runs the same code again on what it
 receives, so the stored form has to survive being processed as if it were new.
 */
module BodyRedaction {
  import opened Options
  import opened Text
  import opened Utf8
  import opened Settle
  import opened JsonRedaction
  import opened PasswordRule
  import opened PasswordRounds
  import opened PasswordSettle

  const BODY_WIRE_MAX_BYTES: nat := 65536
  const BODY_STORED_MAX_BYTES: nat := 16384
  const OMITTED_DIGITS_MAX: nat := 15
  const MARKER_HEAD: string := "\U{2026}[truncated: "
  const MARKER_TAIL: string := " bytes not stored]"

  datatype State = Parsed | NotJson | Empty | TooLarge

  datatype Body = Body(
    text: Option<string>, redactions: nat, schema: Option<seq<Field>>, state: State, truncated: bool, bodyBytes: nat)

  /** The text rules with the JSON reader and writer (NaN, infinities and out-of-range numbers refused). */
  datatype Codec = Codec(rules: Rules, parse: string -> Option<Json>, dump: Json -> string)

  /** What is written reads back as the same value, and its text is neither blank nor holds U+0000. */
  ghost predicate WritesBack(c: Codec, v: Json) {
    c.parse(c.dump(v)) == Some(v) && !Blank(c.dump(v)) && NulFree(c.dump(v))
  }

  /** Besides the text rules: whatever the reader accepts can, once walked, be written and read again. Nothing is
      asked of values the reader never gives, such as a number that is no number. */
  ghost predicate Faithful(c: Codec) {
    && Lawful(c.rules)
    && (forall text :: c.parse(text).Some? ==> WritesBack(c, Walk(c.rules, c.parse(text).value, 1)))
  }

  function Marker(omitted: nat): string {
    MARKER_HEAD + Decimal(omitted) + MARKER_TAIL
  }

  const REDACTED_HEAD: string := "[REDACTED"

  predicate StartsMarked(text: string) {
    REDACTED_HEAD <= text
  }

  /** `text.count("[REDACTED")`: the marker cannot overlap itself. */
  function Markers(text: string): nat {
    if text == [] then 0 else (if StartsMarked(text) then 1 else 0) + Markers(text[1..])
  }

  /** The places a marker starts at. */
  function MarkedPlaces(text: string): set<nat> {
    set i: nat | i < |text| && StartsMarked(text[i..])
  }

  /** What is counted is the number of those places. */
  lemma {:induction false} MarkersCounted(text: string)
    ensures Markers(text) == |MarkedPlaces(text)|
  {
    hide StartsMarked;
    if text == [] {
      assert MarkedPlaces(text) == {};
    } else {
      var rest := text[1..];
      MarkersCounted(rest);
      var later := Shifted(MarkedPlaces(rest));
      ShiftedPlaces(MarkedPlaces(rest));
      assert text[0..] == text;
      forall i: nat | i < |rest| ensures text[i + 1..] == rest[i..] {
      }
      forall i: nat
        ensures i in MarkedPlaces(text) <==> i in later || (i == 0 && StartsMarked(text))
      {
        if 0 < i < |text| {
          assert text[i..] == rest[i - 1..];
          assert i in later <==> i - 1 in MarkedPlaces(rest);
        }
      }
      assert MarkedPlaces(text) == later + (if StartsMarked(text) then {0} else {});
      assert 0 !in later;
    }
  }

  function Shifted(places: set<nat>): (later: set<nat>)
    ensures forall i: nat :: i in later <==> i > 0 && i - 1 in places
  {
    var later: set<nat> := set i | i in places :: i + 1;
    assert forall j: nat :: j in places ==> j + 1 in later;
    later
  }

  lemma {:induction false} ShiftedPlaces(places: set<nat>)
    ensures |Shifted(places)| == |places|
    decreases |places|
  {
    if places == {} {
      assert Shifted(places) == {};
    } else {
      var p :| p in places;
      ShiftedPlaces(places - {p});
      assert Shifted(places) == Shifted(places - {p}) + {p + 1};
    }
  }

  function StoreSettled(c: Codec, text: string): string {
    Settled(c.rules.textPass, ByteCut(BODY_STORED_MAX_BYTES), text)
  }

  /** What is stored fits the store, whatever the text rules do. */
  lemma StoreSettledFits(c: Codec, text: string)
    ensures Size(StoreSettled(c, text)) <= BODY_STORED_MAX_BYTES
  {
    SettledIsCut(c.rules.textPass, ByteCut(BODY_STORED_MAX_BYTES), text);
    var x :| StoreSettled(c, text) == ByteCut(BODY_STORED_MAX_BYTES)(x);
    CutBytesLongestPrefix(x, BODY_STORED_MAX_BYTES);
  }

  function TrailingDigits(s: string): (k: nat)
    ensures k <= |s| && AllDigits(s[|s| - k..])
  {
    if s != [] && IsDigit(s[|s| - 1]) then 1 + TrailingDigits(s[..|s| - 1]) else 0
  }

  predicate EndsWith(s: string, suffix: string) {
    |suffix| <= |s| && s[|s| - |suffix|..] == suffix
  }

  /** The truncation marker at the end of a text: what stands before it, and its number. */
  function MarkerAtEnd(text: string): Option<(string, nat)> {
    if !EndsWith(text, MARKER_TAIL) then None
    else
      var before := text[..|text| - |MARKER_TAIL|];
      var k := TrailingDigits(before);
      var head := before[..|before| - k];
      if !(1 <= k <= OMITTED_DIGITS_MAX) || !EndsWith(head, MARKER_HEAD) then None
      else Some((head[..|head| - |MARKER_HEAD|], ParseDecimal(before[|before| - k..])))
  }

  /** A stored copy comes back: it says so, ends in a marker, and what it kept fits the store. */
  function AlreadyStored(text: string, truncated: bool): Option<(string, nat)> {
    if !truncated then None
    else
      match MarkerAtEnd(text)
      case None => None
      case Some(found) => if Size(found.0) > BODY_STORED_MAX_BYTES then None else Some(found)
  }

  function Largest(a: nat, b: nat): nat {
    if a < b then b else a
  }

  function StoredAgain(c: Codec, kept: string, omitted: nat, bodyBytes: nat, schema: Option<seq<Field>>,
                       state: Option<State>): Body
  {
    var settled := StoreSettled(c, kept);
    var carried := if state in {Some(Parsed), Some(NotJson), Some(TooLarge)} then state.value else TooLarge;
    var carriedSchema :=
      if carried == Parsed && schema.Some? then Some(SanitisedSchema(schema.value)) else None;
    var finalState := if carried == Parsed && carriedSchema.None? then TooLarge else carried;
    Body(Some(settled + Marker(omitted)), Markers(settled), carriedSchema, finalState, true,
         Largest(Size(settled) + omitted, bodyBytes))
  }

  /** The redacted text of a fresh body with its schema and state, before the store limit. */
  datatype Fresh = Fresh(full: string, schema: Option<seq<Field>>, state: State, incomplete: bool)

  function Redacted(c: Codec, text: string, truncated: bool): Fresh {
    if Size(text) > BODY_WIRE_MAX_BYTES then
      Fresh(c.rules.textPass(CutBytes(text, BODY_WIRE_MAX_BYTES)), None, TooLarge, true)
    else if truncated then Fresh(c.rules.textPass(text), None, TooLarge, true)
    else
      match c.parse(text)
      case None => Fresh(c.rules.textPass(text), None, NotJson, false)
      case Some(v) =>
        var walked := Walk(c.rules, v, 1);
        Fresh(c.dump(walked), Some(Schema(walked)), Parsed, false)
  }

  function Store(c: Codec, received: nat, f: Fresh, bodyBytes: nat): Body {
    var size := Largest(Largest(received, Size(f.full)), bodyBytes);
    if Size(f.full) <= BODY_STORED_MAX_BYTES then
      Body(Some(f.full), Markers(f.full), f.schema, f.state, f.incomplete, size)
    else
      StoreSettledFits(c, f.full);
      var kept := StoreSettled(c, f.full);
      var omitted := Largest(received, Size(f.full)) - Size(kept);
      Body(Some(kept + Marker(omitted)), Markers(kept), f.schema, f.state, true, size)
  }

  /** `redact_message_body`. `bodyBytes` is the usable size (0 for anything else). */
  function RedactBody(c: Codec, text: Option<string>, truncated: bool, bodyBytes: nat, schema: Option<seq<Field>>,
                      state: Option<State>): Body
  {
    if text.None? then Body(None, 0, None, Empty, truncated, 0)
    else
      var clean := Clean(text.value);
      match AlreadyStored(clean, truncated)
      case Some(found) => StoredAgain(c, found.0, found.1, bodyBytes, schema, state)
      case None =>
        if Blank(clean) then Body(Some(clean), 0, None, Empty, truncated, Largest(Size(clean), bodyBytes))
        else Store(c, Size(clean), Redacted(c, clean, truncated), bodyBytes)
  }

  /** The server's pass over what the client stored. */
  function Again(c: Codec, b: Body): Body {
    RedactBody(c, b.text, b.truncated, b.bodyBytes, b.schema, Some(b.state))
  }

  // ----- The marker reads back -----

  lemma {:induction false} TrailingDigitsOf(a: string, d: string)
    requires AllDigits(d) && (a == [] || !IsDigit(a[|a| - 1]))
    ensures TrailingDigits(a + d) == |d|
    decreases |d|
  {
    if d == [] {
      assert a + d == a;
    } else {
      assert (a + d)[..|a + d| - 1] == a + d[..|d| - 1];
      TrailingDigitsOf(a, d[..|d| - 1]);
    }
  }

  /** A marker with at most fifteen digits is found again, with its number; a longer one is not. */
  lemma MarkerFound(kept: string, omitted: nat)
    ensures MarkerAtEnd(kept + Marker(omitted))
         == if omitted < Pow10(OMITTED_DIGITS_MAX) then Some((kept, omitted)) else None
  {
    var d := Decimal(omitted);
    DecimalRoundTrip(omitted);
    DecimalLength(omitted, OMITTED_DIGITS_MAX);
    var head := kept + MARKER_HEAD;
    var text := kept + Marker(omitted);
    hide Decimal, ParseDecimal, Pow10;
    assert text == head + d + MARKER_TAIL;
    assert text[..|text| - |MARKER_TAIL|] == head + d;
    assert head[|head| - 1] == ' ';
    TrailingDigitsOf(head, d);
    hide TrailingDigits;
    assert (head + d)[..|head|] == head && (head + d)[|head|..] == d;
    assert head[..|kept|] == kept && head[|kept|..] == MARKER_HEAD;
  }

  lemma {:induction false} ParseDecimalBound(d: string)
    requires AllDigits(d)
    ensures ParseDecimal(d) < Pow10(|d|)
  {
    if d != [] {
      ParseDecimalBound(d[..|d| - 1]);
    }
  }

  lemma {:induction false} Pow10Monotone(j: nat, k: nat)
    requires j <= k
    ensures Pow10(j) <= Pow10(k)
    decreases k
  {
    if j < k {
      Pow10Monotone(j, k - 1);
      Pow10Positive(k - 1);
    }
  }

  /** What a found marker says fits a marker of its own. */
  lemma FoundIsSmall(text: string)
    requires MarkerAtEnd(text).Some?
    ensures MarkerAtEnd(text).value.1 < Pow10(OMITTED_DIGITS_MAX) && MarkerAtEnd(text).value.0 <= text
  {
    hide ParseDecimal, TrailingDigits, Pow10, AllDigits, MARKER_TAIL, MARKER_HEAD;
    var before := text[..|text| - |MARKER_TAIL|];
    var k := TrailingDigits(before);
    ParseDecimalBound(before[|before| - k..]);
    Pow10Monotone(k, OMITTED_DIGITS_MAX);
  }

  // ----- Characters -----

  lemma {:induction false} DigitsNulFree(d: string)
    requires AllDigits(d)
    ensures NulFree(d) && '[' !in d
  {
  }

  lemma MarkerNulFree(omitted: nat)
    ensures NulFree(Marker(omitted)) && Marker(omitted) != [] && !IsSpace(Marker(omitted)[0])
  {
    DecimalRoundTrip(omitted);
    DigitsNulFree(Decimal(omitted));
    hide Decimal;
    assert NulFree(MARKER_HEAD) && NulFree(MARKER_TAIL);
    NulFreeConcat(MARKER_HEAD, Decimal(omitted));
    NulFreeConcat(MARKER_HEAD + Decimal(omitted), MARKER_TAIL);
    assert Marker(omitted)[0] == MARKER_HEAD[0];
  }

  lemma RoundNulFree(c: Codec, text: string)
    requires Lawful(c.rules) && NulFree(text)
    ensures NulFree(Round(c.rules.textPass, ByteCut(BODY_STORED_MAX_BYTES), text))
  {
    LawsAt(c.rules, text);
    CutBytesLongestPrefix(c.rules.textPass(text), BODY_STORED_MAX_BYTES);
    hide Lawful, CutBytes;
  }

  lemma {:induction false} IterateNulFree(step: Pass, cut: Pass, text: string, n: nat)
    requires NulFree(text)
    requires forall x :: NulFree(x) ==> NulFree(Round(step, cut, x))
    ensures NulFree(Iterate(step, cut, text, n))
    decreases n
  {
    hide NulFree, Round;
    if n > 0 {
      IterateNulFree(step, cut, Round(step, cut, text), n - 1);
    }
  }

  lemma StoreSettledNulFree(c: Codec, text: string)
    requires Lawful(c.rules) && NulFree(text)
    ensures NulFree(StoreSettled(c, text))
  {
    hide Lawful, NulFree, Iterate, Round;
    forall x | NulFree(x) ensures NulFree(Round(c.rules.textPass, ByteCut(BODY_STORED_MAX_BYTES), x)) {
      RoundNulFree(c, x);
    }
    IterateNulFree(c.rules.textPass, ByteCut(BODY_STORED_MAX_BYTES), text, ROUNDS);
  }

  lemma StartsMarkedChars(text: string)
    requires StartsMarked(text)
    ensures |text| >= 9 && text[0] == '[' && text[1] == 'R'
    ensures forall i :: 0 <= i < 9 ==> text[i] != '\U{2026}'
  {
    assert '\U{2026}' !in REDACTED_HEAD;
    assert forall i :: 0 <= i < 9 ==> text[i] == REDACTED_HEAD[i];
    assert REDACTED_HEAD[0] == '[' && REDACTED_HEAD[1] == 'R';
  }

  lemma NotMarked(text: string)
    requires text == [] || text[0] != '[' || (|text| > 1 && text[1] != 'R')
    ensures !StartsMarked(text)
  {
    if StartsMarked(text) {
      StartsMarkedChars(text);
      assert false;
    }
  }

  lemma {:induction false} NoMarkers(text: string)
    requires '[' !in text
    ensures Markers(text) == 0
  {
    if text != [] {
      NotMarked(text);
      NoMarkers(text[1..]);
    }
  }

  lemma StartBefore(kept: string, m: string)
    requires m != [] && m[0] == '\U{2026}'
    ensures StartsMarked(kept + m) == StartsMarked(kept)
  {
    var text := kept + m;
    if StartsMarked(text) {
      StartsMarkedChars(text);
      assert text[|kept|] == m[0];
      assert |kept| >= 9;
      assert kept[..9] == text[..9];
    }
  }

  /** A truncation marker adds nothing to the redaction count of what stands before it. */
  lemma {:induction false} MarkersBefore(kept: string, omitted: nat)
    ensures Markers(kept + Marker(omitted)) == Markers(kept)
    decreases |kept|
  {
    if kept == [] {
      MarkersOfMarker(omitted);
      assert kept + Marker(omitted) == Marker(omitted);
    } else {
      var text := kept + Marker(omitted);
      HeadOfMarker(omitted);
      hide Marker, StartsMarked;
      MarkersBefore(kept[1..], omitted);
      assert text[1..] == kept[1..] + Marker(omitted);
      StartBefore(kept, Marker(omitted));
    }
  }

  lemma HeadOfMarker(omitted: nat)
    ensures Marker(omitted) != [] && Marker(omitted)[0] == '\U{2026}'
  {
    assert MARKER_HEAD[0] == '\U{2026}';
  }

  lemma MarkersOfMarker(omitted: nat)
    ensures Markers(Marker(omitted)) == 0
  {
    DecimalRoundTrip(omitted);
    DigitsNulFree(Decimal(omitted));
    var m := Marker(omitted);
    MarkerShape(omitted);
    hide Marker, Decimal, StartsMarked;
    NoMarkers(m[2..]);
    NotMarked(m);
    NotMarked(m[1..]);
    assert m[1..][1..] == m[2..];
  }

  lemma MarkerShape(omitted: nat)
    requires '[' !in Decimal(omitted)
    ensures var m := Marker(omitted);
            |m| > 2 && m[0] != '[' && m[2] == 't' && '[' !in m[2..]
  {
    hide Decimal;
    var rest := MARKER_HEAD[2..] + Decimal(omitted) + MARKER_TAIL;
    assert '[' !in MARKER_HEAD[2..] && '[' !in MARKER_TAIL;
    assert Marker(omitted)[2..] == rest;
    assert MARKER_HEAD[2] == 't';
  }

  // ----- Stored bodies under a second pass -----

  ghost predicate KeepsOnSettling(c: Codec, kept: string) {
    StoreSettled(c, kept) == kept
  }

  /** A body in cut form: kept text and marker, a carried state, a schema exactly when parsed, and a size that
      covers what it says was omitted. */
  ghost predicate CutForm(b: Body, kept: string, omitted: nat) {
    && b.text == Some(kept + Marker(omitted)) && b.redactions == Markers(kept) && b.truncated
    && b.state != Empty && (b.state == Parsed <==> b.schema.Some?)
    && (b.schema.Some? ==> SanitisedSchema(b.schema.value) == b.schema.value)
    && Size(kept) + omitted <= b.bodyBytes
    && Size(kept) <= BODY_STORED_MAX_BYTES && NulFree(kept)
  }

  lemma CutFormAgain(c: Codec, b: Body, kept: string, omitted: nat)
    requires CutForm(b, kept, omitted) && omitted < Pow10(OMITTED_DIGITS_MAX)
    ensures Again(c, b) == StoredAgain(c, kept, omitted, b.bodyBytes, b.schema, Some(b.state))
    ensures Again(c, b) == b <==> KeepsOnSettling(c, kept)
  {
    var text := kept + Marker(omitted);
    MarkerNulFree(omitted);
    NulFreeConcat(kept, Marker(omitted));
    CleanIsNulFree(text);
    MarkerFound(kept, omitted);
    hide MarkerAtEnd, Marker, Clean, NulFree, StoreSettled, SanitisedSchema, Pow10, Markers, Size;
    StoredAgainIsFixpoint(c, b, kept, omitted);
  }

  lemma StoredAgainIsFixpoint(c: Codec, b: Body, kept: string, omitted: nat)
    requires CutForm(b, kept, omitted)
    ensures StoredAgain(c, kept, omitted, b.bodyBytes, b.schema, Some(b.state)) == b <==> KeepsOnSettling(c, kept)
  {
    hide Marker, NulFree, StoreSettled, SanitisedSchema, Markers, Size;
    var settled := StoreSettled(c, kept);
    if settled + Marker(omitted) == kept + Marker(omitted) {
      SameHead(settled, kept, Marker(omitted));
    }
  }

  lemma SameHead(a: string, b: string, tail: string)
    requires a + tail == b + tail
    ensures a == b
  {
    assert |a| == |b|;
    assert a == (a + tail)[..|a|] && b == (b + tail)[..|b|];
  }

  /** A stored copy, processed again, is in cut form. */
  lemma StoredAgainCutForm(c: Codec, kept: string, omitted: nat, bodyBytes: nat, schema: Option<seq<Field>>,
                           state: Option<State>)
    requires Lawful(c.rules) && NulFree(kept)
    ensures CutForm(StoredAgain(c, kept, omitted, bodyBytes, schema, state), StoreSettled(c, kept), omitted)
  {
    StoreSettledFits(c, kept);
    StoreSettledNulFree(c, kept);
    if schema.Some? {
      SanitisedSchemaKeeps(schema.value, Null);
    }
    hide Marker, NulFree, StoreSettled, SanitisedSchema, Markers, Size;
  }

  /** A fresh body's redacted text has no U+0000, and is blank only if cut bytes of it were. */
  lemma RedactedText(c: Codec, text: string, truncated: bool)
    requires Faithful(c) && NulFree(text) && !Blank(text)
    ensures var f := Redacted(c, text, truncated);
            && NulFree(f.full)
            && (Size(f.full) <= BODY_STORED_MAX_BYTES ==> !Blank(f.full))
            && f.state != Empty && (f.state == Parsed <==> f.schema.Some?)
            && (f.schema.Some? ==> SanitisedSchema(f.schema.value) == f.schema.value)
            && (f.incomplete <==> f.state == TooLarge)
  {
    var f := Redacted(c, text, truncated);
    var cut := CutBytes(text, BODY_WIRE_MAX_BYTES);
    CutBytesLongestPrefix(text, BODY_WIRE_MAX_BYTES);
    assert NulFree(cut);
    match c.parse(text) {
      case Some(v) => SanitisedSchemaKeeps([], Walk(c.rules, v, 1));
      case None =>
    }
    hide CutBytes, Walk, SanitisedSchema, NulFree, Blank, Schema;
  }

  /** A cut body is in cut form, and accounts for every byte: what is kept and what is omitted add up to what
      was received or made of it, whichever is more, and the recorded size covers that. */
  lemma CutAccounting(c: Codec, received: nat, f: Fresh, bodyBytes: nat)
    requires Size(f.full) > BODY_STORED_MAX_BYTES
    ensures var b := Store(c, received, f, bodyBytes);
            var kept := StoreSettled(c, f.full);
            var omitted := Largest(received, Size(f.full)) - Size(kept);
            && 0 < omitted && b.text == Some(kept + Marker(omitted)) && b.truncated
            && Size(kept) <= BODY_STORED_MAX_BYTES
            && Size(kept) + omitted == Largest(received, Size(f.full)) <= b.bodyBytes
            && bodyBytes <= b.bodyBytes
  {
    hide Size, StoreSettled, Marker, Markers;
    StoreSettledFits(c, f.full);
  }

  lemma CutIsCutForm(c: Codec, received: nat, f: Fresh, bodyBytes: nat)
    requires Lawful(c.rules) && Size(f.full) > BODY_STORED_MAX_BYTES && NulFree(f.full)
    requires f.state != Empty && (f.state == Parsed <==> f.schema.Some?)
    requires f.schema.Some? ==> SanitisedSchema(f.schema.value) == f.schema.value
    ensures Size(StoreSettled(c, f.full)) <= BODY_STORED_MAX_BYTES
    ensures CutForm(Store(c, received, f, bodyBytes), StoreSettled(c, f.full),
                    Largest(received, Size(f.full)) - Size(StoreSettled(c, f.full)))
  {
    StoreSettledFits(c, f.full);
    StoreSettledNulFree(c, f.full);
    hide Marker, Size, NulFree, SanitisedSchema, StoreSettled, Markers, Lawful;
  }

  /** A body stored whole: the redacted text itself. */
  ghost predicate WholeForm(b: Body, full: string) {
    && b.text == Some(full) && b.redactions == Markers(full)
    && Size(full) <= BODY_STORED_MAX_BYTES && Size(full) <= b.bodyBytes && NulFree(full) && !Blank(full)
  }

  /** The second pass over a body stored whole is a fresh pass over its text, unless it reads as stored. */
  lemma WholeFormAgain(c: Codec, b: Body, full: string)
    requires WholeForm(b, full) && (b.truncated ==> MarkerAtEnd(full).None?)
    ensures Again(c, b) == Store(c, Size(full), Redacted(c, full, b.truncated), b.bodyBytes)
  {
    CleanIsNulFree(full);
  }

  /** A body that was read as JSON and stored whole comes out of the second pass as it is exactly when its walk
      does. */
  lemma WholeParsed(c: Codec, text: string, b: Body)
    requires Faithful(c) && c.parse(text).Some?
    requires var walked := Walk(c.rules, c.parse(text).value, 1);
             && WholeForm(b, c.dump(walked)) && b.state == Parsed && !b.truncated && b.schema == Some(Schema(walked))
    ensures Again(c, b) == b <==> TextsStay(c.rules, Walk(c.rules, c.parse(text).value, 1))
  {
    var walked := Walk(c.rules, c.parse(text).value, 1);
    var full := c.dump(walked);
    assert WritesBack(c, walked);
    var twice := Walk(c.rules, walked, 1);
    assert c.parse(full).Some? && WritesBack(c, twice);
    WalkAgainIff(c.rules, c.parse(text).value, 1);
    hide Walk, Schema, Faithful, Markers, MarkerAtEnd, TextsStay, NulFree, Blank;
    WholeFormAgain(c, b, full);
    WholeReread(c, b, walked, twice);
  }

  lemma WholeReread(c: Codec, b: Body, walked: Json, twice: Json)
    requires c.parse(c.dump(walked)) == Some(walked) && c.parse(c.dump(twice)) == Some(twice)
    requires WholeForm(b, c.dump(walked)) && b.state == Parsed && !b.truncated && b.schema == Some(Schema(walked))
    ensures var f := Fresh(c.dump(twice), Some(Schema(twice)), Parsed, false);
            Store(c, Size(c.dump(walked)), f, b.bodyBytes) == b <==> twice == walked
  {
    hide Schema, Markers, Size, NulFree, Blank, StoreSettled, Marker;
  }

  lemma WholeNotJson(c: Codec, full: string, b: Body)
    requires WholeForm(b, full) && b.state == NotJson && !b.truncated && b.schema == None
    ensures Again(c, b) == b <==> c.rules.textPass(full) == full && c.parse(full).None?
  {
    hide Walk, Schema, Markers, MarkerAtEnd, NulFree, Blank, StoreSettled, Marker;
    WholeFormAgain(c, b, full);
  }

  /** An incomplete body stored whole, sent again: if it happens to end in a truncation marker it is taken for a
      stored copy, and otherwise the text rules pass over it once more. */
  ghost predicate IncompleteStays(c: Codec, full: string, size: nat) {
    match MarkerAtEnd(full)
    case None => c.rules.textPass(full) == full
    case Some(found) =>
      && KeepsOnSettling(c, found.0) && full == found.0 + Marker(found.1)
      && Size(found.0) + found.1 <= size
  }

  lemma PrefixSize(p: string, text: string)
    requires p <= text
    ensures Size(p) <= Size(text)
  {
    EncodeAppend(p, text[|p|..]);
    assert text == p + text[|p|..];
  }

  lemma WholeTooLarge(c: Codec, full: string, b: Body)
    requires WholeForm(b, full) && b.state == TooLarge && b.truncated && b.schema == None
    requires Size(c.rules.textPass(full)) < Pow10(OMITTED_DIGITS_MAX)
    ensures Again(c, b) == b <==> IncompleteStays(c, full, b.bodyBytes)
  {
    hide *;
    if MarkerAtEnd(full).None? {
      WholeUnmarked(c, full, b);
    } else {
      WholeMarked(c, full, b);
    }
  }

  lemma WholeUnmarked(c: Codec, full: string, b: Body)
    requires WholeForm(b, full) && b.state == TooLarge && b.truncated && b.schema == None
    requires MarkerAtEnd(full).None? && Size(c.rules.textPass(full)) < Pow10(OMITTED_DIGITS_MAX)
    ensures Again(c, b) == b <==> IncompleteStays(c, full, b.bodyBytes)
  {
    hide Walk, Schema, Markers, MarkerAtEnd, NulFree, Blank, StoreSettled, Marker, Pow10, Again, Size, Clean;
    var passed := c.rules.textPass(full);
    WholeFormAgain(c, b, full);
    SmallStore();
    if Size(passed) > BODY_STORED_MAX_BYTES {
      StoreSettledFits(c, passed);
      MarkerFound(StoreSettled(c, passed), Largest(Size(full), Size(passed)) - Size(StoreSettled(c, passed)));
    }
  }

  lemma SmallStore()
    ensures BODY_WIRE_MAX_BYTES < Pow10(OMITTED_DIGITS_MAX)
  {
    assert Pow10(5) == 100000;
    Pow10Monotone(5, OMITTED_DIGITS_MAX);
  }

  lemma WholeTakenForStored(c: Codec, full: string, b: Body)
    requires WholeForm(b, full) && b.state == TooLarge && b.truncated && b.schema == None
    requires MarkerAtEnd(full).Some?
    ensures var found := MarkerAtEnd(full).value;
            Again(c, b) == StoredAgain(c, found.0, found.1, b.bodyBytes, None, Some(TooLarge))
  {
    hide MarkerAtEnd, StoredAgain, Redacted, Store, Clean, Size, NulFree, Blank, Markers, Pow10;
    FoundIsSmall(full);
    PrefixSize(MarkerAtEnd(full).value.0, full);
    CleanIsNulFree(full);
  }

  lemma WholeMarked(c: Codec, full: string, b: Body)
    requires WholeForm(b, full) && b.state == TooLarge && b.truncated && b.schema == None
    requires MarkerAtEnd(full).Some?
    ensures Again(c, b) == b <==> IncompleteStays(c, full, b.bodyBytes)
  {
    hide MarkerAtEnd, Size, NulFree, Blank, Clean, Pow10, StoreSettled;
    var found := MarkerAtEnd(full).value;
    WholeTakenForStored(c, full, b);
    hide Again;
    FoundIsSmall(full);
    MarkerFound(StoreSettled(c, found.0), found.1);
    MarkersBefore(found.0, found.1);
    hide Marker, Markers, StoreSettled;
  }

  /** When the second pass gives the same record: decided by the branch the first pass took. */
  ghost predicate Replayable(c: Codec, text: Option<string>, truncated: bool, bodyBytes: nat) {
    if text.None? then true
    else
      var clean := Clean(text.value);
      match AlreadyStored(clean, truncated)
      case Some(found) => KeepsOnSettling(c, StoreSettled(c, found.0))
      case None => Blank(clean) || FreshReplayable(c, clean, truncated, bodyBytes)
  }

  ghost predicate FreshReplayable(c: Codec, clean: string, truncated: bool, bodyBytes: nat) {
    var f := Redacted(c, clean, truncated);
    if Size(f.full) > BODY_STORED_MAX_BYTES then KeepsOnSettling(c, StoreSettled(c, f.full))
    else if f.state == NotJson then c.rules.textPass(f.full) == f.full && c.parse(f.full).None?
    else if f.state == TooLarge then
      IncompleteStays(c, f.full, Largest(Largest(Size(clean), Size(f.full)), bodyBytes))
    else c.parse(clean).Some? && TextsStay(c.rules, Walk(c.rules, c.parse(clean).value, 1))
  }

  /** Below what a marker can count, received, redacted and redacted again. */
  ghost predicate Countable(c: Codec, clean: string, truncated: bool) {
    var full := Redacted(c, clean, truncated).full;
    && Largest(Size(clean), Size(full)) < Pow10(OMITTED_DIGITS_MAX)
    && Size(c.rules.textPass(full)) < Pow10(OMITTED_DIGITS_MAX)
  }

  lemma CutAgain(c: Codec, clean: string, truncated: bool, bodyBytes: nat)
    requires Faithful(c) && NulFree(clean) && !Blank(clean)
    requires var f := Redacted(c, clean, truncated);
             Size(f.full) > BODY_STORED_MAX_BYTES && Largest(Size(clean), Size(f.full)) < Pow10(OMITTED_DIGITS_MAX)
    ensures var f := Redacted(c, clean, truncated);
            var b := Store(c, Size(clean), f, bodyBytes);
            Again(c, b) == b <==> KeepsOnSettling(c, StoreSettled(c, f.full))
  {
    var f := Redacted(c, clean, truncated);
    RedactedText(c, clean, truncated);
    StoreSettledFits(c, f.full);
    hide Redacted, Store, Again, Size, Pow10, NulFree, Blank, StoreSettled, Faithful, CutForm, SanitisedSchema;
    CutIsCutForm(c, Size(clean), f, bodyBytes);
    CutFormAgain(c, Store(c, Size(clean), f, bodyBytes), StoreSettled(c, f.full),
                 Largest(Size(clean), Size(f.full)) - Size(StoreSettled(c, f.full)));
  }

  lemma WholeAgain(c: Codec, clean: string, truncated: bool, bodyBytes: nat)
    requires Faithful(c) && NulFree(clean) && !Blank(clean)
    requires Size(Redacted(c, clean, truncated).full) <= BODY_STORED_MAX_BYTES && Countable(c, clean, truncated)
    ensures var b := Store(c, Size(clean), Redacted(c, clean, truncated), bodyBytes);
            Again(c, b) == b <==> FreshReplayable(c, clean, truncated, bodyBytes)
  {
    var f := Redacted(c, clean, truncated);
    var b := Store(c, Size(clean), f, bodyBytes);
    RedactedText(c, clean, truncated);
    hide Walk, Schema, Markers, MarkerAtEnd, Marker, Size, NulFree, Blank, SanitisedSchema, Redacted, StoreSettled;
    hide Again;
    if f.state == NotJson {
      WholeNotJson(c, f.full, b);
    } else if f.state == TooLarge {
      WholeTooLarge(c, f.full, b);
    } else {
      ParsedWhole(c, clean, truncated, b);
    }
  }

  lemma FreshAgain(c: Codec, clean: string, truncated: bool, bodyBytes: nat)
    requires Faithful(c) && NulFree(clean) && !Blank(clean) && Countable(c, clean, truncated)
    ensures var b := Store(c, Size(clean), Redacted(c, clean, truncated), bodyBytes);
            Again(c, b) == b <==> FreshReplayable(c, clean, truncated, bodyBytes)
  {
    hide Redacted, Store, Again, Size, Pow10, NulFree, Blank, StoreSettled, Faithful;
    if Size(Redacted(c, clean, truncated).full) > BODY_STORED_MAX_BYTES {
      CutAgain(c, clean, truncated, bodyBytes);
    } else {
      WholeAgain(c, clean, truncated, bodyBytes);
    }
  }

  lemma ParsedWhole(c: Codec, clean: string, truncated: bool, b: Body)
    requires Faithful(c)
    requires var f := Redacted(c, clean, truncated);
             f.state == Parsed && WholeForm(b, f.full) && b.state == Parsed && b.truncated == f.incomplete
             && b.schema == f.schema
    ensures c.parse(clean).Some?
    ensures Again(c, b) == b <==> TextsStay(c.rules, Walk(c.rules, c.parse(clean).value, 1))
  {
    hide Walk, Schema, Markers, WholeForm, Again, TextsStay;
    WholeParsed(c, clean, b);
  }

  /** A stored body is a fixpoint of a second pass -- text, counts, schema, state, flag and size -- exactly when
      `Replayable` says so: always when it was absent or blank; when cut or stored before, if settling again keeps
      the kept text; when JSON kept whole, if every text in it passes the rules unchanged; when not JSON, if its
      text does and redaction did not turn it into JSON; when an incomplete body is kept whole, likewise, unless
      it ends in a marker, which then must not misstate it. Bodies are taken to be below 10^15 bytes, the most a
      marker can count. */
  lemma StoredBodyIsFixpointIff(c: Codec, text: Option<string>, truncated: bool, bodyBytes: nat,
                                schema: Option<seq<Field>>, state: Option<State>)
    requires Faithful(c)
    requires text.Some? ==> Countable(c, Clean(text.value), truncated)
    ensures var b := RedactBody(c, text, truncated, bodyBytes, schema, state);
            Again(c, b) == b <==> Replayable(c, text, truncated, bodyBytes)
  {
    var b := RedactBody(c, text, truncated, bodyBytes, schema, state);
    if text.Some? {
      var clean := Clean(text.value);
      CleanIsNulFree(text.value);
      CleanIsNulFree(clean);
      match AlreadyStored(clean, truncated) {
        case Some(found) => StoredReplay(c, clean, found.0, found.1, bodyBytes, schema, state);
        case None =>
          if !Blank(clean) {
            FreshAgain(c, clean, truncated, bodyBytes);
          }
      }
    }
  }

  lemma StoredReplay(c: Codec, clean: string, kept: string, omitted: nat, bodyBytes: nat,
                     schema: Option<seq<Field>>, state: Option<State>)
    requires Lawful(c.rules) && NulFree(clean) && MarkerAtEnd(clean) == Some((kept, omitted))
    ensures var b := StoredAgain(c, kept, omitted, bodyBytes, schema, state);
            Again(c, b) == b <==> KeepsOnSettling(c, StoreSettled(c, kept))
  {
    FoundIsSmall(clean);
    assert NulFree(kept);
    StoredAgainCutForm(c, kept, omitted, bodyBytes, schema, state);
    CutFormAgain(c, StoredAgain(c, kept, omitted, bodyBytes, schema, state), StoreSettled(c, kept), omitted);
  }

  // ----- Where it fails -----

  /** A body with nothing to redact is stored as it came, with its schema when it is JSON. */
  lemma InnocentBodyKept(c: Codec, text: string, bodyBytes: nat, schema: Option<seq<Field>>, state: Option<State>)
    requires Lawful(c.rules) && NulFree(text) && !Blank(text) && Size(text) <= BODY_STORED_MAX_BYTES
    requires match c.parse(text)
             case None => c.rules.textPass(text) == text
             case Some(v) => Innocent(c.rules, v, 1) && c.dump(v) == text
    ensures RedactBody(c, Some(text), false, bodyBytes, schema, state)
         == match c.parse(text)
            case None => Body(Some(text), Markers(text), None, NotJson, false, Largest(Size(text), bodyBytes))
            case Some(v) =>
              Body(Some(text), Markers(text), Some(Schema(v)), Parsed, false, Largest(Size(text), bodyBytes))
  {
    CleanIsNulFree(text);
    if c.parse(text).Some? {
      WalkStaysIff(c.rules, c.parse(text).value, 1);
    }
    hide Lawful, Walk, Schema, Markers, Size, NulFree, Clean, Blank, Innocent;
  }

  /** Redaction can repair JSON: then the first pass stores the text as not JSON, the second one as parsed. */
  lemma RepairedJsonChangesState(c: Codec, text: string, bodyBytes: nat)
    requires Faithful(c) && NulFree(text) && !Blank(text)
    requires Size(text) <= BODY_STORED_MAX_BYTES && Size(c.rules.textPass(text)) <= BODY_STORED_MAX_BYTES
    requires c.parse(text).None? && c.parse(c.rules.textPass(text)).Some?
    ensures var b := RedactBody(c, Some(text), false, bodyBytes, None, None);
            b.state == NotJson && Again(c, b).state == Parsed
  {
    CleanIsNulFree(text);
    CleanIsNulFree(c.rules.textPass(text));
    hide Walk, Schema, Markers, MarkerAtEnd, Size, Clean, StoreSettled;
  }

  const LEADING_ZERO: string := "{\"token\": 01}"
  const LEADING_ZERO_REDACTED: string := "{\"token\": \"[REDACTED]\"}"

  /** For instance a number with a leading zero under a secret name: not JSON, but its replacement is. */
  lemma RepairedJsonExample(c: Codec, bodyBytes: nat)
    requires Faithful(c)
    requires c.parse(LEADING_ZERO) == None
    requires c.rules.textPass(LEADING_ZERO) == LEADING_ZERO_REDACTED && c.parse(LEADING_ZERO_REDACTED).Some?
    ensures var b := RedactBody(c, Some(LEADING_ZERO), false, bodyBytes, None, None);
            b.state == NotJson && Again(c, b).state == Parsed
  {
    hide Faithful, Size, RedactBody, Again;
    assert |LEADING_ZERO| == 13 && |LEADING_ZERO_REDACTED| == 23;
    SizeBound(LEADING_ZERO);
    SizeBound(LEADING_ZERO_REDACTED);
    assert '\0' !in LEADING_ZERO && LEADING_ZERO[0] == '{';
    RepairedJsonChangesState(c, LEADING_ZERO, bodyBytes);
  }

  // ----- Texts that do not settle -----

  lemma ByteCutIsLongestFit(limit: nat)
    ensures LongestFit(ByteCut(limit), Size, limit) && Additive(Size)
  {
    forall x
      ensures ByteCut(limit)(x) <= x && Size(ByteCut(limit)(x)) <= limit
      ensures forall p :: p <= x && Size(p) <= limit ==> |p| <= |ByteCut(limit)(x)|
    {
      CutBytesLongestPrefix(x, limit);
    }
    forall a, b
      ensures Size(a + b) == Size(a) + Size(b)
    {
      EncodeAppend(a, b);
    }
  }

  /** The condition on kept text in `Replayable`, where the text rules act as the password pattern does: the six
      rounds settle a body exactly when what the first one kept owes at most five more. */
  lemma PasswordBodiesKeepIff(c: Codec, text: string)
    requires ActsAlike(c.rules.textPass, ByteCut(BODY_STORED_MAX_BYTES), text, 2 * ROUNDS)
    ensures KeepsOnSettling(c, StoreSettled(c, text))
            <==> Owed(Round(PasswordPass, ByteCut(BODY_STORED_MAX_BYTES), text), false) < ROUNDS
  {
    ByteCutIsLongestFit(BODY_STORED_MAX_BYTES);
    hide Owed, Round, LongestFit, Additive, ActsAlike;
    SettledIffOwed(c.rules.textPass, ByteCut(BODY_STORED_MAX_BYTES), Size, BODY_STORED_MAX_BYTES, text);
  }

  /** Such a body, not JSON, is stored after one pass when it then fits, and is a fixpoint of the second exactly
      when every value in it was followed by white space, a comma or the end and redaction did not turn it into
      JSON; when it does not fit, exactly when the rounds of settling are enough. */
  lemma PasswordBodyIsFixpointIff(c: Codec, body: string, bodyBytes: nat)
    requires Faithful(c) && Countable(c, Clean(body), false)
    requires var text := Clean(body);
             && !Blank(text) && Size(text) <= BODY_WIRE_MAX_BYTES && c.parse(text).None?
             && c.rules.textPass(text) == PasswordPass(text)
             && ActsAlike(c.rules.textPass, ByteCut(BODY_STORED_MAX_BYTES), PasswordPass(text), 2 * ROUNDS)
    ensures var once := PasswordPass(Clean(body));
            var b := RedactBody(c, Some(body), false, bodyBytes, None, None);
            Again(c, b) == b <==>
              if Size(once) > BODY_STORED_MAX_BYTES
              then Owed(Round(PasswordPass, ByteCut(BODY_STORED_MAX_BYTES), once), false) < ROUNDS
              else Closed(Clean(body)) && c.parse(once).None?
  {
    hide PasswordPass, Closed, Clean, NulFree, Size, Owed, Round, Faithful, RedactBody, Again, MarkerAtEnd, Walk;
    hide Countable, StoreSettled, KeepsOnSettling, Blank;
    var text := Clean(body);
    StoredBodyIsFixpointIff(c, Some(body), false, bodyBytes, None, None);
    PassAgainIff(text);
    PasswordBodiesKeepIff(c, PasswordPass(text));
    FirstAlike(c, PasswordPass(text));
  }

  lemma FirstAlike(c: Codec, text: string)
    requires ActsAlike(c.rules.textPass, ByteCut(BODY_STORED_MAX_BYTES), text, 2 * ROUNDS)
    ensures c.rules.textPass(text) == PasswordPass(text)
  {
    hide PasswordPass;
    assert Iterate(PasswordPass, ByteCut(BODY_STORED_MAX_BYTES), text, 0) == text;
  }

  /** In particular a body that is not closed, such as one with two quotes behind its password, changes. */
  lemma OpenBodyChanges(c: Codec, body: string, bodyBytes: nat)
    requires NulFree(body) && body != "" && !IsSpace(body[0]) && !Closed(body)
    requires var once := PasswordPass(body);
             && c.rules.textPass(body) == once && c.rules.textPass(once) == PasswordPass(once)
             && c.parse(body).None? && c.parse(once).None? && NulFree(once)
             && Size(body) <= BODY_STORED_MAX_BYTES && Size(once) <= BODY_STORED_MAX_BYTES
             && Size(PasswordPass(once)) <= BODY_STORED_MAX_BYTES
    ensures var b := RedactBody(c, Some(body), false, bodyBytes, None, None);
            && b.text == Some(PasswordPass(body)) && b.state == NotJson && !b.truncated
            && Again(c, b).text == Some(PasswordPass(PasswordPass(body))) != b.text
  {
    PassAgainIff(body);
    FirstStays(body);
    CleanIsNulFree(body);
    CleanIsNulFree(PasswordPass(body));
    hide PasswordPass, Closed, Clean, NulFree, Size, Markers, MarkerAtEnd, StoreSettled, Walk, Schema;
    OneTextPass(c, body, bodyBytes, None, None);
    var b := RedactBody(c, Some(body), false, bodyBytes, None, None);
    OneTextPass(c, PasswordPass(body), b.bodyBytes, b.schema, Some(b.state));
  }

  lemma OneTextPass(c: Codec, text: string, bodyBytes: nat, schema: Option<seq<Field>>, state: Option<State>)
    requires Clean(text) == text && text != "" && !IsSpace(text[0]) && c.parse(text).None?
    requires Size(text) <= BODY_STORED_MAX_BYTES && Size(c.rules.textPass(text)) <= BODY_STORED_MAX_BYTES
    ensures var b := RedactBody(c, Some(text), false, bodyBytes, schema, state);
            b.text == Some(c.rules.textPass(text)) && b.state == NotJson && !b.truncated && b.schema == None
  {
    assert !Blank(text);
    hide Clean, Size, Markers, MarkerAtEnd, StoreSettled, Walk, Schema, Blank, IsSpace;
  }

  // ----- The assumptions can be met -----

  /** A reader of one kind of document: a quote, then the text of a string. */
  function StringCodec(): Codec {
    Codec(Rules(RunPass, key => false),
          (text: string) => if text != "" && text[0] == '"' then Some(Str(text[1..])) else None,
          (v: Json) => if v.Str? then "\"" + v.s else "null")
  }

  /** `Faithful` can be met by a codec that reads and writes every string. */
  lemma StringCodecFaithful()
    ensures Faithful(StringCodec())
    ensures forall s :: StringCodec().parse("\"" + s) == Some(Str(s))
  {
    hide Lawful, WritesBack, Walk, RunPass;
    var c := StringCodec();
    NoSecretsLawful(c.rules);
    forall text | c.parse(text).Some?
      ensures WritesBack(c, Walk(c.rules, c.parse(text).value, 1))
    {
      StringWritesBack(text[1..]);
    }
    forall s
      ensures c.parse("\"" + s) == Some(Str(s))
    {
      assert ("\"" + s)[1..] == s;
    }
  }

  lemma StringWritesBack(s: string)
    ensures WritesBack(StringCodec(), Walk(StringCodec().rules, Str(s), 1))
  {
    var w := RunPass(Clean(s));
    CleanIsNulFree(s);
    RunPassNulFree(Clean(s));
    assert Walk(StringCodec().rules, Str(s), 1) == Str(w);
    hide Walk, RunPass, Clean;
    var written := "\"" + w;
    assert written[1..] == w && written[0] == '"' && !Blank(written) && NulFree(written);
    hide NulFree, Blank;
  }

  lemma NoSecretsLawful(rules: Rules)
    requires rules.textPass == RunPass && forall key :: !rules.keyIsSecret(key)
    ensures Lawful(rules)
  {
    hide RunPass, NulFree, Blank;
    MarkerHasNoRun();
    forall x
      ensures NulFree(x) ==> NulFree(RunPass(x))
      ensures Blank(x) ==> RunPass(x) == x
      ensures !Blank(x) ==> !Blank(RunPass(x))
    {
      RunPassLaws(x);
    }
  }

  // ----- A stale marker -----

  lemma {:induction false} RunThenRest(run: string, rest: string)
    requires forall i :: 0 <= i < |run| ==> TokenChar(run[i])
    requires rest == [] || !TokenChar(rest[0])
    ensures RunLength(run + rest) == |run|
  {
    if run == [] {
      assert run + rest == rest;
    } else {
      RunThenRest(run[1..], rest);
      assert (run + rest)[1..] == run[1..] + rest;
    }
  }

  lemma {:induction false} SizeOfAscii(text: string)
    requires forall i :: 0 <= i < |text| ==> text[i] == 'A'
    ensures Size(text) == |text|
  {
    if text != [] {
      SizeOfAscii(text[1..]);
      assert Encode(text) == [65] + Encode(text[1..]);
    }
  }

  lemma MarkerLength(omitted: nat)
    requires omitted < Pow10(OMITTED_DIGITS_MAX)
    ensures |Marker(omitted)| <= 46 && Marker(omitted)[12] == ' ' && NoRun(Marker(omitted))
    ensures !TokenChar(Marker(omitted)[0])
  {
    DecimalLength(omitted, OMITTED_DIGITS_MAX);
    hide Decimal, Pow10;
    var m := Marker(omitted);
    assert |MARKER_HEAD| == 13 && |MARKER_TAIL| == 18 && MARKER_HEAD[12] == ' ';
    forall i: nat | i + RUN_MIN <= |m|
      ensures !RunAt(m, i)
    {
      assert i <= 12 < i + RUN_MIN && !TokenChar(m[12]);
    }
    HeadOfMarker(omitted);
  }

  lemma RunBeforeMarker(run: string, omitted: nat)
    requires |run| >= RUN_MIN && omitted < Pow10(OMITTED_DIGITS_MAX)
    requires forall i :: 0 <= i < |run| ==> run[i] == 'A'
    ensures RunPass(run + Marker(omitted)) == REDACTED + Marker(omitted)
  {
    MarkerLength(omitted);
    RunPassIdempotent(Marker(omitted));
    var m := Marker(omitted);
    hide Marker, Pow10;
    RunThenRest(run, m);
    assert (run + m)[..|run|] == run && (run + m)[|run|..] == m;
  }

  lemma MarkedText(kept: string, omitted: nat)
    requires NulFree(kept) && kept != [] && !IsSpace(kept[0])
    ensures var text := kept + Marker(omitted); Clean(text) == text && !Blank(text)
  {
    var text := kept + Marker(omitted);
    MarkerNulFree(omitted);
    hide Marker;
    NulFreeConcat(kept, Marker(omitted));
    CleanIsNulFree(text);
    assert text[0] == kept[0];
  }

  lemma StaleMarkerFirstPass(c: Codec, run: string, omitted: nat)
    requires c.rules.textPass(run + Marker(omitted)) == RunPass(run + Marker(omitted))
    requires BODY_STORED_MAX_BYTES < |run| <= 60000 && omitted < Pow10(OMITTED_DIGITS_MAX)
    requires forall i :: 0 <= i < |run| ==> run[i] == 'A'
    ensures RedactBody(c, Some(run + Marker(omitted)), true, 0, None, None)
         == Store(c, Size(run + Marker(omitted)), Fresh(REDACTED + Marker(omitted), None, TooLarge, true), 0)
  {
    assert NulFree(run) && !IsSpace(run[0]);
    hide Marker, MarkerAtEnd, RunPass, Clean, Size, StoreSettled, Pow10, Markers, NulFree, Walk, Schema, Store, Blank;
    StaleMarkerSizes(run, omitted);
    RunBeforeMarker(run, omitted);
    MarkerFound(run, omitted);
    MarkedText(run, omitted);
  }

  /** An incomplete body whose long run shrinks it below the store limit, and which ends in somebody's marker,
      is stored whole; the second pass takes it for a stored copy and records the size the marker claims. */
  lemma StaleMarkerMisstatesSize(c: Codec, run: string, omitted: nat)
    requires c.rules.textPass(run + Marker(omitted)) == RunPass(run + Marker(omitted))
    requires BODY_STORED_MAX_BYTES < |run| <= 60000 && 100000 <= omitted < Pow10(OMITTED_DIGITS_MAX)
    requires forall i :: 0 <= i < |run| ==> run[i] == 'A'
    ensures var b := RedactBody(c, Some(run + Marker(omitted)), true, 0, None, None);
            b.bodyBytes < omitted <= Again(c, b).bodyBytes
  {
    hide Marker, RunPass, Size, StoreSettled, Pow10, Markers, RedactBody, Again;
    StaleMarkerFirstPass(c, run, omitted);
    StaleMarkerSizes(run, omitted);
    var full := REDACTED + Marker(omitted);
    var b := Store(c, Size(run + Marker(omitted)), Fresh(full, None, TooLarge, true), 0);
    StaleMarkerSecondPass(c, b, omitted);
  }

  lemma StaleMarkerSecondPass(c: Codec, b: Body, omitted: nat)
    requires b.text == Some(REDACTED + Marker(omitted)) && b.truncated && omitted < Pow10(OMITTED_DIGITS_MAX)
    ensures Again(c, b).bodyBytes >= omitted
  {
    SizeBound(REDACTED);
    hide Walk, Schema, SanitisedSchema, Lawful, RunPass, DecodeIgnore, Encode, Redacted, Store, StoreSettled, Markers;
    MarkerFound(REDACTED, omitted);
    assert NulFree(REDACTED) && !IsSpace(REDACTED[0]);
    MarkedText(REDACTED, omitted);
    hide Marker, MarkerAtEnd, Clean, Size, StoreSettled, Pow10, Markers, NulFree, Blank, Redacted, Store;
  }

  lemma StaleMarkerSizes(run: string, omitted: nat)
    requires BODY_STORED_MAX_BYTES < |run| <= 60000 && omitted < Pow10(OMITTED_DIGITS_MAX)
    requires forall i :: 0 <= i < |run| ==> run[i] == 'A'
    ensures Size(run) > BODY_STORED_MAX_BYTES && Size(run + Marker(omitted)) <= BODY_WIRE_MAX_BYTES
    ensures Size(REDACTED) <= 40 && Size(REDACTED + Marker(omitted)) <= 224
  {
    MarkerLength(omitted);
    SizeOfAscii(run);
    EncodeAppend(run, Marker(omitted));
    SizeBound(Marker(omitted));
    SizeBound(REDACTED);
    SizeBound(REDACTED + Marker(omitted));
  }

  /** The condition on kept text in `Replayable` holds of every body for which one of the six rounds reaches a
      text that a further round leaves alone, whatever the text rules are. */
  lemma ReachedBodiesKeep(c: Codec, text: string)
    requires Reached(c.rules.textPass, ByteCut(BODY_STORED_MAX_BYTES), text)
    ensures KeepsOnSettling(c, StoreSettled(c, text))
  {
    SettledIffReached(c.rules.textPass, ByteCut(BODY_STORED_MAX_BYTES), text);
  }

  /** With the run scanner as the text rules that is every body: the first round is enough. */
  lemma RunBodiesKeep(c: Codec, text: string)
    requires c.rules.textPass == RunPass
    ensures KeepsOnSettling(c, StoreSettled(c, text))
  {
    SettledRuns(text, BODY_STORED_MAX_BYTES);
  }
}
