/**
 What a stored body says: text, count, schema, state, flag and size, case by case.
 */
module BodyMeaning {
  import opened Options
  import opened Text
  import opened Utf8
  import opened Settle
  import opened JsonRedaction
  import opened JsonMeaning
  import opened BodyRedaction

  /** The larger of three numbers. */
  ghost predicate IsLargest(n: nat, a: nat, b: nat, c: nat) {
    n >= a && n >= b && n >= c && (n == a || n == b || n == c)
  }

  /** No body: empty, of no size. */
  lemma NoBody(c: Codec, truncated: bool, bodyBytes: nat, schema: Option<seq<Field>>, state: Option<State>)
    ensures var b := RedactBody(c, None, truncated, bodyBytes, schema, state);
            b.text == None && b.redactions == 0 && b.schema == None && b.state == Empty && b.truncated == truncated
            && b.bodyBytes == 0
  {
  }

  /** A blank body is kept as it is, with U+0000 dropped. */
  lemma BlankBody(c: Codec, text: string, truncated: bool, bodyBytes: nat, schema: Option<seq<Field>>,
                  state: Option<State>)
    requires Blank(Clean(text))
    ensures var b := RedactBody(c, Some(text), truncated, bodyBytes, schema, state);
            && b.text == Some(Clean(text)) && b.redactions == 0 && b.schema == None && b.state == Empty
            && b.truncated == truncated && IsLargest(b.bodyBytes, Size(Clean(text)), bodyBytes, 0)
  {
    hide Clean, Size;
    BlankHasNoMarker(Clean(text));
  }

  lemma BlankHasNoMarker(text: string)
    requires Blank(text)
    ensures MarkerAtEnd(text) == None
  {
    assert !IsSpace(']') && MARKER_TAIL[|MARKER_TAIL| - 1] == ']';
    EndOf(text, MARKER_TAIL);
  }

  lemma EndOf(text: string, suffix: string)
    requires suffix != ""
    ensures EndsWith(text, suffix) ==> text != "" && text[|text| - 1] == suffix[|suffix| - 1]
  {
  }

  /** The longest beginning of the text within `limit` bytes. */
  ghost predicate LongestWithin(p: string, text: string, limit: nat) {
    p <= text && Size(p) <= limit && forall q :: q <= text && Size(q) <= limit ==> |q| <= |p|
  }

  /** What a fresh body is redacted to, before the store limit: `full`, with a schema and a state. More than 65536
      bytes are cut to the longest beginning that fits and are no longer read as JSON, and neither is what the
      client cut; of the rest, what is not JSON goes through the text rules, and JSON is walked and written again. */
  ghost predicate FreshBody(c: Codec, text: string, truncated: bool, full: string, schema: Option<seq<Field>>,
                            state: State, incomplete: bool)
  {
    if Size(text) > 65536 then
      && state == TooLarge && schema == None && incomplete
      && exists p :: LongestWithin(p, text, 65536) && full == c.rules.textPass(p)
    else if truncated then
      state == TooLarge && schema == None && incomplete && full == c.rules.textPass(text)
    else if c.parse(text).None? then
      state == NotJson && schema == None && !incomplete && full == c.rules.textPass(text)
    else
      && state == Parsed && !incomplete
      && exists w :: Redacts(c.rules, c.parse(text).value, w, 1) && full == c.dump(w) && schema == Some(Schema(w))
  }

  lemma RedactedIsFresh(c: Codec, text: string, truncated: bool)
    ensures var f := Redacted(c, text, truncated);
            FreshBody(c, text, truncated, f.full, f.schema, f.state, f.incomplete)
  {
    hide Size, CutBytes, Walk, Schema, Redacts, LongestWithin;
    if Size(text) > 65536 {
      CutIsLongest(text, 65536);
    } else if !truncated && c.parse(text).Some? {
      WalkRedacts(c.rules, c.parse(text).value, 1);
      var w := Walk(c.rules, c.parse(text).value, 1);
      assert Redacted(c, text, truncated) == Fresh(c.dump(w), Some(Schema(w)), Parsed, false);
    }
  }

  lemma CutIsLongest(text: string, limit: nat)
    ensures LongestWithin(CutBytes(text, limit), text, limit)
  {
    CutBytesLongestPrefix(text, limit);
    hide Size, CutBytes;
  }

  lemma MarkerText(kept: string, omitted: nat)
    ensures kept + Marker(omitted) == kept + "\U{2026}[truncated: " + Decimal(omitted) + " bytes not stored]"
  {
    hide Decimal;
  }

  /** A fresh body is stored whole when what it is redacted to takes at most 16384 bytes; otherwise it is settled
      within them and marked with the number of bytes left out of what was received or made of it, whichever is
      more. Redactions are the markers in what is kept, and the size is the largest that was ever seen. */
  lemma FreshBodyStored(c: Codec, text: string, truncated: bool, bodyBytes: nat, schema: Option<seq<Field>>,
                        state: Option<State>)
    returns (full: string, schema': Option<seq<Field>>, state': State, incomplete: bool)
    requires var clean := Clean(text); !Blank(clean) && AlreadyStored(clean, truncated).None?
    ensures FreshBody(c, Clean(text), truncated, full, schema', state', incomplete)
    ensures var b := RedactBody(c, Some(text), truncated, bodyBytes, schema, state);
            && b.schema == schema' && b.state == state'
            && IsLargest(b.bodyBytes, Size(Clean(text)), Size(full), bodyBytes)
            && if Size(full) <= 16384 then
                 b.text == Some(full) && b.redactions == |MarkedPlaces(full)| && b.truncated == incomplete
               else
                 var kept := StoreSettled(c, full);
                 && Size(kept) <= 16384 && b.redactions == |MarkedPlaces(kept)| && b.truncated
                 && exists omitted: nat ::
                      && IsLargest(Size(kept) + omitted, Size(Clean(text)), Size(full), 0)
                      && b.text == Some(kept + "\U{2026}[truncated: " + Decimal(omitted) + " bytes not stored]")
  {
    var clean := Clean(text);
    RedactedIsFresh(c, clean, truncated);
    var f := Redacted(c, clean, truncated);
    full, schema', state', incomplete := f.full, f.schema, f.state, f.incomplete;
    hide Clean, Size, StoreSettled, Markers, Decimal, Redacted, FreshBody, Blank, AlreadyStored, MarkedPlaces;
    if Size(full) <= 16384 {
      MarkersCounted(full);
    } else {
      var kept := StoreSettled(c, full);
      StoreSettledFits(c, full);
      MarkersCounted(kept);
      var omitted := Largest(Size(clean), Size(full)) - Size(kept);
      assert IsLargest(Size(kept) + omitted, Size(clean), Size(full), 0);
      MarkerText(kept, omitted);
    }
  }

  /** A copy that comes back - truncated, ending in a marker, with at most 16384 bytes before it - keeps the number
      of its marker; its text is settled again, its state carried over, a schema only beside a parsed state. */
  lemma StoredBodyAgain(c: Codec, kept: string, omitted: nat, bodyBytes: nat, schema: Option<seq<Field>>,
                        state: Option<State>)
    requires NulFree(kept) && Size(kept) <= 16384 && omitted < Pow10(15)
    ensures var settled := StoreSettled(c, kept);
            var b := RedactBody(c, Some(kept + Marker(omitted)), true, bodyBytes, schema, state);
            && b.text == Some(settled + Marker(omitted)) && b.redactions == |MarkedPlaces(settled)| && b.truncated
            && IsLargest(b.bodyBytes, Size(settled) + omitted, bodyBytes, 0)
            && (b.state == Parsed <==> state == Some(Parsed) && schema.Some?)
            && (b.state == NotJson <==> state == Some(NotJson)) && b.state != Empty
            && (b.schema.Some? <==> b.state == Parsed)
            && (b.schema.Some? ==> b.schema.value == SanitisedSchema(schema.value))
  {
    MarkerNulFree(omitted);
    NulFreeConcat(kept, Marker(omitted));
    CleanIsNulFree(kept + Marker(omitted));
    MarkerFound(kept, omitted);
    MarkersCounted(StoreSettled(c, kept));
    hide Clean, Size, StoreSettled, Markers, Marker, MarkerAtEnd, NulFree, SanitisedSchema, MarkedPlaces, Pow10;
  }

  ghost predicate CopyShape(text: string, kept: string, digits: string) {
    && text == kept + "\U{2026}[truncated: " + digits + " bytes not stored]"
    && 1 <= |digits| <= 15 && AllDigits(digits) && Size(kept) <= 16384
  }

  /** Only such a text is taken for a stored copy. */
  lemma StoredCopyIff(text: string, truncated: bool)
    ensures AlreadyStored(text, truncated).Some?
            <==> truncated && exists kept, digits :: CopyShape(text, kept, digits)
  {
    hide Size, AllDigits, ParseDecimal, MarkerAtEnd;
    if AlreadyStored(text, truncated).Some? {
      var kept, digits := FoundShape(text);
      assert CopyShape(text, kept, digits);
    }
    if truncated && exists kept, digits :: CopyShape(text, kept, digits) {
      var kept, digits :| CopyShape(text, kept, digits);
      ShapeFound(text, kept, digits);
    }
  }

  lemma FoundShape(text: string) returns (kept: string, digits: string)
    requires MarkerAtEnd(text).Some?
    ensures text == kept + MARKER_HEAD + digits + MARKER_TAIL && 1 <= |digits| <= 15 && AllDigits(digits)
    ensures kept == MarkerAtEnd(text).value.0
  {
    hide AllDigits, ParseDecimal, TrailingDigits, MARKER_HEAD, MARKER_TAIL;
    var before := text[..|text| - |MARKER_TAIL|];
    var k := TrailingDigits(before);
    digits := before[|before| - k..];
    var head := before[..|before| - k];
    kept := head[..|head| - |MARKER_HEAD|];
    assert head == kept + MARKER_HEAD && before == head + digits && text == before + MARKER_TAIL;
  }

  lemma ShapeFound(text: string, kept: string, digits: string)
    requires text == kept + MARKER_HEAD + digits + MARKER_TAIL && 1 <= |digits| <= 15 && AllDigits(digits)
    ensures MarkerAtEnd(text).Some? && MarkerAtEnd(text).value.0 == kept
  {
    var head := kept + MARKER_HEAD;
    var before := head + digits;
    assert text == before + MARKER_TAIL;
    assert head[|head| - 1] == MARKER_HEAD[|MARKER_HEAD| - 1] == ' ';
    TrailingDigitsOf(head, digits);
    hide AllDigits, ParseDecimal, TrailingDigits, MARKER_HEAD, MARKER_TAIL;
    assert text[|text| - |MARKER_TAIL|..] == MARKER_TAIL && text[..|text| - |MARKER_TAIL|] == before;
    assert before[..|before| - |digits|] == head && head[|head| - |MARKER_HEAD|..] == MARKER_HEAD;
    assert head[..|head| - |MARKER_HEAD|] == kept;
  }
}
