/**
 The layered sections of a run context: pairs parsed out of every accepted form, entries admitted by the
 server's patterns, and the merges that pick which entries are sent.
 */
module ContextLayers {
  import opened Options
  import Text

  const RUNTIME_MAX: nat := 16
  const IMAGES_MAX: nat := 8

  type Pair = (string, string)

  /** A Python dict: its items in insertion order. */
  type Dict = seq<Pair>

  /** A value as a caller, an environment variable or the config file gives it. */
  datatype Layer =
    | Nothing
    | Mapping(entries: seq<(string, Option<string>)>)
    | Items(items: seq<string>)
    | Line(text: string)

  function PairsOfEntries(entries: seq<(string, Option<string>)>): seq<Pair> {
    if entries == [] then []
    else
      var e := entries[0];
      (if e.1.None? then [] else [(Text.Strip(e.0), Text.Strip(e.1.value))]) + PairsOfEntries(entries[1..])
  }

  function PairsOfItems(items: seq<string>): seq<Pair> {
    if items == [] then []
    else
      var rest := PairsOfItems(items[1..]);
      if '=' !in items[0] then rest
      else
        var at := Text.IndexOf(items[0], '=');
        var key, value := Text.Strip(items[0][..at]), Text.Strip(items[0][at + 1..]);
        if key == "" || value == "" then rest else [(key, value)] + rest
  }

  function Pairs(layer: Layer): seq<Pair> {
    match layer
    case Nothing => []
    case Mapping(entries) => PairsOfEntries(entries)
    case Items(items) => PairsOfItems(items)
    case Line(text) => PairsOfItems(Text.Split(text, ','))
  }

  function AllPairs(layers: seq<Layer>): seq<Pair> {
    if layers == [] then [] else AllPairs(layers[..|layers| - 1]) + Pairs(layers[|layers| - 1])
  }

  /** `key=value` is one pair, whatever else the value holds, unless either side is blank. */
  lemma ItemParsed(key: string, value: string)
    requires '=' !in key
    ensures Pairs(Items([key + "=" + value]))
         == if Text.Blank(key) || Text.Blank(value) then [] else [(Text.Strip(key), Text.Strip(value))]
  {
    var item := key + "=" + value;
    assert item[|key|] == '=';
    Text.FirstIndex(item, '=', |key|);
    assert item[..|key|] == key && item[|key| + 1..] == value;
    Text.StripBlank(key);
    Text.StripBlank(value);
    assert PairsOfItems([item][1..]) == [];
    hide Text.Strip, Text.Blank;
  }

  /** A mapping gives one stripped pair for each entry that is not null. */
  lemma EntryParsed(key: string, value: string)
    ensures Pairs(Mapping([(key, Some(value))])) == [(Text.Strip(key), Text.Strip(value))]
    ensures Pairs(Mapping([(key, None)])) == []
  {
    assert PairsOfEntries([(key, Some(value))][1..]) == [] && PairsOfEntries([(key, None)][1..]) == [];
    hide Text.Strip;
  }

  lemma {:induction false} EntriesOfBoth(a: seq<(string, Option<string>)>, b: seq<(string, Option<string>)>)
    ensures PairsOfEntries(a + b) == PairsOfEntries(a) + PairsOfEntries(b)
  {
    hide PairsOfEntries;
    if a == [] {
      assert a + b == b;
      NoEntries();
    } else {
      EntriesOfBoth(a[1..], b);
      EntriesFirst(a);
      EntriesFirst(a + b);
      assert (a + b)[1..] == a[1..] + b && (a + b)[0] == a[0];
    }
  }

  lemma NoEntries()
    ensures PairsOfEntries([]) == []
  {
  }

  lemma EntriesFirst(a: seq<(string, Option<string>)>)
    requires a != []
    ensures PairsOfEntries(a) == PairsOfEntries([a[0]]) + PairsOfEntries(a[1..])
  {
    hide Text.Strip;
    assert PairsOfEntries([]) == [];
  }

  /** Entries and items are read one after the other, each by itself. */
  lemma {:induction false} EntriesConcat(a: seq<(string, Option<string>)>, b: seq<(string, Option<string>)>)
    ensures Pairs(Mapping(a + b)) == Pairs(Mapping(a)) + Pairs(Mapping(b))
  {
    hide PairsOfEntries;
    EntriesOfBoth(a, b);
  }

  lemma {:induction false} ItemsConcat(a: seq<string>, b: seq<string>)
    ensures Pairs(Items(a + b)) == Pairs(Items(a)) + Pairs(Items(b))
  {
    hide PairsOfItems;
    if a == [] {
      assert a + b == b;
      NoItems();
    } else {
      ItemsConcat(a[1..], b);
      ItemsCons(a[0], a[1..]);
      ItemsCons(a[0], a[1..] + b);
      assert a == [a[0]] + a[1..] && a + b == [a[0]] + (a[1..] + b);
      Regroup(PairsOfItems([a[0]]), PairsOfItems(a[1..]), PairsOfItems(b));
    }
  }

  lemma NoItems()
    ensures PairsOfItems([]) == []
  {
  }

  lemma Regroup(a: seq<Pair>, b: seq<Pair>, c: seq<Pair>)
    ensures a + (b + c) == a + b + c
  {
  }

  lemma ItemsCons(item: string, rest: seq<string>)
    ensures PairsOfItems([item] + rest) == PairsOfItems([item]) + PairsOfItems(rest)
  {
    hide Text.Strip, Text.IndexOf;
    assert ([item] + rest)[1..] == rest && [item][1..] == [];
    assert PairsOfItems([]) == [];
  }

  /** A text is the items between its commas. */
  lemma LineParsed(item: string, more: string)
    requires ',' !in item
    ensures Pairs(Line(item)) == Pairs(Items([item]))
    ensures Pairs(Line(item + "," + more)) == Pairs(Items([item])) + Pairs(Line(more))
  {
    hide Text.Split, PairsOfItems;
    Text.SplitOne(item, ',');
    Text.SplitCons(item, more, ',');
    ItemsConcat([item], Text.Split(more, ','));
    assert item + "," + more == item + [','] + more;
  }

  // ----- The patterns -----

  predicate Lower(c: char) { 'a' <= c <= 'z' }

  predicate Alphanumeric(c: char) { Lower(c) || 'A' <= c <= 'Z' || Text.IsDigit(c) }

  predicate RuntimeKeyChar(c: char) { Lower(c) || Text.IsDigit(c) || c == '.' || c == '_' || c == '-' }

  predicate VersionChar(c: char) { Alphanumeric(c) || c == '.' || c == '+' || c == '_' || c == '~' || c == '-' }

  predicate ImagePathChar(c: char) { RuntimeKeyChar(c) || c == '/' }

  predicate TagChar(c: char) { Alphanumeric(c) || c == '.' || c == '_' || c == '-' }

  predicate HexChar(c: char) { Text.IsDigit(c) || 'a' <= c <= 'f' }

  predicate Every(s: string, ok: char -> bool) {
    forall i :: 0 <= i < |s| ==> ok(s[i])
  }

  predicate RuntimeKey(s: string) {
    1 <= |s| <= 32 && Lower(s[0]) && Every(s, RuntimeKeyChar)
  }

  predicate Version(s: string) {
    1 <= |s| <= 64 && Alphanumeric(s[0]) && Every(s, VersionChar)
  }

  predicate ImagePath(s: string) {
    1 <= |s| <= 200 && (Lower(s[0]) || Text.IsDigit(s[0])) && Every(s, ImagePathChar)
  }

  predicate ImageName(s: string) {
    if ':' in s then
      var colon := Text.IndexOf(s, ':');
      ImagePath(s[..colon]) && 1 <= |s| - colon - 1 <= 128 && Every(s[colon + 1..], TagChar)
    else ImagePath(s)
  }

  predicate Hash(s: string) {
    |s| == 64 && Every(s, HexChar)
  }

  predicate Digest(s: string) {
    "sha256:" <= s && Hash(s[7..])
  }

  /** A character with one of these ASCII codes: digits, lower-case letters, or, if named, upper-case ones. */
  predicate Coded(c: char, upper: bool, others: set<int>) {
    var n := c as int;
    0x30 <= n <= 0x39 || 0x61 <= n <= 0x7A || (upper && 0x41 <= n <= 0x5A) || n in others
  }

  /** The keys and versions of the runtime: 1 to 32 and 1 to 64 characters, of which the first is a lower-case
      letter, or a letter or digit, and the others may also be `-`, `.`, `_`, for a version `+` and `~`. */
  lemma RuntimeShapes(s: string)
    ensures RuntimeKey(s) <==>
              && 1 <= |s| <= 32 && 0x61 <= s[0] as int <= 0x7A
              && forall i :: 0 <= i < |s| ==> Coded(s[i], false, {0x2D, 0x2E, 0x5F})
    ensures Version(s) <==>
              && 1 <= |s| <= 64 && Coded(s[0], true, {})
              && forall i :: 0 <= i < |s| ==> Coded(s[i], true, {0x2B, 0x2D, 0x2E, 0x5F, 0x7E})
  {
  }

  /** A path of 1 to 200 characters, which starts with a lower-case letter or a digit. */
  ghost predicate PathShape(s: string) {
    && 1 <= |s| <= 200 && Coded(s[0], false, {})
    && forall i :: 0 <= i < |s| ==> Coded(s[i], false, {0x2D, 0x2E, 0x2F, 0x5F})
  }

  /** An image is named by such a path, with or without a tag of 1 to 128 characters, and fixed by 64 hexadecimal
      digits behind `sha256:`. */
  lemma ImageShapes(path: string, tag: string, hash: string)
    requires ':' !in path
    ensures ImageName(path) <==> PathShape(path)
    ensures ImageName(path + ":" + tag) <==>
              && PathShape(path) && 1 <= |tag| <= 128
              && forall i :: 0 <= i < |tag| ==> Coded(tag[i], true, {0x2D, 0x2E, 0x5F})
    ensures Hash(hash) <==> |hash| == 64 && forall i :: 0 <= i < |hash| ==>
              0x30 <= hash[i] as int <= 0x39 || 0x61 <= hash[i] as int <= 0x66
    ensures Digest("sha256:" + hash) <==> Hash(hash)
    ensures !("sha256:" <= hash) ==> !Digest(hash)
  {
    var s := path + ":" + tag;
    assert s[|path|] == ':';
    Text.FirstIndex(s, ':', |path|);
    assert s[..|path|] == path && s[|path| + 1..] == tag;
    assert ("sha256:" + hash)[7..] == hash;
  }

  /** What `$` leaves open: `re.match` also accepts the text with one line feed after it. */
  predicate Matches(pattern: string -> bool, s: string) {
    pattern(s) || (s != "" && s[|s| - 1] == '\n' && pattern(s[..|s| - 1]))
  }

  /** That is: the text, or the text but for one line feed at its end. */
  lemma MatchesIff(pattern: string -> bool, s: string)
    ensures Matches(pattern, s) <==> exists t :: pattern(t) && (s == t || s == t + "\n")
  {
    if Matches(pattern, s) && !pattern(s) {
      assert s == s[..|s| - 1] + "\n";
    }
    forall t | pattern(t) && s == t + "\n" ensures Matches(pattern, s) {
      assert s[..|s| - 1] == t;
    }
  }

  predicate ValidRuntime(p: Pair) {
    Matches(RuntimeKey, p.0) && Matches(Version, p.1)
  }

  predicate ValidImage(p: Pair) {
    Matches(ImageName, p.0) && Matches(Digest, p.1)
  }

  predicate Unpadded(s: string) {
    s == "" || !Text.IsSpace(s[|s| - 1])
  }

  lemma StripUnpads(s: string)
    ensures Unpadded(Text.Strip(s))
  {
    Text.TrimRightKeeps(Text.TrimLeft(s, Text.IsSpace), Text.IsSpace);
  }

  ghost predicate AllUnpadded(pairs: seq<Pair>) {
    forall p :: p in pairs ==> Unpadded(p.0) && Unpadded(p.1)
  }

  lemma {:induction false} EntriesUnpadded(entries: seq<(string, Option<string>)>)
    ensures AllUnpadded(PairsOfEntries(entries))
  {
    if entries != [] {
      EntriesUnpadded(entries[1..]);
      StripUnpads(entries[0].0);
      if entries[0].1.Some? {
        StripUnpads(entries[0].1.value);
      }
    }
  }

  lemma {:induction false} ItemsUnpadded(items: seq<string>)
    ensures AllUnpadded(PairsOfItems(items))
  {
    if items != [] {
      ItemsUnpadded(items[1..]);
      if '=' in items[0] {
        var at := Text.IndexOf(items[0], '=');
        StripUnpads(items[0][..at]);
        StripUnpads(items[0][at + 1..]);
      }
    }
  }

  /** Every pair has been stripped, so the loophole of `$` cannot be reached from any layer. */
  lemma {:induction false} PairsUnpadded(layer: Layer)
    ensures AllUnpadded(Pairs(layer))
    ensures forall p :: p in Pairs(layer) ==> (ValidRuntime(p) <==> RuntimeKey(p.0) && Version(p.1))
    ensures forall p :: p in Pairs(layer) ==> (ValidImage(p) <==> ImageName(p.0) && Digest(p.1))
  {
    match layer {
      case Nothing =>
      case Mapping(entries) => EntriesUnpadded(entries);
      case Items(items) => ItemsUnpadded(items);
      case Line(text) => ItemsUnpadded(Text.Split(text, ','));
    }
    hide RuntimeKey, Version, ImageName, Digest;
  }

  // ----- The merges -----

  datatype Section = Runtime | Images

  function Cap(section: Section): nat {
    if section.Runtime? then RUNTIME_MAX else IMAGES_MAX
  }

  predicate Valid(section: Section, p: Pair) {
    if section.Runtime? then ValidRuntime(p) else ValidImage(p)
  }

  predicate HasKey(d: Dict, k: string) {
    exists p :: p in d && p.0 == k
  }

  /** The valid pairs, the first for each key, until there are `Cap(section)`. */
  function Collected(pairs: seq<Pair>, section: Section): Dict {
    if pairs == [] then []
    else
      var sofar, p := Collected(pairs[..|pairs| - 1], section), pairs[|pairs| - 1];
      if HasKey(sofar, p.0) || !Valid(section, p) || |sofar| >= Cap(section) then sofar else sofar + [p]
  }

  /** The pair at `i` is the first valid one for its key. */
  ghost predicate Leads(pairs: seq<Pair>, section: Section, i: nat)
    requires i < |pairs|
  {
    Valid(section, pairs[i]) && forall j :: 0 <= j < i && Valid(section, pairs[j]) ==> pairs[j].0 != pairs[i].0
  }

  /** `at` lists, in order, where the entries of `d` stand in `pairs`: at leading places, no leading place
      passed over, and all of them unless `d` is full. */
  ghost predicate TakenAt(pairs: seq<Pair>, section: Section, d: Dict, at: seq<nat>) {
    && |at| == |d| <= Cap(section)
    && (forall t :: 0 <= t < |at| ==> at[t] < |pairs| && pairs[at[t]] == d[t] && Leads(pairs, section, at[t]))
    && (forall t, u :: 0 <= t < u < |at| ==> at[t] < at[u])
    && (forall i: nat :: i < |pairs| && Leads(pairs, section, i) ==>
          i in at || (|d| == Cap(section) && forall t :: 0 <= t < |at| ==> at[t] < i))
  }

  lemma {:induction false} LeaderExists(pairs: seq<Pair>, section: Section, i: nat) returns (j: nat)
    requires i < |pairs| && Valid(section, pairs[i])
    ensures j <= i && Leads(pairs, section, j) && pairs[j].0 == pairs[i].0
    decreases i
  {
    if Leads(pairs, section, i) {
      j := i;
    } else {
      var k :| 0 <= k < i && Valid(section, pairs[k]) && pairs[k].0 == pairs[i].0;
      j := LeaderExists(pairs, section, k);
    }
  }

  lemma LeadsInPrefix(pairs: seq<Pair>, p: Pair, section: Section, i: nat)
    requires i < |pairs|
    ensures Leads(pairs + [p], section, i) <==> Leads(pairs, section, i)
  {
    forall j | 0 <= j <= i ensures (pairs + [p])[j] == pairs[j] {
    }
  }

  lemma LastLeads(init: seq<Pair>, p: Pair, section: Section, d: Dict, at: seq<nat>)
    requires TakenAt(init, section, d, at) && |d| < Cap(section)
    ensures Leads(init + [p], section, |init|) <==> Valid(section, p) && !HasKey(d, p.0)
  {
    var pairs := init + [p];
    forall k | 0 <= k < |init| && Valid(section, init[k]) ensures HasKey(d, init[k].0) {
      var j := LeaderExists(init, section, k);
      var t :| 0 <= t < |at| && at[t] == j;
      assert d[t] in d;
    }
    if HasKey(d, p.0) {
      var q :| q in d && q.0 == p.0;
      var t :| 0 <= t < |d| && d[t] == q;
      assert pairs[at[t]] == q;
    }
  }

  /** A pair that does not lead, or arrives when the section is full, leaves the list as it is. */
  lemma TakenAtKeep(init: seq<Pair>, p: Pair, section: Section, d: Dict, at: seq<nat>)
    requires TakenAt(init, section, d, at)
    requires |d| == Cap(section) || !Leads(init + [p], section, |init|)
    ensures TakenAt(init + [p], section, d, at)
  {
    var pairs := init + [p];
    forall i: nat | i < |init| ensures Leads(pairs, section, i) <==> Leads(init, section, i) {
      LeadsInPrefix(init, p, section, i);
    }
    hide Leads;
  }

  lemma TakenAtExtend(init: seq<Pair>, p: Pair, section: Section, d: Dict, at: seq<nat>)
    requires TakenAt(init, section, d, at)
    requires |d| < Cap(section) && Leads(init + [p], section, |init|)
    ensures TakenAt(init + [p], section, d + [p], at + [|init|])
  {
    var pairs := init + [p];
    forall i: nat | i < |init| ensures Leads(pairs, section, i) <==> Leads(init, section, i) {
      LeadsInPrefix(init, p, section, i);
    }
    hide Leads;
  }

  lemma FullSize(pairs: seq<Pair>, section: Section, d: Dict, at: seq<nat>)
    requires TakenAt(pairs, section, d, at) && |d| >= Cap(section)
    ensures |d| == Cap(section)
  {
  }

  /** Merging takes exactly the first valid pair of each key, in order, until the section is full. */
  lemma {:induction false} CollectedExact(pairs: seq<Pair>, section: Section) returns (at: seq<nat>)
    ensures TakenAt(pairs, section, Collected(pairs, section), at)
  {
    if pairs == [] {
      at := [];
    } else {
      var n := |pairs| - 1;
      var init, p := pairs[..n], pairs[n];
      assert pairs == init + [p];
      var before := CollectedExact(init, section);
      var d := Collected(init, section);
      hide TakenAt, Leads, HasKey, Valid;
      if |d| >= Cap(section) {
        at := before;
        FullSize(init, section, d, before);
        TakenAtKeep(init, p, section, d, at);
      } else {
        LastLeads(init, p, section, d, before);
        if HasKey(d, p.0) || !Valid(section, p) {
          at := before;
          TakenAtKeep(init, p, section, d, at);
        } else {
          at := before + [n];
          TakenAtExtend(init, p, section, d, before);
        }
      }
    }
  }

  /** No key twice, only valid pairs, at most `Cap(section)`. */
  lemma CollectedIsDict(pairs: seq<Pair>, section: Section)
    ensures var d := Collected(pairs, section);
            && |d| <= (if section.Runtime? then 16 else 8)
            && (|d| < (if section.Runtime? then 16 else 8) ==>
                  forall p :: p in pairs && Valid(section, p) ==> HasKey(d, p.0))
            && (forall t :: 0 <= t < |d| ==> Valid(section, d[t]) && d[t] in pairs)
            && (forall t, u :: 0 <= t < u < |d| ==> d[t].0 != d[u].0)
  {
    var at := CollectedExact(pairs, section);
    var d := Collected(pairs, section);
    forall t, u | 0 <= t < u < |d| ensures d[t].0 != d[u].0 {
      assert Leads(pairs, section, at[u]) && Valid(section, pairs[at[t]]);
    }
    hide Collected;
  }

  /** A valid pair of an earlier layer beats every later one for its key: explicit values win over detected. */
  lemma EarlierPairWins(pairs: seq<Pair>, later: seq<Pair>, section: Section, p: Pair)
    requires p in pairs && Valid(section, p)
    ensures forall q :: q in Collected(pairs + later, section) && q.0 == p.0 ==> q in pairs
  {
    var all := pairs + later;
    var at := CollectedExact(all, section);
    var d := Collected(all, section);
    var i :| 0 <= i < |pairs| && pairs[i] == p;
    assert all[i] == p;
    hide Collected;
    forall q | q in d && q.0 == p.0 ensures q in pairs {
      var t :| 0 <= t < |d| && d[t] == q;
      assert Leads(all, section, at[t]);
      assert at[t] <= i;
      assert all[at[t]] == pairs[at[t]];
    }
  }

  lemma CollectedSnoc(pairs: seq<Pair>, p: Pair, section: Section)
    ensures var d := Collected(pairs, section);
            Collected(pairs + [p], section)
            == if HasKey(d, p.0) || !Valid(section, p) || |d| >= Cap(section) then d else d + [p]
  {
    assert (pairs + [p])[..|pairs|] == pairs;
  }

  /** Once a section is full, the rest changes nothing: leaving the loops early is harmless. */
  lemma {:induction false} CollectedFull(pairs: seq<Pair>, more: seq<Pair>, section: Section)
    requires |Collected(pairs, section)| >= Cap(section)
    ensures Collected(pairs + more, section) == Collected(pairs, section)
    decreases |more|
  {
    if more == [] {
      assert pairs + more == pairs;
    } else {
      var n := |more| - 1;
      CollectedFull(pairs, more[..n], section);
      assert pairs + more == pairs + more[..n] + [more[n]];
      CollectedSnoc(pairs + more[..n], more[n], section);
      hide Collected;
    }
  }

  lemma {:induction false} AllPairsAppend(a: seq<Layer>, b: seq<Layer>)
    ensures AllPairs(a + b) == AllPairs(a) + AllPairs(b)
    decreases |b|
  {
    hide Pairs;
    if b == [] {
      assert a + b == a;
    } else {
      var n := |b| - 1;
      AllPairsAppend(a, b[..n]);
      assert (a + b)[..|a| + n] == a + b[..n];
    }
  }

  /** What is collected after the layers before `i` and the first `j` pairs of layer `i`. */
  function Sofar(layers: seq<Layer>, i: nat, j: nat, section: Section): Dict
    requires i < |layers| && j <= |Pairs(layers[i])|
  {
    Collected(AllPairs(layers[..i]) + Pairs(layers[i])[..j], section)
  }

  lemma SofarBounds(layers: seq<Layer>, i: nat, section: Section)
    requires i < |layers|
    ensures Sofar(layers, i, 0, section) == Collected(AllPairs(layers[..i]), section)
    ensures Sofar(layers, i, |Pairs(layers[i])|, section) == Collected(AllPairs(layers[..i + 1]), section)
  {
    hide Collected, Pairs;
    var done, pairs := AllPairs(layers[..i]), Pairs(layers[i]);
    assert done + pairs[..0] == done && pairs[..|pairs|] == pairs;
    assert layers[..i + 1][..i] == layers[..i];
  }

  lemma SofarStep(layers: seq<Layer>, i: nat, j: nat, section: Section)
    requires i < |layers| && j < |Pairs(layers[i])|
    ensures var d, p := Sofar(layers, i, j, section), Pairs(layers[i])[j];
            Sofar(layers, i, j + 1, section)
            == if HasKey(d, p.0) || !Valid(section, p) || |d| >= Cap(section) then d else d + [p]
  {
    hide Collected, Pairs, AllPairs;
    var done, pairs := AllPairs(layers[..i]), Pairs(layers[i]);
    assert done + pairs[..j] + [pairs[j]] == done + pairs[..j + 1];
    CollectedSnoc(done + pairs[..j], pairs[j], section);
  }

  lemma SofarFull(layers: seq<Layer>, i: nat, j: nat, section: Section)
    requires i < |layers| && j <= |Pairs(layers[i])| && |Sofar(layers, i, j, section)| >= Cap(section)
    ensures Sofar(layers, i, j, section) == Collected(AllPairs(layers), section)
  {
    hide Collected, Pairs;
    var done, pairs := AllPairs(layers[..i]), Pairs(layers[i]);
    var rest := AllPairs(layers[i + 1..]);
    assert layers == layers[..i + 1] + layers[i + 1..];
    AllPairsAppend(layers[..i + 1], layers[i + 1..]);
    assert layers[..i + 1][..i] == layers[..i];
    assert done + pairs + rest == done + pairs[..j] + (pairs[j..] + rest);
    CollectedFull(done + pairs[..j], pairs[j..] + rest, section);
  }

  lemma RuntimeStep(layers: seq<Layer>, i: nat, j: nat)
    requires i < |layers| && j < |Pairs(layers[i])|
    ensures var d, p := Sofar(layers, i, j, Runtime), Pairs(layers[i])[j];
            && Sofar(layers, i, j + 1, Runtime)
               == (if HasKey(d, p.0) || !ValidRuntime(p) || |d| >= RUNTIME_MAX then d else d + [p])
            && (|d| >= RUNTIME_MAX ==> d == Collected(AllPairs(layers), Runtime))
  {
    SofarStep(layers, i, j, Runtime);
    if |Sofar(layers, i, j, Runtime)| >= RUNTIME_MAX {
      SofarFull(layers, i, j, Runtime);
    }
    hide Sofar, Pairs, ValidRuntime, HasKey, Collected;
  }

  lemma NothingMerged(layers: seq<Layer>)
    ensures Collected(AllPairs(layers[..0]), Runtime) == []
  {
    assert AllPairs(layers[..0]) == [];
  }

  method MergeRuntime(layers: seq<Layer>) returns (merged: Dict)
    ensures merged == Collected(AllPairs(layers), Runtime)
  {
    hide *;
    merged := [];
    var i := 0;
    NothingMerged(layers);
    while i < |layers|
      invariant 0 <= i <= |layers|
      invariant merged == Collected(AllPairs(layers[..i]), Runtime)
    {
      var pairs := Pairs(layers[i]);
      SofarBounds(layers, i, Runtime);
      var j := 0;
      while j < |pairs|
        invariant 0 <= j <= |pairs|
        invariant merged == Sofar(layers, i, j, Runtime)
      {
        RuntimeStep(layers, i, j);
        if !HasKey(merged, pairs[j].0) && ValidRuntime(pairs[j]) {
          if |merged| >= RUNTIME_MAX {
            return;
          }
          merged := merged + [pairs[j]];
        }
        j := j + 1;
      }
      i := i + 1;
    }
    assert layers[..i] == layers;
  }

  /** The images one layer names. */
  function ImagesIn(layer: Layer): Dict {
    Collected(Pairs(layer), Images)
  }

  lemma ImagesInEnds(layer: Layer)
    ensures Collected(Pairs(layer)[..0], Images) == []
    ensures Collected(Pairs(layer)[..|Pairs(layer)|], Images) == ImagesIn(layer)
  {
    var pairs := Pairs(layer);
    assert pairs[..|pairs|] == pairs;
    hide Pairs;
  }

  lemma ImagesInStep(layer: Layer, j: nat)
    requires j < |Pairs(layer)|
    ensures var d, p := Collected(Pairs(layer)[..j], Images), Pairs(layer)[j];
            && Collected(Pairs(layer)[..j + 1], Images)
               == (if HasKey(d, p.0) || !ValidImage(p) || |d| >= IMAGES_MAX then d else d + [p])
            && (|d| >= IMAGES_MAX ==> ImagesIn(layer) == d)
  {
    hide Pairs, Collected;
    var pairs := Pairs(layer);
    assert pairs[..j] + [pairs[j]] == pairs[..j + 1] && pairs[..j] + pairs[j..] == pairs;
    CollectedSnoc(pairs[..j], pairs[j], Images);
    if |Collected(pairs[..j], Images)| >= IMAGES_MAX {
      CollectedFull(pairs[..j], pairs[j..], Images);
    }
  }

  method MergeImages(layers: seq<Layer>) returns (images: Dict)
    ensures images == [] ==> forall k :: 0 <= k < |layers| ==> ImagesIn(layers[k]) == []
    ensures images != [] ==>
              exists k :: && 0 <= k < |layers| && images == ImagesIn(layers[k])
                          && forall m :: 0 <= m < k ==> ImagesIn(layers[m]) == []
  {
    hide *;
    var i := 0;
    while i < |layers|
      invariant 0 <= i <= |layers|
      invariant forall k :: 0 <= k < i ==> ImagesIn(layers[k]) == []
    {
      var pairs := Pairs(layers[i]);
      images := [];
      ImagesInEnds(layers[i]);
      var j := 0;
      while j < |pairs|
        invariant 0 <= j <= |pairs|
        invariant images == Collected(pairs[..j], Images)
      {
        ImagesInStep(layers[i], j);
        if !HasKey(images, pairs[j].0) && ValidImage(pairs[j]) {
          if |images| >= IMAGES_MAX {
            break;
          }
          images := images + [pairs[j]];
        }
        j := j + 1;
      }
      assert images == ImagesIn(layers[i]);
      if images != [] {
        return;
      }
      i := i + 1;
    }
    images := [];
  }
}
