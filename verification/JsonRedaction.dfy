/**
 The redaction walk over a JSON body and the schema stored beside it. The text rules (provider tokens,
 credentials, e-mail, phone, card and address shapes) and the key test are parameters; what is assumed of them
 is stated in `Lawful`. An object is its members in order, as a Python dict keeps them.
 */
module JsonRedaction {
  import opened Options
  import opened Text
  import opened Settle
  import opened PasswordRule
  import opened PasswordRounds
  import opened PasswordSettle

  const JSON_DEPTH_MAX: nat := 10
  const SCHEMA_KEYS_MAX: nat := 200
  const UNNAMED_KEYS: string := "_unnamed_keys"

  datatype Json =
    | Null
    | Bool(b: bool)
    | Number(literal: string)
    | Str(s: string)
    | Arr(items: seq<Json>)
    | Obj(members: seq<Member>)

  datatype Member = Member(key: string, value: Json)

  datatype Rules = Rules(textPass: string -> string, keyIsSecret: string -> bool)

  /** `_clean` drops U+0000 (lone surrogates do not occur in a Dafny string). */
  function Clean(s: string): string {
    if s == [] then [] else (if s[0] == '\0' then [] else [s[0]]) + Clean(s[1..])
  }

  predicate NulFree(s: string) {
    forall i :: 0 <= i < |s| ==> s[i] != '\0'
  }

  lemma {:induction false} CleanIsNulFree(s: string)
    ensures NulFree(Clean(s)) && (Clean(s) == s <==> NulFree(s)) && |Clean(s)| <= |s|
  {
    if s != [] {
      CleanIsNulFree(s[1..]);
      if s[0] == '\0' {
        assert |Clean(s)| < |s|;
      } else {
        assert s == [s[0]] + s[1..];
      }
    }
  }

  /** What the regular-expression table is assumed to do: the marker survives, no U+0000 appears, a text is blank
      only if it was, blank text is left alone, and redacting a name never makes it a secret one. That a second
      pass changes nothing is not assumed: of some texts it is false. */
  ghost predicate Lawful(rules: Rules) {
    && rules.textPass(REDACTED) == REDACTED
    && (forall x :: NulFree(x) ==> NulFree(rules.textPass(x)))
    && (forall x :: Blank(x) ==> rules.textPass(x) == x)
    && (forall x :: !Blank(x) ==> !Blank(rules.textPass(x)))
    && (forall x :: rules.keyIsSecret(rules.textPass(x)) ==> rules.keyIsSecret(x))
  }

  lemma LawsAt(rules: Rules, x: string)
    requires Lawful(rules)
    ensures rules.textPass(REDACTED) == REDACTED
    ensures NulFree(x) ==> NulFree(rules.textPass(x))
    ensures rules.keyIsSecret(rules.textPass(x)) ==> rules.keyIsSecret(x)
    ensures Clean(REDACTED) == REDACTED
  {
    hide NulFree, Blank;
    RedactedNulFree();
    CleanIsNulFree(REDACTED);
  }

  lemma RedactedNulFree()
    ensures NulFree(REDACTED)
  {
  }

  predicate Container(v: Json) {
    v.Arr? || v.Obj?
  }

  /** A secret-named value that is replaced: neither null nor a boolean. */
  predicate Replaceable(v: Json) {
    !v.Null? && !v.Bool?
  }

  /** Dict assignment: an existing key keeps its place. */
  function Put(members: seq<Member>, key: string, value: Json): seq<Member> {
    if members == [] then [Member(key, value)]
    else if members[0].key == key then [Member(key, value)] + members[1..]
    else [members[0]] + Put(members[1..], key, value)
  }

  function Walk(rules: Rules, v: Json, depth: nat): Json
    decreases v, 1
  {
    if Container(v) && depth > JSON_DEPTH_MAX then Str(REDACTED)
    else
      match v
      case Obj(members) => Obj(WalkMembers(rules, members, depth, []))
      case Arr(items) => Arr(WalkItems(rules, items, depth))
      case Str(s) => Str(rules.textPass(Clean(s)))
      case _ => v
  }

  function WalkItems(rules: Rules, items: seq<Json>, depth: nat): seq<Json>
    decreases items, 0
  {
    if items == [] then [] else [Walk(rules, items[0], depth + 1)] + WalkItems(rules, items[1..], depth)
  }

  function WalkMember(rules: Rules, m: Member, depth: nat): Member
    decreases m, 0
  {
    var name := Clean(m.key);
    var value := if rules.keyIsSecret(name) && Replaceable(m.value) then Str(REDACTED)
                 else Walk(rules, m.value, depth + 1);
    Member(rules.textPass(name), value)
  }

  function WalkMembers(rules: Rules, members: seq<Member>, depth: nat, out: seq<Member>): seq<Member>
    decreases members, 0
  {
    if members == [] then out
    else
      var m := WalkMember(rules, members[0], depth);
      WalkMembers(rules, members[1..], depth, Put(out, m.key, m.value))
  }

  // ----- Members -----

  ghost predicate DistinctKeys(members: seq<Member>) {
    forall i, j :: 0 <= i < j < |members| ==> members[i].key != members[j].key
  }

  ghost predicate HasMember(members: seq<Member>, k: string) {
    exists i :: 0 <= i < |members| && members[i].key == k
  }

  /** Everything in `members` is what a walk at `depth` leaves alone. */
  ghost predicate Stable(rules: Rules, members: seq<Member>, depth: nat) {
    forall i :: 0 <= i < |members| ==> WalkMember(rules, members[i], depth) == members[i]
  }

  lemma {:induction false} PutKeys(members: seq<Member>, m: Member)
    requires DistinctKeys(members)
    ensures var r := Put(members, m.key, m.value);
            && DistinctKeys(r)
            && (forall i :: 0 <= i < |r| ==> r[i].key == m.key || HasMember(members, r[i].key))
    decreases |members|
  {
    if members != [] && members[0].key != m.key {
      var tail := members[1..];
      PutKeys(tail, m);
      var rest := Put(tail, m.key, m.value);
      forall i | 0 <= i < |rest|
        ensures rest[i].key != members[0].key && (rest[i].key == m.key || HasMember(members, rest[i].key))
      {
        if rest[i].key != m.key {
          var j :| 0 <= j < |tail| && tail[j].key == rest[i].key;
          assert members[j + 1] == tail[j];
        }
      }
    }
  }

  lemma {:induction false} PutAppends(members: seq<Member>, m: Member)
    requires forall i :: 0 <= i < |members| ==> members[i].key != m.key
    ensures Put(members, m.key, m.value) == members + [m]
    decreases |members|
  {
    if members != [] {
      PutAppends(members[1..], m);
      assert members == [members[0]] + members[1..];
    }
  }

  lemma {:induction false} StableMembersStay(rules: Rules, members: seq<Member>, depth: nat, out: seq<Member>)
    requires Stable(rules, members, depth) && Stable(rules, out, depth) && DistinctKeys(out + members)
    ensures WalkMembers(rules, members, depth, out) == out + members
    decreases |members|
  {
    if members == [] {
      assert out + members == out;
    } else {
      var m := members[0];
      var all := out + members;
      assert all[|out|] == m && forall i :: 0 <= i < |out| ==> all[i] == out[i];
      assert WalkMember(rules, m, depth) == m;
      assert forall i :: 0 <= i < |out| ==> out[i].key != m.key;
      hide WalkMember;
      PutAppends(out, m);
      assert (out + [m]) + members[1..] == all;
      assert Stable(rules, members[1..], depth);
      StableMembersStay(rules, members[1..], depth, out + [m]);
    }
  }

  // ----- What a walk leaves alone -----

  /** Nothing here is to be redacted: no text or name the rules would change, nothing but null, a boolean or the
      marker under a secret name, no container too deep, no name twice. */
  ghost predicate Innocent(rules: Rules, v: Json, depth: nat)
    decreases v
  {
    match v
    case Str(s) => NulFree(s) && rules.textPass(s) == s
    case Arr(items) =>
      depth <= JSON_DEPTH_MAX && forall i :: 0 <= i < |items| ==> Innocent(rules, items[i], depth + 1)
    case Obj(members) =>
      && depth <= JSON_DEPTH_MAX && DistinctKeys(members)
      && forall i :: 0 <= i < |members| ==> InnocentMember(rules, members[i], depth)
    case _ => true
  }

  ghost predicate InnocentMember(rules: Rules, m: Member, depth: nat)
    decreases m
  {
    && NulFree(m.key) && rules.textPass(m.key) == m.key
    && if rules.keyIsSecret(m.key) && Replaceable(m.value) then m.value == Str(REDACTED)
       else Innocent(rules, m.value, depth + 1)
  }

  lemma TextStaysIff(rules: Rules, s: string)
    requires Lawful(rules)
    ensures rules.textPass(Clean(s)) == s <==> NulFree(s) && rules.textPass(s) == s
  {
    CleanIsNulFree(s);
    LawsAt(rules, Clean(s));
  }

  lemma {:induction false} WalkItemsAt(rules: Rules, items: seq<Json>, depth: nat)
    ensures |WalkItems(rules, items, depth)| == |items|
    ensures forall i :: 0 <= i < |items| ==> WalkItems(rules, items, depth)[i] == Walk(rules, items[i], depth + 1)
  {
    if items != [] {
      WalkItemsAt(rules, items[1..], depth);
      hide Walk;
    }
  }

  lemma {:induction false} PutLength(members: seq<Member>, m: Member)
    ensures var r := Put(members, m.key, m.value);
            |members| <= |r| <= |members| + 1 && (|r| == |members| + 1 ==> r == members + [m])
    decreases |members|
  {
    if members != [] && members[0].key != m.key {
      PutLength(members[1..], m);
      assert members == [members[0]] + members[1..];
    }
  }

  function WalkEach(rules: Rules, members: seq<Member>, depth: nat): seq<Member> {
    if members == [] then [] else [WalkMember(rules, members[0], depth)] + WalkEach(rules, members[1..], depth)
  }

  lemma {:induction false} WalkEachAt(rules: Rules, members: seq<Member>, depth: nat)
    ensures |WalkEach(rules, members, depth)| == |members|
    ensures forall i :: 0 <= i < |members| ==>
              WalkEach(rules, members, depth)[i] == WalkMember(rules, members[i], depth)
  {
    if members != [] {
      WalkEachAt(rules, members[1..], depth);
      hide WalkMember;
    }
  }

  /** A walk of members loses one only where two walked names meet; otherwise it is the walk of each. */
  lemma {:induction false} WalkMembersLength(rules: Rules, members: seq<Member>, depth: nat, out: seq<Member>)
    ensures var r := WalkMembers(rules, members, depth, out);
            |r| <= |out| + |members| && (|r| == |out| + |members| ==> r == out + WalkEach(rules, members, depth))
    decreases |members|
  {
    if members == [] {
      assert out + WalkEach(rules, members, depth) == out;
    } else {
      var m := WalkMember(rules, members[0], depth);
      PutLength(out, m);
      WalkMembersLength(rules, members[1..], depth, Put(out, m.key, m.value));
      hide WalkMember, Put;
      assert out + [m] + WalkEach(rules, members[1..], depth) == out + WalkEach(rules, members, depth);
    }
  }

  lemma {:induction false} WalkMembersDistinct(rules: Rules, members: seq<Member>, depth: nat, out: seq<Member>)
    requires DistinctKeys(out)
    ensures DistinctKeys(WalkMembers(rules, members, depth, out))
    decreases |members|
  {
    if members != [] {
      var m := WalkMember(rules, members[0], depth);
      PutKeys(out, m);
      WalkMembersDistinct(rules, members[1..], depth, Put(out, m.key, m.value));
      hide WalkMember, Put, DistinctKeys;
    }
  }

  lemma MembersStayIff(rules: Rules, members: seq<Member>, depth: nat)
    ensures WalkMembers(rules, members, depth, []) == members
            <==> DistinctKeys(members) && Stable(rules, members, depth)
  {
    assert [] + members == members;
    if DistinctKeys(members) && Stable(rules, members, depth) {
      StableMembersStay(rules, members, depth, []);
    }
    WalkMembersDistinct(rules, members, depth, []);
    WalkMembersLength(rules, members, depth, []);
    WalkEachAt(rules, members, depth);
    assert [] + WalkEach(rules, members, depth) == WalkEach(rules, members, depth);
    hide WalkMembers, WalkMember, WalkEach, DistinctKeys;
  }

  lemma MemberStaysIff(rules: Rules, m: Member, depth: nat)
    requires Lawful(rules)
    requires Walk(rules, m.value, depth + 1) == m.value <==> Innocent(rules, m.value, depth + 1)
    ensures WalkMember(rules, m, depth) == m <==> InnocentMember(rules, m, depth)
  {
    TextStaysIff(rules, m.key);
    CleanIsNulFree(m.key);
    LawsAt(rules, Clean(m.key));
    hide Walk, Innocent, Lawful, NulFree, Clean;
  }

  lemma ArrayStaysIff(rules: Rules, items: seq<Json>, depth: nat)
    requires forall i :: 0 <= i < |items| ==>
               (Walk(rules, items[i], depth + 1) == items[i] <==> Innocent(rules, items[i], depth + 1))
    ensures Walk(rules, Arr(items), depth) == Arr(items) <==> Innocent(rules, Arr(items), depth)
  {
    WalkItemsAt(rules, items, depth);
    hide WalkItems;
  }

  lemma ObjectStaysIff(rules: Rules, members: seq<Member>, depth: nat)
    requires Lawful(rules)
    requires forall i :: 0 <= i < |members| ==>
               (WalkMember(rules, members[i], depth) == members[i] <==> InnocentMember(rules, members[i], depth))
    ensures Walk(rules, Obj(members), depth) == Obj(members) <==> Innocent(rules, Obj(members), depth)
  {
    MembersStayIff(rules, members, depth);
    hide Lawful, WalkMembers, WalkMember, InnocentMember, DistinctKeys;
  }

  /** A walk changes a value exactly when there is something in it to redact: what is innocent stays as it is. */
  lemma {:induction false} WalkStaysIff(rules: Rules, v: Json, depth: nat)
    requires Lawful(rules)
    ensures Walk(rules, v, depth) == v <==> Innocent(rules, v, depth)
    decreases v
  {
    if v.Str? {
      TextStaysIff(rules, v.s);
    }
    if v.Arr? {
      ArrayItemsStayIff(rules, v.items, depth);
      ArrayStaysIff(rules, v.items, depth);
    }
    if v.Obj? {
      ObjectMembersStayIff(rules, v.members, depth);
      ObjectStaysIff(rules, v.members, depth);
    }
    hide Lawful, WalkMembers, WalkItems, NulFree, Clean;
  }

  lemma {:induction false} ArrayItemsStayIff(rules: Rules, items: seq<Json>, depth: nat)
    requires Lawful(rules)
    ensures forall i :: 0 <= i < |items| ==>
              (Walk(rules, items[i], depth + 1) == items[i] <==> Innocent(rules, items[i], depth + 1))
    decreases items
  {
    hide *;
    forall i | 0 <= i < |items|
      ensures Walk(rules, items[i], depth + 1) == items[i] <==> Innocent(rules, items[i], depth + 1)
    {
      WalkStaysIff(rules, items[i], depth + 1);
    }
  }

  lemma {:induction false} ObjectMembersStayIff(rules: Rules, members: seq<Member>, depth: nat)
    requires Lawful(rules)
    ensures forall i :: 0 <= i < |members| ==>
              (WalkMember(rules, members[i], depth) == members[i] <==> InnocentMember(rules, members[i], depth))
    decreases members
  {
    hide *;
    forall i | 0 <= i < |members|
      ensures WalkMember(rules, members[i], depth) == members[i] <==> InnocentMember(rules, members[i], depth)
    {
      assert members[i].value < members[i];
      WalkStaysIff(rules, members[i].value, depth + 1);
      MemberStaysIff(rules, members[i], depth);
    }
  }

  // ----- A second walk -----

  /** What any walk leaves: no U+0000, no container too deep, no name twice, nothing but null, a boolean or the
      marker under a secret name. */
  ghost predicate Shaped(rules: Rules, v: Json, depth: nat)
    decreases v
  {
    match v
    case Str(s) => NulFree(s)
    case Arr(items) =>
      depth <= JSON_DEPTH_MAX && forall i :: 0 <= i < |items| ==> Shaped(rules, items[i], depth + 1)
    case Obj(members) =>
      && depth <= JSON_DEPTH_MAX && DistinctKeys(members)
      && forall i :: 0 <= i < |members| ==> ShapedMember(rules, members[i], depth)
    case _ => true
  }

  ghost predicate ShapedMember(rules: Rules, m: Member, depth: nat)
    decreases m
  {
    && NulFree(m.key)
    && (rules.keyIsSecret(m.key) && Replaceable(m.value) ==> m.value == Str(REDACTED))
    && Shaped(rules, m.value, depth + 1)
  }

  lemma {:induction false} WalkedMemberShaped(rules: Rules, m: Member, depth: nat)
    requires Lawful(rules) && Shaped(rules, Walk(rules, m.value, depth + 1), depth + 1)
    ensures ShapedMember(rules, WalkMember(rules, m, depth), depth)
  {
    CleanIsNulFree(m.key);
    CleanIsNulFree(REDACTED);
    LawsAt(rules, Clean(m.key));
    hide Lawful, Clean, NulFree, WalkMembers, WalkItems;
  }

  lemma {:induction false} WalkMembersShaped(rules: Rules, members: seq<Member>, depth: nat, out: seq<Member>)
    requires Lawful(rules) && forall m :: m in out ==> ShapedMember(rules, m, depth)
    ensures forall m :: m in WalkMembers(rules, members, depth, out) ==> ShapedMember(rules, m, depth)
    decreases members, 0
  {
    hide Lawful, ShapedMember, WalkMember;
    if members != [] {
      assert members[0].value < members[0];
      WalkShaped(rules, members[0].value, depth + 1);
      WalkedMemberShaped(rules, members[0], depth);
      var w := WalkMember(rules, members[0], depth);
      PutIn(out, w.key, w.value);
      WalkMembersShaped(rules, members[1..], depth, Put(out, w.key, w.value));
    }
  }

  lemma {:induction false} WalkObjectShaped(rules: Rules, members: seq<Member>, depth: nat)
    requires Lawful(rules) && depth <= JSON_DEPTH_MAX
    ensures Shaped(rules, Obj(WalkMembers(rules, members, depth, [])), depth)
    decreases members, 1
  {
    hide Lawful, ShapedMember, WalkMembers, DistinctKeys;
    EmptyDistinct();
    WalkMembersShaped(rules, members, depth, []);
    WalkMembersDistinct(rules, members, depth, []);
  }

  lemma EmptyDistinct()
    ensures DistinctKeys([])
  {
  }

  lemma {:induction false} WalkArrayShaped(rules: Rules, items: seq<Json>, depth: nat)
    requires Lawful(rules) && depth <= JSON_DEPTH_MAX
    ensures Shaped(rules, Arr(WalkItems(rules, items, depth)), depth)
    decreases items, 0
  {
    hide Lawful, Walk, WalkItems;
    WalkItemsAt(rules, items, depth);
    forall i | 0 <= i < |items|
      ensures Shaped(rules, Walk(rules, items[i], depth + 1), depth + 1)
    {
      WalkShaped(rules, items[i], depth + 1);
    }
  }

  lemma {:induction false} WalkShaped(rules: Rules, v: Json, depth: nat)
    requires Lawful(rules)
    ensures Shaped(rules, Walk(rules, v, depth), depth)
    decreases v, 1
  {
    hide Lawful, WalkMembers, WalkItems, NulFree;
    if Container(v) && depth > JSON_DEPTH_MAX {
      CleanIsNulFree(REDACTED);
      LawsAt(rules, REDACTED);
    } else if v.Obj? {
      WalkObjectShaped(rules, v.members, depth);
    } else if v.Arr? {
      WalkArrayShaped(rules, v.items, depth);
    } else if v.Str? {
      CleanIsNulFree(v.s);
      LawsAt(rules, Clean(v.s));
    }
  }

  /** Every name and string in the value passes the text rules unchanged. */
  ghost predicate TextsStay(rules: Rules, v: Json)
    decreases v
  {
    match v
    case Str(s) => rules.textPass(s) == s
    case Arr(items) => forall i :: 0 <= i < |items| ==> TextsStay(rules, items[i])
    case Obj(members) =>
      forall i :: 0 <= i < |members| ==>
        && rules.textPass(members[i].key) == members[i].key
        && (assert members[i].value < members[i]; TextsStay(rules, members[i].value))
    case _ => true
  }

  lemma {:induction false} ShapedInnocentIff(rules: Rules, v: Json, depth: nat)
    requires Lawful(rules) && Shaped(rules, v, depth)
    ensures Innocent(rules, v, depth) <==> TextsStay(rules, v)
    decreases v
  {
    if v.Arr? {
      forall i | 0 <= i < |v.items|
        ensures Innocent(rules, v.items[i], depth + 1) <==> TextsStay(rules, v.items[i])
      {
        ShapedInnocentIff(rules, v.items[i], depth + 1);
      }
    } else if v.Obj? {
      forall i | 0 <= i < |v.members|
        ensures var m := v.members[i];
                InnocentMember(rules, m, depth)
                <==> rules.textPass(m.key) == m.key && TextsStay(rules, m.value)
      {
        var m := v.members[i];
        assert m.value < m && ShapedMember(rules, m, depth);
        ShapedInnocentIff(rules, m.value, depth + 1);
        LawsAt(rules, REDACTED);
      }
      hide InnocentMember, ShapedMember;
    }
    hide Lawful, NulFree, DistinctKeys;
  }

  /** A second walk -- the server's -- changes nothing exactly when every name and string the first one left
      passes the text rules unchanged. Depth, secrets, names that met and U+0000 never need a second walk. */
  lemma WalkAgainIff(rules: Rules, v: Json, depth: nat)
    requires Lawful(rules)
    ensures Walk(rules, Walk(rules, v, depth), depth) == Walk(rules, v, depth)
            <==> TextsStay(rules, Walk(rules, v, depth))
  {
    var w := Walk(rules, v, depth);
    WalkShaped(rules, v, depth);
    WalkStaysIff(rules, w, depth);
    ShapedInnocentIff(rules, w, depth);
    hide Walk, Lawful, Shaped, Innocent, TextsStay;
  }

  /** One pass over the text is enough. */
  predicate Settles(rules: Rules, text: string) {
    rules.textPass(rules.textPass(text)) == rules.textPass(text)
  }

  ghost predicate AllSettle(rules: Rules) {
    forall x :: Settles(rules, x)
  }

  /** One pass is enough for every name and string of the value that a walk passes on. */
  ghost predicate TextsSettle(rules: Rules, v: Json, depth: nat)
    decreases v
  {
    match v
    case Str(s) => Settles(rules, Clean(s))
    case Arr(items) =>
      depth <= JSON_DEPTH_MAX ==> forall i :: 0 <= i < |items| ==> TextsSettle(rules, items[i], depth + 1)
    case Obj(members) =>
      depth <= JSON_DEPTH_MAX ==>
        forall i :: 0 <= i < |members| ==> MemberSettles(rules, members[i], depth)
    case _ => true
  }

  ghost predicate MemberSettles(rules: Rules, m: Member, depth: nat)
    decreases m
  {
    && Settles(rules, Clean(m.key))
    && ((rules.keyIsSecret(Clean(m.key)) && Replaceable(m.value)) || TextsSettle(rules, m.value, depth + 1))
  }

  ghost predicate MemberStays(rules: Rules, m: Member) {
    rules.textPass(m.key) == m.key && TextsStay(rules, m.value)
  }

  lemma {:induction false} SettledMembersStay(rules: Rules, members: seq<Member>, depth: nat, out: seq<Member>)
    requires Lawful(rules) && depth <= JSON_DEPTH_MAX
    requires forall i :: 0 <= i < |members| ==> MemberSettles(rules, members[i], depth)
    requires forall m :: m in out ==> MemberStays(rules, m)
    ensures forall m :: m in WalkMembers(rules, members, depth, out) ==> MemberStays(rules, m)
    decreases members, 0
  {
    hide Lawful;
    if members != [] {
      var m := members[0];
      assert m.value < m && MemberSettles(rules, m, depth);
      if TextsSettle(rules, m.value, depth + 1) {
        SettledTextsStay(rules, m.value, depth + 1);
      }
      LawsAt(rules, REDACTED);
      var w := WalkMember(rules, m, depth);
      assert MemberStays(rules, w);
      hide MemberStays, MemberSettles, WalkMember;
      PutIn(out, w.key, w.value);
      SettledMembersStay(rules, members[1..], depth, Put(out, w.key, w.value));
    }
  }

  lemma {:induction false} SettledTextsStay(rules: Rules, v: Json, depth: nat)
    requires Lawful(rules) && TextsSettle(rules, v, depth)
    ensures TextsStay(rules, Walk(rules, v, depth))
    decreases v, 1
  {
    hide Lawful;
    if Container(v) && depth > JSON_DEPTH_MAX {
      LawsAt(rules, REDACTED);
    } else if v.Obj? {
      SettledMembersStay(rules, v.members, depth, []);
      hide WalkMembers;
      var ms := WalkMembers(rules, v.members, depth, []);
      assert forall i :: 0 <= i < |ms| ==> MemberStays(rules, ms[i]);
    } else if v.Arr? {
      WalkItemsAt(rules, v.items, depth);
      forall i | 0 <= i < |v.items|
        ensures TextsStay(rules, Walk(rules, v.items[i], depth + 1))
      {
        SettledTextsStay(rules, v.items[i], depth + 1);
      }
      hide WalkItems;
    }
  }

  /** In particular: a value whose every text settles in one pass is walked once and for all. */
  lemma WalkIdempotent(rules: Rules, v: Json, depth: nat)
    requires Lawful(rules) && TextsSettle(rules, v, depth)
    ensures Walk(rules, Walk(rules, v, depth), depth) == Walk(rules, v, depth)
  {
    SettledTextsStay(rules, v, depth);
    WalkAgainIff(rules, v, depth);
  }

  /** Not every text does settle: where the text rules act on a string as the password pattern does, a second
      walk leaves it alone exactly when every value in it is followed by white space, a comma or the end. */
  lemma PasswordWalksAgainIff(rules: Rules, s: string, depth: nat)
    requires Lawful(rules)
    requires var text := Clean(s);
             && rules.textPass(text) == PasswordPass(text)
             && rules.textPass(PasswordPass(text)) == PasswordPass(PasswordPass(text))
    ensures var w := Walk(rules, Str(s), depth); Walk(rules, w, depth) == w <==> Closed(Clean(s))
  {
    hide PasswordPass, Closed, Clean, NulFree;
    var text := Clean(s);
    CleanIsNulFree(s);
    LawsAt(rules, text);
    CleanIsNulFree(PasswordPass(text));
    PassAgainIff(text);
  }

  // ----- Depth -----

  function Max(a: nat, b: nat): nat {
    if a < b then b else a
  }

  /** How deep containers nest. */
  function Nesting(v: Json): nat
    decreases v, 1
  {
    match v
    case Obj(members) => 1 + MembersNesting(members)
    case Arr(items) => 1 + ItemsNesting(items)
    case _ => 0
  }

  function ItemsNesting(items: seq<Json>): nat
    decreases items, 0
  {
    if items == [] then 0 else Max(Nesting(items[0]), ItemsNesting(items[1..]))
  }

  function MembersNesting(members: seq<Member>): nat
    decreases members, 0
  {
    if members == [] then 0
    else
      assert members[0].value < members[0];
      Max(Nesting(members[0].value), MembersNesting(members[1..]))
  }

  lemma {:induction false} PutNesting(members: seq<Member>, key: string, value: Json)
    ensures MembersNesting(Put(members, key, value)) <= Max(MembersNesting(members), Nesting(value))
    decreases |members|
  {
    if members != [] && members[0].key != key {
      PutNesting(members[1..], key, value);
    }
  }

  lemma {:induction false} WalkMembersDepth(rules: Rules, members: seq<Member>, depth: nat, out: seq<Member>)
    requires depth <= JSON_DEPTH_MAX && MembersNesting(out) <= JSON_DEPTH_MAX - depth
    ensures MembersNesting(WalkMembers(rules, members, depth, out)) <= JSON_DEPTH_MAX - depth
    decreases members, 0
  {
    if members != [] {
      var m := members[0];
      assert m.value < m;
      WalkDepth(rules, m.value, depth + 1);
      var w := WalkMember(rules, m, depth);
      PutNesting(out, w.key, w.value);
      WalkMembersDepth(rules, members[1..], depth, Put(out, w.key, w.value));
    }
  }

  lemma {:induction false} WalkItemsDepth(rules: Rules, items: seq<Json>, depth: nat)
    requires depth <= JSON_DEPTH_MAX
    ensures ItemsNesting(WalkItems(rules, items, depth)) <= JSON_DEPTH_MAX - depth
    decreases items, 0
  {
    if items != [] {
      WalkDepth(rules, items[0], depth + 1);
      WalkItemsDepth(rules, items[1..], depth);
    }
  }

  /** A walk from depth 1 never leaves containers nested deeper than JSON_DEPTH_MAX. */
  lemma {:induction false} WalkDepth(rules: Rules, v: Json, depth: nat)
    requires depth <= JSON_DEPTH_MAX + 1
    ensures Nesting(Walk(rules, v, depth)) <= JSON_DEPTH_MAX + 1 - depth
    decreases v, 1
  {
    if Container(v) && depth <= JSON_DEPTH_MAX {
      match v
      case Obj(members) => WalkMembersDepth(rules, members, depth, []);
      case Arr(items) => WalkItemsDepth(rules, items, depth);
    }
  }

  // ----- Secrets -----

  /** Two values that differ at most in what stands under secret-named keys. */
  ghost predicate SameButSecrets(rules: Rules, v: Json, w: Json)
    decreases v, 1
  {
    match v
    case Obj(ms) => w.Obj? && SameMembers(rules, ms, w.members)
    case Arr(items) => w.Arr? && SameItems(rules, items, w.items)
    case _ => v == w
  }

  ghost predicate SameItems(rules: Rules, a: seq<Json>, b: seq<Json>)
    decreases a, 0
  {
    |a| == |b| && (a != [] ==> SameButSecrets(rules, a[0], b[0]) && SameItems(rules, a[1..], b[1..]))
  }

  ghost predicate SameMembers(rules: Rules, a: seq<Member>, b: seq<Member>)
    decreases a, 0
  {
    && |a| == |b|
    && (a != [] ==>
          && a[0].key == b[0].key
          && ((rules.keyIsSecret(Clean(a[0].key)) && Replaceable(a[0].value) && Replaceable(b[0].value))
              || (assert a[0].value < a[0]; SameButSecrets(rules, a[0].value, b[0].value)))
          && SameMembers(rules, a[1..], b[1..]))
  }

  lemma {:induction false} WalkMembersHide(rules: Rules, a: seq<Member>, b: seq<Member>, depth: nat, out: seq<Member>)
    requires SameMembers(rules, a, b)
    ensures WalkMembers(rules, a, depth, out) == WalkMembers(rules, b, depth, out)
    decreases a, 0
  {
    if a != [] {
      assert a[0].value < a[0];
      if SameButSecrets(rules, a[0].value, b[0].value) {
        WalkHidesSecrets(rules, a[0].value, b[0].value, depth + 1);
        SameShape(rules, a[0].value, b[0].value);
      }
      var m := WalkMember(rules, a[0], depth);
      assert m == WalkMember(rules, b[0], depth);
      WalkMembersHide(rules, a[1..], b[1..], depth, Put(out, m.key, m.value));
    }
  }

  lemma SameShape(rules: Rules, v: Json, w: Json)
    requires SameButSecrets(rules, v, w)
    ensures Replaceable(v) == Replaceable(w) && Container(v) == Container(w)
  {
  }

  lemma {:induction false} WalkItemsHide(rules: Rules, a: seq<Json>, b: seq<Json>, depth: nat)
    requires SameItems(rules, a, b)
    ensures WalkItems(rules, a, depth) == WalkItems(rules, b, depth)
    decreases a, 0
  {
    if a != [] {
      WalkHidesSecrets(rules, a[0], b[0], depth + 1);
      WalkItemsHide(rules, a[1..], b[1..], depth);
    }
  }

  /** Nothing that stands under a secret-named key can be told from the walked value. */
  lemma {:induction false} WalkHidesSecrets(rules: Rules, v: Json, w: Json, depth: nat)
    requires SameButSecrets(rules, v, w)
    ensures Walk(rules, v, depth) == Walk(rules, w, depth)
    decreases v, 1
  {
    match v
    case Obj(ms) => WalkMembersHide(rules, ms, w.members, depth, []);
    case Arr(items) => WalkItemsHide(rules, items, w.items, depth);
    case _ =>
  }

  /** Under a key that reads as secret, only null, a boolean or the marker is left. */
  ghost predicate SecretsReplaced(rules: Rules, v: Json)
    decreases v, 1
  {
    match v
    case Obj(ms) =>
      forall m :: m in ms ==>
        && (rules.keyIsSecret(m.key) ==> !Replaceable(m.value) || m.value == Str(REDACTED))
        && (assert m.value < m; SecretsReplaced(rules, m.value))
    case Arr(items) => forall item :: item in items ==> SecretsReplaced(rules, item)
    case _ => true
  }

  ghost predicate MemberReplaced(rules: Rules, m: Member) {
    && (rules.keyIsSecret(m.key) ==> !Replaceable(m.value) || m.value == Str(REDACTED))
    && SecretsReplaced(rules, m.value)
  }

  lemma {:induction false} PutIn(members: seq<Member>, key: string, value: Json)
    ensures forall m :: m in Put(members, key, value) ==> m in members || m == Member(key, value)
    decreases |members|
  {
    if members != [] && members[0].key != key {
      PutIn(members[1..], key, value);
    }
  }

  lemma {:induction false} WalkMembersReplace(rules: Rules, members: seq<Member>, depth: nat, out: seq<Member>)
    requires Lawful(rules) && forall m :: m in out ==> MemberReplaced(rules, m)
    ensures forall m :: m in WalkMembers(rules, members, depth, out) ==> MemberReplaced(rules, m)
    decreases members, 0
  {
    if members != [] {
      var m := members[0];
      assert m.value < m;
      WalkReplacesSecrets(rules, m.value, depth + 1);
      var w := WalkMember(rules, m, depth);
      assert MemberReplaced(rules, w);
      PutIn(out, w.key, w.value);
      WalkMembersReplace(rules, members[1..], depth, Put(out, w.key, w.value));
    }
  }

  lemma {:induction false} WalkItemsReplace(rules: Rules, items: seq<Json>, depth: nat)
    requires Lawful(rules)
    ensures forall item :: item in WalkItems(rules, items, depth) ==> SecretsReplaced(rules, item)
    decreases items, 0
  {
    if items != [] {
      WalkReplacesSecrets(rules, items[0], depth + 1);
      WalkItemsReplace(rules, items[1..], depth);
    }
  }

  /** After a walk every value under a key that reads as secret is null, a boolean or the marker. */
  lemma {:induction false} WalkReplacesSecrets(rules: Rules, v: Json, depth: nat)
    requires Lawful(rules)
    ensures SecretsReplaced(rules, Walk(rules, v, depth))
    decreases v, 1
  {
    if !(Container(v) && depth > JSON_DEPTH_MAX) {
      match v
      case Obj(members) =>
        WalkMembersReplace(rules, members, depth, []);
        assert forall m :: m in WalkMembers(rules, members, depth, []) ==> MemberReplaced(rules, m);
      case Arr(items) => WalkItemsReplace(rules, items, depth);
      case _ =>
    }
  }

  // ----- The schema of a body -----

  datatype Field = Field(key: string, kind: string)

  predicate FieldNameStart(c: char) {
    'A' <= c <= 'Z' || 'a' <= c <= 'z' || c in {'_', '$', '@'}
  }

  predicate FieldName(s: string) {
    && 1 <= |s| <= 120 && FieldNameStart(s[0])
    && forall i :: 1 <= i < |s| ==> FieldNameStart(s[i]) || IsDigit(s[i]) || s[i] in {'.', ':', '-'}
  }

  function JsonType(v: Json): (kind: string)
    ensures kind == "number" <==> v.Number?
    ensures kind == "string" <==> v.Str?
    ensures kind == "boolean" <==> v.Bool?
    ensures kind == "null" <==> v.Null?
    ensures kind == "array" <==> v.Arr?
    ensures kind == "object" <==> v.Obj?
  {
    match v
    case Null => "null"
    case Bool(_) => "boolean"
    case Number(_) => "number"
    case Str(_) => "string"
    case Arr(_) => "array"
    case Obj(_) => "object"
  }

  predicate IsJsonType(kind: string) {
    kind in {"string", "number", "boolean", "object", "array", "null"}
  }

  predicate Nameable(key: string) {
    key != UNNAMED_KEYS && FieldName(key)
  }

  /** The typed fields of the members whose key may be named, in order. */
  function Named(members: seq<Member>): seq<Field> {
    if members == [] then []
    else NameOf(members[0]) + Named(members[1..])
  }

  /** The first SCHEMA_KEYS_MAX nameable keys by name; all other keys as one count. */
  function Schema(v: Json): seq<Field> {
    if !v.Obj? then []
    else
      var named := Take(Named(v.members), SCHEMA_KEYS_MAX);
      var unnamed := |v.members| - |named|;
      named + (if unnamed > 0 then [Field(UNNAMED_KEYS, Decimal(unnamed))] else [])
  }

  function NameOf(m: Member): seq<Field> {
    if Nameable(m.key) then [Field(m.key, JsonType(m.value))] else []
  }

  lemma {:induction false} NamedAppend(members: seq<Member>, m: Member)
    ensures Named(members + [m]) == Named(members) + NameOf(m)
    ensures |Named(members)| <= |members|
  {
    assert |NameOf(m)| <= 1;
    if members == [] {
      assert members + [m] == [m] && [m][1..] == [];
      assert Named([]) == [];
    } else {
      NamedAppend(members[1..], m);
      var grown := members + [m];
      assert grown[1..] == members[1..] + [m] && grown[0] == members[0];
      assert |NameOf(members[0])| <= 1;
      hide NameOf;
      assert Named(grown) == NameOf(members[0]) + (Named(members[1..]) + NameOf(m));
    }
  }

  method SchemaOf(v: Json) returns (schema: seq<Field>)
    ensures schema == Schema(v)
  {
    if !v.Obj? {
      return [];
    }
    hide Nameable, JsonType;
    var ms := v.members;
    schema := [];
    var unnamed: nat := 0;
    for i := 0 to |ms|
      invariant schema == Take(Named(ms[..i]), SCHEMA_KEYS_MAX) && |Named(ms[..i])| <= i
      invariant |schema| + unnamed == i
    {
      NamedAppend(ms[..i], ms[i]);
      assert ms[..i + 1] == ms[..i] + [ms[i]];
      if |schema| < SCHEMA_KEYS_MAX && Nameable(ms[i].key) {
        schema := schema + [Field(ms[i].key, JsonType(ms[i].value))];
      } else {
        unnamed := unnamed + 1;
      }
    }
    assert ms[..|ms|] == ms;
    if unnamed > 0 {
      schema := schema + [Field(UNNAMED_KEYS, Decimal(unnamed))];
    }
  }

  /** A field a schema may hold. */
  predicate WellFormedField(f: Field) {
    (Nameable(f.key) && IsJsonType(f.kind)) || (f.key == UNNAMED_KEYS && f.kind != [] && AllDigits(f.kind))
  }

  lemma {:induction false} NamedWellFormed(members: seq<Member>)
    ensures forall f :: f in Named(members) ==> Nameable(f.key) && IsJsonType(f.kind)
    ensures |Named(members)| <= |members|
  {
    hide Nameable;
    if members != [] {
      NamedWellFormed(members[1..]);
    }
  }

  function CountOf(f: Field): nat
    requires AllDigits(f.kind)
  {
    ParseDecimal(f.kind)
  }

  /** A named field is the key of a member with the type of its value, and every nameable member is named unless
      there are more of them than the cap. */
  lemma {:induction false} NamedAreMembers(members: seq<Member>)
    ensures forall f :: f in Named(members) <==>
              exists m :: m in members && Nameable(m.key) && f == Field(m.key, JsonType(m.value))
  {
    hide Nameable, JsonType;
    if members != [] {
      NamedAreMembers(members[1..]);
      assert forall m :: m in members <==> m == members[0] || m in members[1..];
    }
  }

  lemma SchemaNamesMembers(members: seq<Member>)
    ensures forall f :: f in Schema(Obj(members)) && f.key != UNNAMED_KEYS ==>
              exists m :: m in members && m.key == f.key && JsonType(m.value) == f.kind
    ensures |Named(members)| <= SCHEMA_KEYS_MAX ==>
              forall m :: m in members && Nameable(m.key) ==>
                Field(m.key, JsonType(m.value)) in Schema(Obj(members))
  {
    NamedAreMembers(members);
    var named := Take(Named(members), SCHEMA_KEYS_MAX);
    assert forall f :: f in named ==> f in Named(members);
    hide Nameable, JsonType, Named, Decimal;
  }

  /** A schema counts every key of the body once: the named ones and the number of the rest add up, it has at
      most one entry more than the cap, and every entry is a name with a type or that count. */
  lemma SchemaCountsKeys(members: seq<Member>)
    ensures var schema := Schema(Obj(members));
            && |schema| <= SCHEMA_KEYS_MAX + 1
            && (forall f :: f in schema ==> WellFormedField(f))
            && (if schema != [] && schema[|schema| - 1].key == UNNAMED_KEYS
                then AllDigits(schema[|schema| - 1].kind)
                     && |schema| - 1 + CountOf(schema[|schema| - 1]) == |members|
                else |schema| == |members|)
    ensures |Named(members)| > 200 ==> |Schema(Obj(members))| == 201
    ensures |Named(members)| <= 200 ==> Named(members) <= Schema(Obj(members))
  {
    NamedWellFormed(members);
    var named := Take(Named(members), SCHEMA_KEYS_MAX);
    var unnamed := |members| - |named|;
    DecimalRoundTrip(unnamed);
    hide Named, Decimal, FieldName, ParseDecimal;
    forall f | f in named
      ensures f in Named(members)
    {
    }
  }

  function Kept(f: Field): bool {
    (f.key == UNNAMED_KEYS && f.kind != [] && AllDigits(f.kind)) || (FieldName(f.key) && IsJsonType(f.kind))
  }

  function KeptFields(schema: seq<Field>): seq<Field> {
    if schema == [] then [] else (if Kept(schema[0]) then [schema[0]] else []) + KeptFields(schema[1..])
  }

  /** What the redactor accepts of a schema it is handed. */
  function SanitisedSchema(schema: seq<Field>): seq<Field> {
    KeptFields(Take(schema, SCHEMA_KEYS_MAX + 1))
  }

  lemma {:induction false} KeptFieldsKept(schema: seq<Field>)
    ensures |KeptFields(schema)| <= |schema| && forall f :: f in KeptFields(schema) ==> Kept(f)
    ensures (forall f :: f in schema ==> Kept(f)) ==> KeptFields(schema) == schema
  {
    hide Kept;
    if schema != [] {
      KeptFieldsKept(schema[1..]);
      assert schema == [schema[0]] + schema[1..];
    }
  }

  /** A field that is accepted: the count of the unnamed keys in digits, or a name of 1 to 120 characters - a
      letter, `$`, `@` or `_`, then also digits, `-`, `.` and `:`, by their ASCII codes - with a JSON type. */
  ghost predicate Acceptable(f: Field) {
    || (f.key == "_unnamed_keys" && f.kind != "" && forall i :: 0 <= i < |f.kind| ==> '0' <= f.kind[i] <= '9')
    || (&& 1 <= |f.key| <= 120 && f.kind in {"string", "number", "boolean", "object", "array", "null"}
        && (forall i :: 0 <= i < |f.key| ==>
              var n := f.key[i] as int;
              || n in {0x24, 0x40, 0x5F} || 0x41 <= n <= 0x5A || 0x61 <= n <= 0x7A
              || (i > 0 && (n in {0x2D, 0x2E, 0x3A} || 0x30 <= n <= 0x39))))
  }

  lemma KeptIff(f: Field)
    ensures Kept(f) <==> Acceptable(f)
  {
  }

  /** Of a schema that comes in, exactly the acceptable ones of the first 201 fields are kept, in order. */
  lemma {:induction false} KeptFieldsAre(schema: seq<Field>)
    ensures forall f :: f in KeptFields(schema) <==> f in schema && Acceptable(f)
    ensures forall a, b :: schema == a + b ==> KeptFields(schema) == KeptFields(a) + KeptFields(b)
  {
    hide Kept, Acceptable;
    if schema != [] {
      KeptFieldsAre(schema[1..]);
      KeptIff(schema[0]);
    }
    forall a, b | schema == a + b
      ensures KeptFields(schema) == KeptFields(a) + KeptFields(b)
    {
      KeptOfBoth(a, b);
    }
  }

  lemma {:induction false} KeptOfBoth(a: seq<Field>, b: seq<Field>)
    ensures KeptFields(a + b) == KeptFields(a) + KeptFields(b)
  {
    hide Kept;
    if a == [] {
      assert a + b == b;
    } else {
      KeptOfBoth(a[1..], b);
      assert (a + b)[1..] == a[1..] + b && (a + b)[0] == a[0];
    }
  }

  lemma SanitisedAre(schema: seq<Field>)
    ensures forall f :: f in SanitisedSchema(schema) <==>
              Acceptable(f) && exists i :: 0 <= i < |schema| && i < 201 && schema[i] == f
  {
    var taken := Take(schema, 201);
    KeptFieldsAre(taken);
    hide KeptFields, Acceptable;
    assert forall i :: 0 <= i < |taken| ==> taken[i] == schema[i];
  }

  /** Sanitising twice is sanitising once, and a schema computed from a body passes unchanged. */
  lemma SanitisedSchemaKeeps(schema: seq<Field>, v: Json)
    ensures SanitisedSchema(SanitisedSchema(schema)) == SanitisedSchema(schema)
    ensures SanitisedSchema(Schema(v)) == Schema(v)
  {
    KeptFieldsKept(Take(schema, SCHEMA_KEYS_MAX + 1));
    KeptFieldsKept(SanitisedSchema(schema));
    if v.Obj? {
      SchemaCountsKeys(v.members);
      KeptFieldsKept(Schema(v));
    }
  }

  // ----- The run scanner as the text rules -----

  lemma NotInParts(a: string, b: string, c: char)
    requires c !in a + b
    ensures c !in a && c !in b
  {
    assert forall i :: 0 <= i < |a| ==> a[i] == (a + b)[i];
    assert forall i :: 0 <= i < |b| ==> b[i] == (a + b)[|a| + i];
  }

  lemma PassStep(text: string) returns (n: nat, head: string)
    requires text != []
    ensures 0 < n <= |text| && text == text[..n] + text[n..]
    ensures RunPass(text) == head + RunPass(text[n..]) && (head == text[..n] || head == REDACTED)
  {
    n := Piece(text);
    head := Replaced(text[..n]);
  }

  lemma {:induction false} RunPassBracket(text: string)
    requires '[' !in RunPass(text)
    ensures RunPass(text) == text
    decreases |text|
  {
    if text == [] {
      return;
    }
    var n, head := PassStep(text);
    hide RunPass;
    NotInParts(head, RunPass(text[n..]), '[');
    RunPassBracket(text[n..]);
    assert REDACTED[0] == '[';
  }

  lemma NulFreeConcat(a: string, b: string)
    requires NulFree(a) && NulFree(b)
    ensures NulFree(a + b)
  {
  }

  lemma NulFreeSplit(s: string, n: nat)
    requires NulFree(s) && n <= |s|
    ensures NulFree(s[..n]) && NulFree(s[n..])
  {
  }

  lemma {:induction false} RunPassNulFree(text: string)
    requires NulFree(text)
    ensures NulFree(RunPass(text))
    decreases |text|
  {
    if text == [] {
      return;
    }
    hide RunPass, NulFree;
    var n, head := PassStep(text);
    NulFreeSplit(text, n);
    RedactedNulFree();
    RunPassNulFree(text[n..]);
    NulFreeConcat(head, RunPass(text[n..]));
  }

  lemma BlankParts(a: string, b: string)
    requires Blank(a + b)
    ensures Blank(a) && Blank(b)
  {
    assert forall i :: 0 <= i < |a| ==> a[i] == (a + b)[i];
    assert forall i :: 0 <= i < |b| ==> b[i] == (a + b)[|a| + i];
  }

  lemma {:induction false} RunPassBlank(text: string)
    requires Blank(RunPass(text))
    ensures RunPass(text) == text
    decreases |text|
  {
    if text == [] {
      return;
    }
    var n, head := PassStep(text);
    hide RunPass;
    BlankParts(head, RunPass(text[n..]));
    RunPassBlank(text[n..]);
    assert !IsSpace(REDACTED[0]);
  }

  /** The assumptions hold of the concrete run scanner with any set of secret names free of brackets: they are
      not contradictory, and every result above holds for it without further hypotheses. */
  lemma RunPassLawful(secretNames: set<string>)
    requires forall name :: name in secretNames ==> '[' !in name
    ensures Lawful(Rules(RunPass, k => k in secretNames))
    ensures AllSettle(Rules(RunPass, k => k in secretNames))
  {
    hide RunPass, NulFree, Blank;
    forall x
      ensures RunPass(RunPass(x)) == RunPass(x)
      ensures NulFree(x) ==> NulFree(RunPass(x))
      ensures Blank(x) ==> RunPass(x) == x
      ensures !Blank(x) ==> !Blank(RunPass(x))
      ensures RunPass(x) in secretNames ==> x in secretNames
    {
      RunPassLaws(x);
    }
    MarkerHasNoRun();
  }

  lemma MarkerHasNoRun()
    ensures RunPass(REDACTED) == REDACTED
  {
    assert NoRun(REDACTED);
    RunPassIdempotent(REDACTED);
  }

  lemma RunPassLaws(x: string)
    ensures RunPass(RunPass(x)) == RunPass(x)
    ensures NulFree(x) ==> NulFree(RunPass(x))
    ensures Blank(x) ==> RunPass(x) == x
    ensures !Blank(x) ==> !Blank(RunPass(x))
    ensures '[' !in RunPass(x) ==> RunPass(x) == x
  {
    hide RunPass, NulFree;
    RunPassIdempotent(x);
    if '[' !in RunPass(x) {
      RunPassBracket(x);
    }
    if NulFree(x) {
      RunPassNulFree(x);
    }
    if Blank(x) {
      BlankHasNoRun(x);
    }
    if Blank(RunPass(x)) {
      RunPassBlank(x);
    }
  }

  lemma BlankHasNoRun(x: string)
    requires Blank(x)
    ensures NoRun(x)
  {
    forall i: nat | i + RUN_MIN <= |x|
      ensures !RunAt(x, i)
    {
      assert IsSpace(x[i]);
    }
  }

  // ----- So does the password pattern -----

  lemma {:induction false} PasswordAdds(s: string, c: char)
    requires c in PasswordPass(s) && c !in REDACTED
    ensures c in s
    decreases |s|
  {
    hide PasswordPass, MatchAt;
    if s == "" {
      PassEmpty();
    } else if MatchAt(s).None? {
      PassUnmatched(s);
      if c != s[0] {
        PasswordAdds(s[1..], c);
      }
    } else {
      var m := MatchAt(s).value;
      PassMatched(s, m);
      if c !in s[..m.head] {
        PasswordAdds(s[m.end..], c);
      }
    }
  }

  lemma MatchedHasBracket(s: string)
    requires s != "" && MatchAt(s).Some?
    ensures '[' in PasswordPass(s)
  {
    PassMatched(s, MatchAt(s).value);
    assert REDACTED[0] == '[';
    hide PasswordPass, MatchAt;
  }

  lemma {:induction false} UnbracketedStays(s: string)
    requires '[' !in PasswordPass(s)
    ensures PasswordPass(s) == s
    decreases |s|
  {
    hide PasswordPass, MatchAt;
    if s == "" {
      PassEmpty();
    } else {
      if MatchAt(s).Some? {
        MatchedHasBracket(s);
      }
      PassUnmatched(s);
      UnbracketedStays(s[1..]);
    }
  }

  lemma {:induction false} BlankPass(s: string)
    requires Blank(PasswordPass(s))
    ensures Blank(s)
    decreases |s|
  {
    hide PasswordPass, MatchAt, IsSpace;
    if s != "" {
      FirstStays(s);
      if MatchAt(s).None? {
        PassUnmatched(s);
        var rest := PasswordPass(s[1..]);
        assert forall i :: 0 <= i < |rest| ==> rest[i] == PasswordPass(s)[i + 1];
        BlankPass(s[1..]);
        assert forall i :: 1 <= i < |s| ==> s[i] == s[1..][i - 1];
      } else {
        HeadNotBlank(s, MatchAt(s).value);
        assert false;
      }
    }
  }

  lemma HeadNotBlank(s: string, m: Match)
    requires s != "" && MatchAt(s) == Some(m)
    ensures !IsSpace(s[0])
  {
    MatchHasHead(s, m);
    HeadShape(s[..m.head]);
    BareIsNoSpace(s[0]);
    assert s[..m.head][0] == s[0];
    hide MatchAt, IsHead, IsSpace, Bare;
  }

  lemma BlankStays(s: string)
    requires Blank(s)
    ensures PasswordPass(s) == s
  {
    assert Plain(s);
    hide PasswordPass, Plain, Blank;
    PassAfterPlain(s, "");
    PassEmpty();
    assert s + "" == s;
  }

  lemma PasswordLaws(x: string)
    ensures NulFree(x) ==> NulFree(PasswordPass(x))
    ensures Blank(x) ==> PasswordPass(x) == x
    ensures !Blank(x) ==> !Blank(PasswordPass(x))
    ensures '[' !in PasswordPass(x) ==> PasswordPass(x) == x
  {
    hide PasswordPass, Blank;
    if Blank(x) {
      BlankStays(x);
    }
    if Blank(PasswordPass(x)) {
      BlankPass(x);
    }
    if '[' !in PasswordPass(x) {
      UnbracketedStays(x);
    }
    if NulFree(x) && '\0' in PasswordPass(x) {
      PasswordAdds(x, '\0');
    }
  }

  /** The assumptions hold of the password pattern too, though it is not idempotent. */
  lemma PasswordLawful(secretNames: set<string>)
    requires forall name :: name in secretNames ==> '[' !in name
    ensures Lawful(Rules(PasswordPass, k => k in secretNames))
  {
    MarkerIsBare();
    PassAfterPlain(REDACTED, "");
    PassEmpty();
    assert REDACTED + "" == REDACTED;
    hide PasswordPass, NulFree, Blank, Plain;
    forall x
      ensures NulFree(x) ==> NulFree(PasswordPass(x))
      ensures Blank(x) ==> PasswordPass(x) == x
      ensures !Blank(x) ==> !Blank(PasswordPass(x))
      ensures PasswordPass(x) in secretNames ==> x in secretNames
    {
      PasswordLaws(x);
    }
  }
}
