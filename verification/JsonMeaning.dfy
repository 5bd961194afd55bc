/**
 What a walked body says: value by value, what stands in it and where it comes from.
 */
module JsonMeaning {
  import opened Settle
  import opened JsonRedaction

  /** The name a member goes by afterwards. */
  function NewName(rules: Rules, m: Member): string {
    rules.textPass(Clean(m.key))
  }

  /** The members at `first` and `last` are the first and the last that go by the name. */
  ghost predicate Spans(rules: Rules, members: seq<Member>, name: string, first: nat, last: nat) {
    && first <= last < |members| && NewName(rules, members[first]) == name == NewName(rules, members[last])
    && (forall i :: 0 <= i < first ==> NewName(rules, members[i]) != name)
    && (forall i :: last < i < |members| ==> NewName(rules, members[i]) != name)
  }

  /** Every new name stands once, in the order in which names first come up, as in a Python dict; `firsts` and
      `lasts` are where each does first and last. */
  ghost predicate Ordered(rules: Rules, members: seq<Member>, ws: seq<Member>, firsts: seq<nat>, lasts: seq<nat>) {
    && |firsts| == |lasts| == |ws|
    && (forall i :: 0 <= i < |members| ==> HasMember(ws, NewName(rules, members[i])))
    && (forall j :: 0 <= j < |ws| ==> Spans(rules, members, ws[j].key, firsts[j], lasts[j]))
    && (forall j, k :: 0 <= j < k < |ws| ==> firsts[j] < firsts[k])
  }

  /** `w` is what `v` is walked to, `depth` containers down from a body at 1: numbers, booleans and null as they
      are, strings as the text rules make them, lists item by item; an object gives each new name the value of the
      last member that goes by it; a container below ten others is the marker. */
  ghost predicate Redacts(rules: Rules, v: Json, w: Json, depth: nat)
    decreases v
  {
    if v.Null? || v.Bool? || v.Number? then w == v
    else if v.Str? then w.Str? && w.s == rules.textPass(Clean(v.s))
    else if depth > 10 then w == Str("[REDACTED]")
    else if v.Arr? then
      w.Arr? && |w.items| == |v.items|
      && forall i :: 0 <= i < |v.items| ==> Redacts(rules, v.items[i], w.items[i], depth + 1)
    else
      w.Obj? && exists firsts, lasts ::
        && Ordered(rules, v.members, w.members, firsts, lasts)
        && |lasts| == |w.members|
        && forall j :: 0 <= j < |lasts| ==>
             lasts[j] < |v.members| && MemberRedacts(rules, v.members[lasts[j]], w.members[j].value, depth)
  }

  /** A value under a secret name is the marker, unless it says nothing; any other is walked. */
  ghost predicate MemberRedacts(rules: Rules, m: Member, w: Json, depth: nat)
    decreases m
  {
    if rules.keyIsSecret(Clean(m.key)) && !m.value.Null? && !m.value.Bool? then w == Str("[REDACTED]")
    else Redacts(rules, m.value, w, depth + 1)
  }

  lemma {:induction false} WalkMembersSnoc(rules: Rules, members: seq<Member>, m: Member, depth: nat, out: seq<Member>)
    ensures WalkMembers(rules, members + [m], depth, out)
         == var w := WalkMember(rules, m, depth); Put(WalkMembers(rules, members, depth, out), w.key, w.value)
    decreases |members|
  {
    hide WalkMember, Put;
    if members == [] {
      assert ([] + [m])[1..] == [] && ([] + [m])[0] == m;
      assert WalkMembers(rules, [], depth, Put(out, WalkMember(rules, m, depth).key, WalkMember(rules, m, depth).value))
          == Put(out, WalkMember(rules, m, depth).key, WalkMember(rules, m, depth).value);
    } else {
      var w := WalkMember(rules, members[0], depth);
      WalkMembersSnoc(rules, members[1..], m, depth, Put(out, w.key, w.value));
      assert (members + [m])[1..] == members[1..] + [m] && (members + [m])[0] == members[0];
    }
  }

  /** Assigning to a dict changes one place, or adds one at the end. */
  lemma {:induction false} PutAt(members: seq<Member>, key: string, value: Json) returns (at: nat)
    requires DistinctKeys(members)
    ensures at <= |members| && (forall j :: 0 <= j < |members| && j != at ==> members[j].key != key)
    ensures at < |members| ==> members[at].key == key && Put(members, key, value) == members[at := Member(key, value)]
    ensures at == |members| ==> Put(members, key, value) == members + [Member(key, value)]
    decreases |members|
  {
    if members == [] {
      return 0;
    }
    var tail := members[1..];
    assert members == [members[0]] + tail;
    if members[0].key == key {
      assert members[0 := Member(key, value)] == [Member(key, value)] + tail;
      return 0;
    }
    assert DistinctKeys(tail);
    var rest := PutAt(tail, key, value);
    at := rest + 1;
    forall j | 0 <= j < |members| && j != at ensures members[j].key != key {
      assert j > 0 ==> members[j] == tail[j - 1];
    }
    if rest < |tail| {
      assert members[at := Member(key, value)] == [members[0]] + tail[rest := Member(key, value)];
    }
  }

  lemma SpansGrow(rules: Rules, members: seq<Member>, m: Member, name: string, first: nat, last: nat)
    requires Spans(rules, members, name, first, last)
    ensures Spans(rules, members + [m], name, first, if NewName(rules, m) == name then |members| else last)
  {
    hide NewName;
    var all := members + [m];
    assert all[|members|] == m && forall i :: 0 <= i < |members| ==> all[i] == members[i];
  }

  lemma SpansNew(rules: Rules, members: seq<Member>, m: Member)
    requires forall i :: 0 <= i < |members| ==> NewName(rules, members[i]) != NewName(rules, m)
    ensures Spans(rules, members + [m], NewName(rules, m), |members|, |members|)
  {
    hide NewName;
    var all := members + [m];
    assert all[|members|] == m && forall i :: 0 <= i < |members| ==> all[i] == members[i];
  }

  lemma OrderedIsDistinct(rules: Rules, members: seq<Member>, ws: seq<Member>, firsts: seq<nat>, lasts: seq<nat>)
    requires Ordered(rules, members, ws, firsts, lasts)
    ensures DistinctKeys(ws)
  {
    hide NewName;
    forall j, k | 0 <= j < k < |ws| ensures ws[j].key != ws[k].key {
      assert Spans(rules, members, ws[j].key, firsts[j], lasts[j]);
      assert Spans(rules, members, ws[k].key, firsts[k], lasts[k]);
    }
  }

  /** One more member: its name gets a new last place, or is new. */
  lemma OrderedGrows(rules: Rules, members: seq<Member>, m: Member, ws: seq<Member>, value: Json, firsts: seq<nat>,
                     lasts: seq<nat>)
    returns (at: nat, firsts': seq<nat>, lasts': seq<nat>)
    requires Ordered(rules, members, ws, firsts, lasts)
    ensures var r := Put(ws, NewName(rules, m), value);
            && Ordered(rules, members + [m], r, firsts', lasts')
            && at < |r| && r[at].value == value && lasts'[at] == |members|
            && forall j :: 0 <= j < |r| && j != at ==> j < |ws| && r[j].value == ws[j].value && lasts'[j] == lasts[j]
  {
    hide NewName, Put, Spans;
    var name := NewName(rules, m);
    OrderedIsDistinct(rules, members, ws, firsts, lasts);
    at := PutAt(ws, name, value);
    var all, r := members + [m], Put(ws, name, value);
    forall j | 0 <= j < |ws|
      ensures Spans(rules, all, ws[j].key, firsts[j], if j == at then |members| else lasts[j])
    {
      SpansGrow(rules, members, m, ws[j].key, firsts[j], lasts[j]);
    }
    if at < |ws| {
      firsts', lasts' := firsts, lasts[at := |members|];
    } else {
      firsts', lasts' := firsts + [|members|], lasts + [|members|];
      forall i | 0 <= i < |members| ensures NewName(rules, members[i]) != name {
        assert HasMember(ws, NewName(rules, members[i]));
      }
      SpansNew(rules, members, m);
      FirstsWithin(rules, members, ws, firsts, lasts);
    }
    assert r[at].key == name && forall j :: 0 <= j < |ws| ==> r[j].key == ws[j].key;
    forall i | 0 <= i < |all| ensures HasMember(r, NewName(rules, all[i])) {
      if i < |members| {
        var j :| 0 <= j < |ws| && ws[j].key == NewName(rules, members[i]);
        assert r[j].key == NewName(rules, all[i]);
      }
    }
  }

  lemma FirstsWithin(rules: Rules, members: seq<Member>, ws: seq<Member>, firsts: seq<nat>, lasts: seq<nat>)
    requires Ordered(rules, members, ws, firsts, lasts)
    ensures forall j :: 0 <= j < |ws| ==> firsts[j] < |members|
  {
    hide NewName;
    forall j | 0 <= j < |ws| ensures firsts[j] < |members| {
      assert Spans(rules, members, ws[j].key, firsts[j], lasts[j]);
    }
  }

  lemma LastsWithin(rules: Rules, members: seq<Member>, ws: seq<Member>, firsts: seq<nat>, lasts: seq<nat>)
    requires Ordered(rules, members, ws, firsts, lasts)
    ensures forall j :: 0 <= j < |ws| ==> lasts[j] < |members|
  {
    hide NewName;
    forall j | 0 <= j < |ws| ensures lasts[j] < |members| {
      assert Spans(rules, members, ws[j].key, firsts[j], lasts[j]);
    }
  }

  lemma {:induction false} WalkMembersRedact(rules: Rules, members: seq<Member>, depth: nat)
    returns (firsts: seq<nat>, lasts: seq<nat>)
    ensures var ws := WalkMembers(rules, members, depth, []);
            && Ordered(rules, members, ws, firsts, lasts)
            && forall j :: 0 <= j < |lasts| ==>
                 lasts[j] < |members| && MemberRedacts(rules, members[lasts[j]], ws[j].value, depth)
    decreases members, 0
  {
    hide WalkMembers, Ordered, Put;
    if members == [] {
      firsts, lasts := [], [];
      NoMembers(rules, depth);
    } else {
      var n := |members| - 1;
      var init, m := members[..n], members[n];
      assert members == init + [m];
      var firsts0, lasts0 := WalkMembersRedact(rules, init, depth);
      WalkMembersSnoc(rules, init, m, depth, []);
      WalkMemberRedacts(rules, m, depth);
      var ws := WalkMembers(rules, init, depth, []);
      var at;
      at, firsts, lasts := OrderedGrows(rules, init, m, ws, WalkMember(rules, m, depth).value, firsts0, lasts0);
      SameLength(rules, members, WalkMembers(rules, members, depth, []), firsts, lasts);
      SameLength(rules, init, ws, firsts0, lasts0);
      hide WalkMember, MemberRedacts;
      forall j | 0 <= j < |lasts|
        ensures lasts[j] < |members|
                && MemberRedacts(rules, members[lasts[j]], WalkMembers(rules, members, depth, [])[j].value, depth)
      {
        if j != at {
          assert members[lasts0[j]] == init[lasts0[j]];
        }
      }
    }
  }

  lemma SameLength(rules: Rules, members: seq<Member>, ws: seq<Member>, firsts: seq<nat>, lasts: seq<nat>)
    requires Ordered(rules, members, ws, firsts, lasts)
    ensures |firsts| == |lasts| == |ws|
  {
  }

  lemma NoMembers(rules: Rules, depth: nat)
    ensures WalkMembers(rules, [], depth, []) == [] && Ordered(rules, [], [], [], [])
  {
  }

  lemma {:induction false} WalkMemberRedacts(rules: Rules, m: Member, depth: nat)
    ensures var w := WalkMember(rules, m, depth); w.key == NewName(rules, m) && MemberRedacts(rules, m, w.value, depth)
    decreases m, 0
  {
    hide Redacts, Walk, Clean;
    if !(rules.keyIsSecret(Clean(m.key)) && !m.value.Null? && !m.value.Bool?) {
      WalkRedacts(rules, m.value, depth + 1);
    }
  }

  /** A walk does exactly that. */
  lemma {:induction false} WalkRedacts(rules: Rules, v: Json, depth: nat)
    ensures Redacts(rules, v, Walk(rules, v, depth), depth)
    decreases v, 1
  {
    if v.Arr? && depth <= 10 {
      WalkItemsAt(rules, v.items, depth);
      hide WalkItems;
      forall i | 0 <= i < |v.items|
        ensures Redacts(rules, v.items[i], Walk(rules, v.items[i], depth + 1), depth + 1)
      {
        WalkRedacts(rules, v.items[i], depth + 1);
      }
    } else if v.Obj? && depth <= 10 {
      hide WalkMembers, Ordered;
      var firsts, lasts := WalkMembersRedact(rules, v.members, depth);
    }
    hide Clean;
  }

  // ----- Depth -----

  /** The value stands directly in the container. */
  ghost predicate Inside(outer: Json, inner: Json) {
    match outer
    case Arr(items) => exists i :: 0 <= i < |items| && items[i] == inner
    case Obj(members) => exists i :: 0 <= i < |members| && members[i].value == inner
    case _ => false
  }

  /** Containers, each directly in the one before it. */
  ghost predicate Chain(chain: seq<Json>) {
    && chain != [] && (forall i :: 0 <= i < |chain| ==> chain[i].Arr? || chain[i].Obj?)
    && forall i :: 0 <= i < |chain| - 1 ==> Inside(chain[i], chain[i + 1])
  }

  lemma {:induction false} ItemAtMost(items: seq<Json>, i: nat)
    requires i < |items|
    ensures Nesting(items[i]) <= ItemsNesting(items)
  {
    if i > 0 {
      ItemAtMost(items[1..], i - 1);
    }
  }

  lemma {:induction false} MemberAtMost(members: seq<Member>, i: nat)
    requires i < |members|
    ensures Nesting(members[i].value) <= MembersNesting(members)
  {
    if i > 0 {
      MemberAtMost(members[1..], i - 1);
    }
  }

  lemma {:induction false} ItemReaches(items: seq<Json>) returns (i: nat)
    requires ItemsNesting(items) > 0
    ensures i < |items| && Nesting(items[i]) == ItemsNesting(items)
  {
    if Nesting(items[0]) == ItemsNesting(items) {
      i := 0;
    } else {
      var j := ItemReaches(items[1..]);
      i := j + 1;
    }
  }

  lemma {:induction false} MemberReaches(members: seq<Member>) returns (i: nat)
    requires MembersNesting(members) > 0
    ensures i < |members| && Nesting(members[i].value) == MembersNesting(members)
  {
    if Nesting(members[0].value) == MembersNesting(members) {
      i := 0;
    } else {
      var j := MemberReaches(members[1..]);
      i := j + 1;
    }
  }

  lemma InsideIsLower(outer: Json, inner: Json)
    requires Inside(outer, inner)
    ensures Nesting(inner) < Nesting(outer)
  {
    match outer
    case Arr(items) =>
      var i :| 0 <= i < |items| && items[i] == inner;
      ItemAtMost(items, i);
    case Obj(members) =>
      var i :| 0 <= i < |members| && members[i].value == inner;
      MemberAtMost(members, i);
  }

  /** No chain is longer than containers nest, and one is as long. */
  lemma {:induction false} ChainFits(chain: seq<Json>)
    requires Chain(chain)
    ensures |chain| <= Nesting(chain[0])
  {
    if |chain| > 1 {
      hide Inside;
      ChainFits(chain[1..]);
      InsideIsLower(chain[0], chain[1]);
    }
  }

  lemma {:induction false} ChainReaches(v: Json) returns (chain: seq<Json>)
    requires v.Arr? || v.Obj?
    ensures Chain(chain) && chain[0] == v && |chain| == Nesting(v)
    decreases Nesting(v)
  {
    chain := [v];
    if Nesting(v) > 1 {
      var inner := Deepest(v);
      var rest := ChainReaches(inner);
      chain := [v] + rest;
    }
  }

  lemma Deepest(v: Json) returns (inner: Json)
    requires Nesting(v) > 1
    ensures (inner.Arr? || inner.Obj?) && Inside(v, inner) && Nesting(v) == Nesting(inner) + 1
  {
    match v
    case Arr(items) =>
      var i := ItemReaches(items);
      inner := items[i];
    case Obj(members) =>
      var i := MemberReaches(members);
      inner := members[i].value;
  }

  /** Of a walked body no more than ten containers stand one in another. */
  lemma WalkedChain(rules: Rules, v: Json, chain: seq<Json>)
    requires Chain(chain) && chain[0] == Walk(rules, v, 1)
    ensures |chain| <= 10
  {
    WalkDepth(rules, v, 1);
    ChainFits(chain);
  }
}
