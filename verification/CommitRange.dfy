/**
 The commit range of a run, collected from a local git that may answer, refuse or not answer at all -- each
 invocation independently. Every method keeps the transcript of the calls it made, so its contract can say what
 git had answered when it decided.
 */
module CommitRange {
  import opened Options
  import opened Text
  import opened GitLog

  const MAX_COMMITS: nat := 100

  datatype Status = Answered | Refused | Unavailable

  datatype GitResult = GitResult(status: Status, out: string)

  datatype Query =
    | RevParse(ref: string)
    | IsShallow
    | RemoteHead
    | MergeBase(branch: string, head: string)
    | Log(revs: string, maxCount: nat)

  datatype Call = Call(query: Query, result: GitResult)

  /** How running git once can end: a repository path that looks like an option is not passed to it at all; it may
      not start (a missing binary, no room to fork), not finish in time, or exit with a code, negative if a signal
      killed it. */
  datatype Raw = PathRefused | NotStarted | TimedOut | Exited(code: int, stdout: string)

  /** Git as an adversary: how its n-th invocation ends, in any state of the repository. */
  type Git = (nat, Query) -> Raw

  /** The three states an invocation counts as. Exit code 1 is git's own "no"; every other failure says nothing
      about the repository. Only a zero exit carries output, stripped. */
  function Classified(raw: Raw): (r: GitResult)
    ensures r.status == Answered <==> raw.Exited? && raw.code == 0
    ensures r.status == Refused <==> raw.PathRefused? || (raw.Exited? && raw.code == 1)
    ensures r.status == Unavailable <==>
              raw.NotStarted? || raw.TimedOut? || (raw.Exited? && (raw.code < 0 || raw.code > 1))
    ensures r.out == if r.status == Answered then Stdout(raw.stdout) else []
  {
    match raw
    case PathRefused => GitResult(Refused, [])
    case NotStarted | TimedOut => GitResult(Unavailable, [])
    case Exited(code, stdout) =>
      if code == 0 then GitResult(Answered, Stdout(stdout))
      else if code < 0 then GitResult(Unavailable, [])
      else if code == 1 then GitResult(Refused, [])
      else GitResult(Unavailable, [])
  }

  method RunGit(git: Git, calls: seq<Call>, query: Query) returns (r: GitResult, calls': seq<Call>)
    ensures r == Classified(git(|calls|, query)) && calls' == calls + [Call(query, r)]
  {
    var raw := git(|calls|, query);
    match raw {
      case PathRefused => r := GitResult(Refused, []);
      case NotStarted => r := GitResult(Unavailable, []);
      case TimedOut => r := GitResult(Unavailable, []);
      case Exited(code, stdout) =>
        if code == 0 {
          r := GitResult(Answered, Stdout(stdout));
        } else if code < 0 {
          r := GitResult(Unavailable, []);
        } else if code == 1 {
          r := GitResult(Refused, []);
        } else {
          r := GitResult(Unavailable, []);
        }
    }
    calls' := calls + [Call(query, r)];
  }

  // ----- References -----

  predicate RefChar(c: char) {
    || 'A' <= c <= 'Z' || 'a' <= c <= 'z' || '0' <= c <= '9'
    || c in {'.', '_', '/', '@', '^', '~', '{', '}', '+', ':', '=', '-'}
  }

  /** What a reference looks like: 1 to 255 characters, each of `+`, `-` to `:`, `=`, `@` to `Z`, `^`, `_`, `a` to
      `{`, `}` and `~` as ASCII orders them; not an option, not the all-zero sentinel. */
  ghost predicate RefShape(s: string) {
    && 1 <= |s| <= 255 && s[0] != '-'
    && (forall i :: 0 <= i < |s| ==>
          var n := s[i] as int;
          || n == 0x2B || 0x2D <= n <= 0x3A || n == 0x3D || 0x40 <= n <= 0x5A || 0x5E <= n <= 0x5F
          || 0x61 <= n <= 0x7B || 0x7D <= n <= 0x7E)
    && exists i :: 0 <= i < |s| && s[i] != '0'
  }

  /** A reference from the environment, or None: empty, option-shaped, of foreign characters, or all zeros. */
  function SafeRef(value: Option<string>): (r: Option<string>)
    ensures r.Some? ==> value.Some? && r.value == Strip(value.value)
    ensures r.Some? ==> 0 < |r.value| <= 255 && r.value[0] != '-' && forall c :: c in r.value ==> RefChar(c)
  {
    match value
    case None => None
    case Some(raw) =>
      var s := Strip(raw);
      if s == [] || s[0] == '-' || |s| > 255 then None
      else if exists i :: 0 <= i < |s| && !RefChar(s[i]) then None
      else if forall i :: 0 <= i < |s| ==> s[i] == '0' then None
      else Some(s)
  }

  /** The references taken are exactly those of that shape once stripped. */
  lemma SafeRefIff(value: string)
    ensures SafeRef(Some(value)) == if RefShape(Strip(value)) then Some(Strip(value)) else None
    ensures SafeRef(None) == None
  {
    hide Strip;
  }

  /** The strongest user-supplied base: explicit, then environment, then config file. An unsafe one counts as
      absent. */
  function UserBase(candidates: seq<Option<string>>): (r: Option<string>)
    ensures r.None? <==> forall i :: 0 <= i < |candidates| ==> SafeRef(candidates[i]).None?
    ensures r.Some? ==> exists i :: && 0 <= i < |candidates| && SafeRef(candidates[i]) == r
                                    && forall j :: 0 <= j < i ==> SafeRef(candidates[j]).None?
  {
    if candidates == [] then None
    else if SafeRef(candidates[0]).Some? then SafeRef(candidates[0])
    else
      var rest := UserBase(candidates[1..]);
      assert forall i :: 0 < i < |candidates| ==> candidates[i] == candidates[1..][i - 1];
      rest
  }

  /** The candidate at `i` is the first of that shape, and `ref` is what it says. */
  ghost predicate FirstShaped(candidates: seq<Option<string>>, i: nat, ref: string) {
    && i < |candidates| && candidates[i].Some? && RefShape(Strip(candidates[i].value))
    && ref == Strip(candidates[i].value)
    && forall j :: 0 <= j < i ==> candidates[j].Some? ==> !RefShape(Strip(candidates[j].value))
  }

  /** The user's base is the first candidate of that shape, and there is none exactly if no candidate has it. */
  lemma UserBaseIsFirst(candidates: seq<Option<string>>)
    ensures forall i: nat, ref :: FirstShaped(candidates, i, ref) ==> UserBase(candidates) == Some(ref)
    ensures UserBase(candidates).Some? <==> exists i: nat, ref :: FirstShaped(candidates, i, ref)
  {
    hide Strip, RefShape, SafeRef, UserBase;
    forall i | 0 <= i < |candidates|
      ensures SafeRef(candidates[i])
           == if candidates[i].Some? && RefShape(Strip(candidates[i].value))
              then Some(Strip(candidates[i].value)) else None
    {
      SafeRefIff(if candidates[i].Some? then candidates[i].value else "");
    }
    if UserBase(candidates).Some? {
      var i: nat :| && i < |candidates| && SafeRef(candidates[i]) == UserBase(candidates)
                    && forall j :: 0 <= j < i ==> SafeRef(candidates[j]).None?;
      assert FirstShaped(candidates, i, UserBase(candidates).value);
    }
  }

  function DropPrefix(s: string, prefix: string): Option<string> {
    if prefix <= s then Some(s[|prefix|..]) else None
  }

  function ShortRef(ref: string): string {
    match DropPrefix(ref, "refs/heads/")
    case Some(short) => short
    case None =>
      match DropPrefix(ref, "refs/remotes/origin/")
      case Some(short) => short
      case None => match DropPrefix(ref, "refs/") case Some(short) => short case None => ref
  }

  function AppendMissing(out: seq<string>, more: seq<string>): seq<string>
    decreases |more|
  {
    if more == [] then out
    else AppendMissing(if more[0] in out then out else out + [more[0]], more[1..])
  }

  /** The forms of a reference a CI checkout may hold, the literal one first. */
  function CandidateRefs(ref: string): seq<string> {
    var short := ShortRef(ref);
    AppendMissing([ref], ["origin/" + short, "refs/remotes/origin/" + short, short])
  }

  ghost predicate NoDuplicates(s: seq<string>) {
    forall i, j :: 0 <= i < j < |s| ==> s[i] != s[j]
  }

  lemma {:induction false} AppendMissingIsUnion(out: seq<string>, more: seq<string>)
    requires NoDuplicates(out)
    ensures var r := AppendMissing(out, more);
            && out <= r && NoDuplicates(r) && |r| <= |out| + |more|
            && (forall s :: s in r <==> s in out || s in more)
    decreases |more|
  {
    if more != [] {
      var next := if more[0] in out then out else out + [more[0]];
      AppendMissingIsUnion(next, more[1..]);
      assert more == [more[0]] + more[1..];
    }
  }

  lemma DropPrefixIff(a: string, b: string, x: string)
    ensures DropPrefix(a + x, a) == Some(x)
    ensures DropPrefix(a + x, a + b).Some? <==> b <= x
    ensures a + b <= x ==> a <= x
  {
    assert (a + x)[|a|..] == x;
    if a + b <= a + x {
      assert (a + b)[|a|..] == b <= (a + x)[|a|..];
    }
    if a + b <= x {
      assert a == (a + b)[..|a|] == x[..|a|];
    }
  }

  /** The short form of a branch is its name, that of a remote branch too; other full references lose `refs/`
      alone, and anything else is short. */
  lemma ShortRefOf(x: string)
    ensures ShortRef("refs/heads/" + x) == x && ShortRef("refs/remotes/origin/" + x) == x
    ensures !("heads/" <= x) && !("remotes/origin/" <= x) ==> ShortRef("refs/" + x) == x
    ensures !("refs/" <= x) ==> ShortRef(x) == x
  {
    hide DropPrefix;
    DropPrefixIff("refs/heads/", "", x);
    DropPrefixIff("refs/remotes/origin/", "", x);
    RemotesAreNoHeads(x);
    DropPrefixIff("refs/", "heads/", x);
    DropPrefixIff("refs/", "remotes/origin/", x);
    assert "refs/" + "heads/" == "refs/heads/" && "refs/" + "remotes/origin/" == "refs/remotes/origin/";
    if !("refs/" <= x) {
      DropNothing(x);
    }
  }

  lemma RemotesAreNoHeads(x: string)
    ensures DropPrefix("refs/remotes/origin/" + x, "refs/heads/") == None
  {
    assert "refs/heads/"[5] == 'h' && ("refs/remotes/origin/" + x)[5] == 'r';
  }

  lemma DropNothing(x: string)
    requires !("refs/" <= x)
    ensures DropPrefix(x, "refs/heads/") == DropPrefix(x, "refs/remotes/origin/") == DropPrefix(x, "refs/") == None
  {
    assert "refs/heads/"[..5] == "refs/" == "refs/remotes/origin/"[..5];
  }

  /** Each form of the reference is tried once, the literal reference first, then the remote forms and the short
      one, unless the reference is that form itself. */
  lemma CandidatesOf(ref: string)
    ensures var r := CandidateRefs(ref);
            var short := ShortRef(ref);
            && 1 <= |r| <= 4 && r[0] == ref && NoDuplicates(r)
            && forall s :: s in r <==> s in {ref, "origin/" + short, "refs/remotes/origin/" + short, short}
    ensures var short := ShortRef(ref);
            && CandidateRefs(ref)
            == [ref, "origin/" + short]
               + (if ref == "refs/remotes/origin/" + short then [] else ["refs/remotes/origin/" + short])
               + (if ref == short then [] else [short])
  {
    var short := ShortRef(ref);
    var origin, remote := "origin/" + short, "refs/remotes/origin/" + short;
    AppendMissingIsUnion([ref], [origin, remote, short]);
    ShortIsShorter(ref);
    assert |origin| == |short| + 7 && |remote| == |short| + 20;
    hide ShortRef;
    AppendOne([ref], origin, [remote, short]);
    var two := [ref, origin];
    assert [ref] + [origin] == two;
    AppendOne(two, remote, [short]);
    var three := if ref == remote then two else two + [remote];
    AppendOne(three, short, []);
    assert [short] + [] == [short];
  }

  lemma AppendOne(out: seq<string>, next: string, more: seq<string>)
    ensures AppendMissing(out, [next] + more) == AppendMissing(if next in out then out else out + [next], more)
  {
    assert ([next] + more)[1..] == more;
  }

  /** The short form is the reference or is at least five characters shorter and the reference starts with
      `refs/`; so the reference is never the form under `origin/`. */
  lemma ShortIsShorter(ref: string)
    ensures ref == ShortRef(ref) || (|ShortRef(ref)| + 5 <= |ref| && ref[0] == 'r')
    ensures ref != "origin/" + ShortRef(ref)
  {
    assert ("origin/" + ShortRef(ref))[0] == 'o';
  }

  // ----- Resolving one reference -----

  /** Zero exit with empty output would read as a sha: it is a refusal. */
  function Normalised(r: GitResult): (n: GitResult)
    ensures n.status.Answered? <==> r.status.Answered? && r.out != []
    ensures n.status.Unavailable? <==> r.status.Unavailable?
    ensures n.out == r.out
  {
    if r.status.Answered? && r.out == [] then GitResult(Refused, []) else r
  }

  method RevParseResult(git: Git, calls: seq<Call>, ref: string) returns (r: GitResult, calls': seq<Call>)
    ensures r == Normalised(Classified(git(|calls|, RevParse(ref))))
    ensures calls' == calls + [Call(RevParse(ref), Classified(git(|calls|, RevParse(ref))))]
  {
    r, calls' := RunGit(git, calls, RevParse(ref));
    r := Normalised(r);
  }

  /** `calls` from index `at` on are probes of the first `n` candidates. */
  ghost predicate Probes(calls: seq<Call>, at: nat, candidates: seq<string>, n: nat) {
    && n <= |candidates| && at + n <= |calls|
    && forall i :: 0 <= i < n ==> calls[at + i].query == RevParse(candidates[i])
  }

  function Probe(calls: seq<Call>, at: nat, i: nat): GitResult
    requires at + i < |calls|
  {
    Normalised(calls[at + i].result)
  }

  /** Calls made later do not change what the probes said. */
  lemma SameProbes(before: seq<Call>, after: seq<Call>, at: nat)
    requires before <= after
    ensures forall i: nat :: at + i < |before| ==> Probe(before, at, i) == Probe(after, at, i)
  {
  }

  /** Exactly what the probes decide: the first resolved form wins; failing that, one missing answer makes the
      whole resolution unavailable; only refusals all round refuse it. */
  ghost predicate Resolution(calls: seq<Call>, at: nat, candidates: seq<string>, r: GitResult) {
    match r.status
    case Answered =>
      exists n :: 0 <= n < |candidates| && Probes(calls, at, candidates, n + 1) && at + n + 1 == |calls|
                  && Probe(calls, at, n) == r && r.out != []
                  && forall i :: 0 <= i < n ==> !Probe(calls, at, i).status.Answered?
    case Unavailable =>
      && r.out == [] && Probes(calls, at, candidates, |candidates|) && at + |candidates| == |calls|
      && (forall i :: 0 <= i < |candidates| ==> !Probe(calls, at, i).status.Answered?)
      && (exists i :: 0 <= i < |candidates| && Probe(calls, at, i).status.Unavailable?)
    case Refused =>
      && r.out == [] && Probes(calls, at, candidates, |candidates|) && at + |candidates| == |calls|
      && (forall i :: 0 <= i < |candidates| ==> Probe(calls, at, i).status.Refused?)
  }

  method ResolveRef(git: Git, calls: seq<Call>, ref: string) returns (r: GitResult, calls': seq<Call>)
    ensures calls <= calls'
    ensures Resolution(calls', |calls|, CandidateRefs(ref), r)
  {
    var candidates := CandidateRefs(ref);
    var unavailable := false;
    calls' := calls;
    for n := 0 to |candidates|
      invariant calls <= calls' && |calls'| == |calls| + n
      invariant Probes(calls', |calls|, candidates, n)
      invariant forall i :: 0 <= i < n ==> !Probe(calls', |calls|, i).status.Answered?
      invariant unavailable <==> exists i :: 0 <= i < n && Probe(calls', |calls|, i).status.Unavailable?
    {
      ghost var before := calls';
      r, calls' := RevParseResult(git, calls', candidates[n]);
      assert forall i :: 0 <= i < n ==> Probe(calls', |calls|, i) == Probe(before, |calls|, i);
      assert Probe(calls', |calls|, n) == r;
      if r.status.Answered? {
        assert Probes(calls', |calls|, candidates, n + 1);
        return r, calls';
      }
      unavailable := unavailable || r.status.Unavailable?;
    }
    r := GitResult(if unavailable then Unavailable else Refused, []);
  }

  // ----- The local fallback -----

  /** Some call answered with exactly this output. */
  ghost predicate AnsweredBy(calls: seq<Call>, at: nat, out: string) {
    exists i :: at <= i < |calls| && calls[i].result == GitResult(Answered, out)
  }

  const USUAL: seq<string> := ["origin/main", "origin/master", "main", "master"]

  /** From call `at` to call `end` git was asked for the default branch, and this is what it said: the remote's
      own word if it gave one, else the first of the usual names that resolved. */
  ghost predicate DefaultIs(calls: seq<Call>, at: nat, end: nat, branch: Option<string>) {
    && at < end <= |calls| && calls[at].query == RemoteHead
    && if calls[at].result.status.Answered? && calls[at].result.out != [] then
         end == at + 1 && branch == Some(calls[at].result.out)
       else if branch.None? then
         end == at + 1 + |USUAL| && Probes(calls, at + 1, USUAL, |USUAL|) && NoneResolved(calls, at + 1, |USUAL|)
       else
         at + 1 < end && FirstResolved(calls, at + 1, end - at - 2, branch.value)
  }

  ghost predicate NoneResolved(calls: seq<Call>, at: nat, n: nat)
    requires at + n <= |calls|
  {
    forall i :: 0 <= i < n ==> !Probe(calls, at, i).status.Answered?
  }

  ghost predicate FirstResolved(calls: seq<Call>, at: nat, n: nat, name: string) {
    && n < |USUAL| && Probes(calls, at, USUAL, n + 1) && name == USUAL[n]
    && NoneResolved(calls, at, n) && Probe(calls, at, n).status.Answered?
  }

  /** When the remote says nothing, `origin/main`, `origin/master`, `main` and `master` are asked for in this order
      until one resolves, and that one is the default branch. */
  lemma UsualOrder(calls: seq<Call>, at: nat, end: nat, branch: Option<string>)
    requires DefaultIs(calls, at, end, branch)
    requires !(calls[at].result.status.Answered? && calls[at].result.out != [])
    ensures at + 1 < end && calls[at + 1].query == RevParse("origin/main")
    ensures Probe(calls, at + 1, 0).status.Answered? <==> branch == Some("origin/main")
    ensures branch != Some("origin/main") ==> at + 2 < end && calls[at + 2].query == RevParse("origin/master")
    ensures branch == Some("origin/master") ==> Probe(calls, at + 1, 1).status.Answered?
    ensures branch !in {Some("origin/main"), Some("origin/master")} ==>
              at + 3 < end && calls[at + 3].query == RevParse("main")
    ensures branch == Some("main") ==> Probe(calls, at + 1, 2).status.Answered?
    ensures branch in {Some("master"), None} ==> at + 4 < end && calls[at + 4].query == RevParse("master")
    ensures branch == Some("master") ==> Probe(calls, at + 1, 3).status.Answered?
    ensures branch in {Some("origin/main"), Some("origin/master"), Some("main"), Some("master"), None}
  {
    var n := end - at - 1;
    ProbeAsks(calls, at + 1, n, 0);
    if n > 1 {
      ProbeAsks(calls, at + 1, n, 1);
    }
    if n > 2 {
      ProbeAsks(calls, at + 1, n, 2);
    }
    if n > 3 {
      ProbeAsks(calls, at + 1, n, 3);
    }
  }

  lemma ProbeAsks(calls: seq<Call>, at: nat, n: nat, i: nat)
    requires i < n && Probes(calls, at, USUAL, n)
    ensures calls[at + i].query == RevParse(USUAL[i])
  {
  }

  lemma UsualNamed()
    ensures forall i :: 0 <= i < |USUAL| ==> USUAL[i] != ""
  {
  }

  lemma FirstNamed(calls: seq<Call>, at: nat, n: nat)
    requires at < |calls| && calls[at].query == RemoteHead
    requires !(calls[at].result.status.Answered? && calls[at].result.out != [])
    requires |calls| == at + 2 + n && n < |USUAL| && FirstResolved(calls, at + 1, n, USUAL[n])
    ensures DefaultIs(calls, at, |calls|, Some(USUAL[n]))
  {
    hide USUAL;
  }

  lemma NoneNamed(calls: seq<Call>, at: nat)
    requires at < |calls| && calls[at].query == RemoteHead
    requires !(calls[at].result.status.Answered? && calls[at].result.out != [])
    requires |calls| == at + 1 + |USUAL| && Probes(calls, at + 1, USUAL, |USUAL|)
    requires NoneResolved(calls, at + 1, |USUAL|)
    ensures DefaultIs(calls, at, |calls|, None)
  {
    hide USUAL;
  }

  /** One more of the usual names is tried. */
  lemma NextNamed(before: seq<Call>, after: seq<Call>, at: nat, n: nat)
    requires n < |USUAL| && |before| == at + n && before <= after && |after| == at + n + 1
    requires Probes(before, at, USUAL, n) && NoneResolved(before, at, n) && after[at + n].query == RevParse(USUAL[n])
    ensures Probes(after, at, USUAL, n + 1)
    ensures if Probe(after, at, n).status.Answered? then FirstResolved(after, at, n, USUAL[n])
            else NoneResolved(after, at, n + 1)
  {
    hide USUAL;
    SameProbes(before, after, at);
  }

  method DefaultBranch(git: Git, calls: seq<Call>) returns (branch: Option<string>, calls': seq<Call>)
    ensures calls <= calls'
    ensures DefaultIs(calls', |calls|, |calls'|, branch)
    ensures branch.Some? ==> branch.value != []
    ensures branch.Some? ==> AnsweredBy(calls', |calls|, branch.value) || branch.value in USUAL
  {
    UsualNamed();
    hide USUAL;
    var r;
    r, calls' := RunGit(git, calls, RemoteHead);
    if r.status.Answered? && r.out != [] {
      assert calls'[|calls|].result == r;
      return Some(r.out), calls';
    }
    hide AnsweredBy, DefaultIs, Probes, Probe, NoneResolved, FirstResolved, Classified;
    for i := 0 to |USUAL|
      invariant calls <= calls' && |calls'| == |calls| + 1 + i
      invariant calls'[|calls|].query == RemoteHead
      invariant !(calls'[|calls|].result.status.Answered? && calls'[|calls|].result.out != [])
      invariant Probes(calls', |calls| + 1, USUAL, i)
      invariant NoneResolved(calls', |calls| + 1, i)
    {
      ghost var before := calls';
      r, calls' := RevParseResult(git, calls', USUAL[i]);
      NextNamed(before, calls', |calls| + 1, i);
      if r.status.Answered? {
        FirstNamed(calls', |calls|, i);
        return Some(USUAL[i]), calls';
      }
    }
    NoneNamed(calls', |calls|);
    return None, calls';
  }

  /** The calls from `at` on looked for a base below the default branch, else for the parent of the head. */
  ghost predicate FellBack(calls: seq<Call>, at: nat, head: string, base: Option<string>) {
    exists mid, branch :: DefaultIs(calls, at, mid, branch) && FellBackFrom(calls, mid, head, branch, base)
  }

  ghost predicate FellBackFrom(calls: seq<Call>, at: nat, head: string, branch: Option<string>, base: Option<string>)
  {
    if branch.None? then ParentIs(calls, at, head, base)
    else
      && at < |calls| && calls[at].query == MergeBase(branch.value, head)
      && var r := calls[at].result;
         if r.status.Answered? && r.out != [] && r.out != head then |calls| == at + 1 && base == Some(r.out)
         else ParentIs(calls, at + 1, head, base)
  }

  ghost predicate ParentIs(calls: seq<Call>, at: nat, head: string, base: Option<string>) {
    && |calls| == at + 1 && calls[at].query == RevParse(head + "^")
    && var r := calls[at].result;
       base == if r.status.Answered? && r.out != [] && r.out != head then Some(r.out) else None
  }

  lemma DefaultStands(before: seq<Call>, after: seq<Call>, at: nat, end: nat, branch: Option<string>)
    requires before <= after && DefaultIs(before, at, end, branch)
    ensures DefaultIs(after, at, end, branch)
  {
    SameProbes(before, after, at + 1);
  }

  /** Never a synthesised base: what comes back is git's own answer, and it is not the head. */
  method FallbackBase(git: Git, calls: seq<Call>, head: string) returns (base: Option<string>, calls': seq<Call>)
    ensures calls <= calls'
    ensures base.Some? ==> base.value != [] && base.value != head && AnsweredBy(calls', |calls|, base.value)
    ensures FellBack(calls', |calls|, head, base)
  {
    hide DefaultIs;
    var branch, r;
    branch, calls' := DefaultBranch(git, calls);
    ghost var asked := calls';
    if branch.Some? {
      r, calls' := RunGit(git, calls', MergeBase(branch.value, head));
      if r.status.Answered? && r.out != [] && r.out != head {
        DefaultStands(asked, calls', |calls|, |asked|, branch);
        assert calls'[|calls'| - 1].result == r;
        return Some(r.out), calls';
      }
    }
    r, calls' := RevParseResult(git, calls', head + "^");
    DefaultStands(asked, calls', |calls|, |asked|, branch);
    if r.status.Answered? && r.out != head {
      assert calls'[|calls'| - 1].result == r;
      return Some(r.out), calls';
    }
    return None, calls';
  }

  // ----- The decision -----

  datatype Source = User | Ci | GitFallback | HeadOnly

  datatype Range = Range(
    base: Option<string>, head: string, commits: seq<Commit>, source: Source, degraded: bool, truncated: bool)

  datatype Reason =
    | Fine | Degraded | Disabled | NoCheckout | GitFailed
    | UserBaseUnresolvable | NoBase | EmptyRange | LogFailed

  datatype Outcome = Outcome(range: Option<Range>, reason: Reason)

  ghost predicate IsListing(call: Call, revs: string, limit: nat, commits: seq<Commit>, truncated: bool) {
    && call.query == Log(revs, limit + 1) && call.result.status.Answered?
    && ListingOf(call.result.out, limit) == Listing(commits, truncated)
  }

  method LogCommits(git: Git, calls: seq<Call>, revs: string, limit: nat)
    returns (status: Status, listing: Listing, calls': seq<Call>)
    ensures |calls'| == |calls| + 1 && calls'[..|calls|] == calls
    ensures calls'[|calls|].query == Log(revs, limit + 1) && calls'[|calls|].result.status == status
    ensures status.Answered? ==> IsListing(calls'[|calls|], revs, limit, listing.commits, listing.truncated)
    ensures !status.Answered? ==> listing == Listing([], false)
    ensures |listing.commits| <= limit
  {
    var r;
    r, calls' := RunGit(git, calls, Log(revs, limit + 1));
    if !r.status.Answered? {
      return r.status, Listing([], false), calls';
    }
    listing := ReadListing(r.out, limit);
    ReverseLength(Take(ParseRecords(Split(r.out, RS)), limit));
    return Answered, listing, calls';
  }

  /** An outage is reported only if some invocation went unanswered; an empty range and a failed log only on
      git's own word. */
  ghost predicate ReasonTrue(calls: seq<Call>, reason: Reason) {
    && (reason == GitFailed ==> exists i :: 0 <= i < |calls| && calls[i].result.status.Unavailable?)
    && (reason == LogFailed ==> calls != [] && !calls[|calls| - 1].result.status.Unavailable?)
    && (reason == EmptyRange ==> calls != [] && calls[|calls| - 1].result.status.Answered?)
  }

  /** From call `at` on: outside a shallow clone nothing more is asked and the reason stands; in one, the log of
      the head alone decides. */
  ghost predicate Degrades(calls: seq<Call>, at: nat, head: string, shallow: bool, reason: Reason, o: Outcome) {
    if !shallow then |calls| == at && o == Outcome(None, reason)
    else
      && |calls| == at + 1 && calls[at].query == Log(head, 2)
      && var r := calls[at].result;
         var commits := if r.status.Answered? then ListingOf(r.out, 1).commits else [];
         o == if commits == [] then Outcome(None, if r.status.Unavailable? then GitFailed else LogFailed)
              else Outcome(Some(Range(None, head, commits, HeadOnly, true, false)), Degraded)
  }

  /** From call `at` on: a base that is not the head has its range logged, and a log with commits is the range. */
  ghost predicate Ends(calls: seq<Call>, at: nat, head: string, shallow: bool, base: Option<string>, source: Source,
                       o: Outcome)
  {
    if base.None? || base.value == head then Degrades(calls, at, head, shallow, NoBase, o)
    else
      && at < |calls| && calls[at].query == Log(base.value + ".." + head, MAX_COMMITS + 1)
      && var r := calls[at].result;
         if !r.status.Answered? then
           Degrades(calls, at + 1, head, shallow, if r.status.Unavailable? then GitFailed else LogFailed, o)
         else
           var listing := ListingOf(r.out, MAX_COMMITS);
           && |calls| == at + 1
           && o == if listing.commits == [] then Outcome(None, EmptyRange)
                   else Outcome(Some(Range(base, head, listing.commits, source, false, listing.truncated)), Fine)
  }

  /** Degraded mode: in a shallow clone, only the commit that is provably there; elsewhere nothing. */
  method HeadOnlyRange(git: Git, calls: seq<Call>, head: string, shallow: bool, reason: Reason)
    returns (o: Outcome, calls': seq<Call>)
    requires reason !in {Fine, Degraded} && ReasonTrue(calls, reason)
    ensures calls <= calls' && ReasonTrue(calls', o.reason)
    ensures Degrades(calls', |calls|, head, shallow, reason, o)
    ensures !shallow ==> o == Outcome(None, reason) && calls' == calls
    ensures o.range.None? ==> o.reason in {reason, GitFailed, LogFailed}
    ensures shallow && o.range.None? ==> o.reason in {GitFailed, LogFailed}
    ensures o.range.Some? ==>
              && shallow && o.reason == Degraded && |o.range.value.commits| == 1
              && o.range.value == Range(None, head, o.range.value.commits, HeadOnly, true, false)
    ensures o.reason == Degraded <==> o.range.Some?
  {
    if !shallow {
      return Outcome(None, reason), calls;
    }
    var status, listing;
    status, listing, calls' := LogCommits(git, calls, head, 1);
    if listing.commits == [] {
      return Outcome(None, if status.Unavailable? then GitFailed else LogFailed), calls';
    }
    return Outcome(Some(Range(None, head, listing.commits, HeadOnly, true, false)), Degraded), calls';
  }

  /** Where the calls of a decision stand: HEAD first, then the shallow probe. */
  ghost predicate StartsWithHead(calls: seq<Call>) {
    && |calls| >= 2 && calls[0].query == RevParse("HEAD") && calls[1].query == IsShallow
  }

  ghost predicate IsShallowClone(calls: seq<Call>) {
    StartsWithHead(calls) && calls[1].result == GitResult(Answered, "true")
  }

  ghost predicate ResolvedTo(calls: seq<Call>, ref: string, sha: string) {
    exists k :: 2 <= k <= |calls| && Resolution(calls[..k], 2, CandidateRefs(ref), GitResult(Answered, sha))
  }

  /** No form of the reference resolved, and git gave no answer about at least one of them. */
  ghost predicate Outage(calls: seq<Call>, candidates: seq<string>) {
    && Probes(calls, 2, candidates, |candidates|)
    && (forall i :: 0 <= i < |candidates| ==> !Probe(calls, 2, i).status.Answered?)
    && (exists i :: 0 <= i < |candidates| && Probe(calls, 2, i).status.Unavailable?)
  }

  /** A safe user base is authoritative: its resolution, nothing else, decides. */
  ghost predicate UserBaseHonoured(ref: string, calls: seq<Call>, o: Outcome) {
    && (o.range.Some? ==> o.range.value.source in {User, HeadOnly})
    && (o.range.Some? && o.range.value.source == User ==>
          o.range.value.base.Some? && ResolvedTo(calls, ref, o.range.value.base.value))
    && (o.reason == UserBaseUnresolvable ==>
          Resolution(calls, 2, CandidateRefs(ref), GitResult(Refused, [])))
    && (Outage(calls, CandidateRefs(ref)) ==> o == Outcome(None, GitFailed))
  }

  /** What every outcome promises, whatever git does. */
  ghost predicate Honest(calls: seq<Call>, o: Outcome) {
    && ReasonTrue(calls, o.reason)
    && (o.range.Some? <==> o.reason in {Fine, Degraded})
    && (o.range.Some? ==> StartsWithHead(calls) && calls[0].result == GitResult(Answered, o.range.value.head))
    && (o.reason == Degraded ==>
          && IsShallowClone(calls) && |o.range.value.commits| == 1
          && o.range.value == Range(None, o.range.value.head, o.range.value.commits, HeadOnly, true, false))
    && (o.reason == Fine ==>
          && o.range.value.base.Some? && !o.range.value.degraded
          && o.range.value.base.value != o.range.value.head
          && AnsweredBy(calls, 2, o.range.value.base.value)
          && 1 <= |o.range.value.commits| <= MAX_COMMITS
          && o.range.value.source != HeadOnly
          && IsListing(calls[|calls| - 1], o.range.value.base.value + ".." + o.range.value.head, MAX_COMMITS,
                       o.range.value.commits, o.range.value.truncated))
  }

  /** A range that is fine holds 1 to 100 commits, of a log of base..head that was asked for one more. */
  lemma FineIsListed(calls: seq<Call>, o: Outcome)
    requires Honest(calls, o) && o.reason == Fine
    ensures o.range.Some? && o.range.value.base.Some? && calls != []
    ensures 1 <= |o.range.value.commits| <= 100
    ensures calls[|calls| - 1].query == Log(o.range.value.base.value + ".." + o.range.value.head, 101)
  {
  }

  /** The tail every base ends in: the log of base..head, or the degraded mode. */
  method RangeFrom(git: Git, calls: seq<Call>, head: string, shallow: bool, base: Option<string>, source: Source)
    returns (o: Outcome, calls': seq<Call>)
    requires StartsWithHead(calls) && calls[0].result == GitResult(Answered, head)
    requires shallow == IsShallowClone(calls) && source != HeadOnly
    requires base.Some? ==> base.value != [] && AnsweredBy(calls, 2, base.value)
    ensures calls <= calls'
    ensures Honest(calls', o)
    ensures Ends(calls', |calls|, head, shallow, base, source, o)
    ensures o.range.Some? ==>
              o.range.value.source == HeadOnly || (o.range.value.source == source && o.range.value.base == base)
    ensures o.reason !in {Disabled, NoCheckout, UserBaseUnresolvable}
  {
    if base.None? || base.value == head {
      o, calls' := HeadOnlyRange(git, calls, head, shallow, NoBase);
      return;
    }
    var status, listing;
    status, listing, calls' := LogCommits(git, calls, base.value + ".." + head, MAX_COMMITS);
    if !status.Answered? {
      o, calls' := HeadOnlyRange(git, calls', head, shallow, if status.Unavailable? then GitFailed else LogFailed);
      return;
    }
    if listing.commits == [] {
      return Outcome(None, EmptyRange), calls';
    }
    var range := Range(base, head, listing.commits, source, false, listing.truncated);
    assert AnsweredBy(calls', 2, base.value) by {
      var i :| 2 <= i < |calls| && calls[i].result == GitResult(Answered, base.value);
      assert calls'[i] == calls[i];
    }
    return Outcome(Some(range), Fine), calls';
  }

  /** A user's base decides like this: unavailable means failed, refused means degraded mode, and what it
      resolved to (by the calls up to `mid`) is the base. */
  ghost predicate UserDecided(calls: seq<Call>, mid: nat, head: string, shallow: bool, ref: string, r: GitResult,
                              o: Outcome)
  {
    && 2 <= mid <= |calls| && Resolution(calls[..mid], 2, CandidateRefs(ref), r)
    && match r.status
       case Unavailable => |calls| == mid && o == Outcome(None, GitFailed)
       case Refused => Degrades(calls, mid, head, shallow, UserBaseUnresolvable, o)
       case Answered => Ends(calls, mid, head, shallow, Some(r.out), User, o)
  }

  /** Tiers 1 to 3: the user named the base. */
  method FromUserBase(git: Git, calls: seq<Call>, head: string, shallow: bool, ref: string)
    returns (o: Outcome, calls': seq<Call>)
    requires |calls| == 2 && StartsWithHead(calls) && calls[0].result == GitResult(Answered, head)
    requires shallow == IsShallowClone(calls)
    ensures calls <= calls' && Honest(calls', o) && UserBaseHonoured(ref, calls', o)
    ensures exists mid, r :: UserDecided(calls', mid, head, shallow, ref, r, o)
  {
    var r;
    r, calls' := ResolveRef(git, calls, ref);
    ghost var resolved := calls';
    if r.status.Unavailable? {
      assert calls'[..|resolved|] == resolved;
      assert UserDecided(calls', |resolved|, head, shallow, ref, r, Outcome(None, GitFailed));
      return Outcome(None, GitFailed), calls';
    }
    if r.out == [] {
      o, calls' := HeadOnlyRange(git, calls', head, shallow, UserBaseUnresolvable);
      SameProbes(resolved, calls', 2);
      assert calls'[..|resolved|] == resolved;
      assert UserDecided(calls', |resolved|, head, shallow, ref, r, o);
      return;
    }
    o, calls' := RangeFrom(git, calls', head, shallow, Some(r.out), User);
    assert calls'[..|resolved|] == resolved;
    SameProbes(resolved, calls', 2);
    assert UserDecided(calls', |resolved|, head, shallow, ref, r, o);
  }

  lemma ResolvedIsAnswer(calls: seq<Call>, at: nat, candidates: seq<string>, r: GitResult)
    requires Resolution(calls, at, candidates, r) && r.out != []
    ensures AnsweredBy(calls, at, r.out)
  {
    var n :| 0 <= n < |candidates| && Probes(calls, at, candidates, n + 1) && at + n + 1 == |calls|
             && Probe(calls, at, n) == r;
    assert calls[at + n].result == r;
  }

  /** What the CI provider's reference resolved to by the calls up to `mid`. */
  ghost predicate CiResolved(calls: seq<Call>, mid: nat, ciRef: Option<string>, base: Option<string>) {
    && 2 <= mid <= |calls|
    && if ciRef.None? || ciRef.value == [] then mid == 2 && base.None?
       else exists r :: && Resolution(calls[..mid], 2, CandidateRefs(ciRef.value), r)
                        && base == if r.out == [] then None else Some(r.out)
  }

  lemma CiResolvedLater(resolved: seq<Call>, calls: seq<Call>, ciRef: Option<string>, base: Option<string>)
    requires CiResolved(resolved, |resolved|, ciRef, base) && resolved <= calls
    ensures CiResolved(calls, |resolved|, ciRef, base)
  {
    hide Resolution;
    assert resolved[..|resolved|] == resolved == calls[..|resolved|];
  }

  /** The fallback was asked by the calls up to `end`, and its base decides the rest. */
  ghost predicate FallbackDecided(calls: seq<Call>, mid: nat, end: nat, head: string, shallow: bool,
                                  base: Option<string>, o: Outcome)
  {
    && mid <= end <= |calls| && FellBack(calls[..end], mid, head, base)
    && Ends(calls, end, head, shallow, base, GitFallback, o)
  }

  /** The CI base decides if it resolved and is not the head; otherwise the fallback does. */
  ghost predicate Inferred(calls: seq<Call>, mid: nat, head: string, shallow: bool, ciRef: Option<string>,
                           base: Option<string>, o: Outcome)
  {
    && CiResolved(calls, mid, ciRef, base)
    && if base.Some? && base.value != head then Ends(calls, mid, head, shallow, base, Ci, o)
       else exists end, fallback :: FallbackDecided(calls, mid, end, head, shallow, fallback, o)
  }

  /** Tiers 4 and 5: the CI provider's base, else the local fallback. Refusals and outages both fall through. */
  method FromInference(git: Git, calls: seq<Call>, head: string, shallow: bool, ciRef: Option<string>)
    returns (o: Outcome, calls': seq<Call>)
    requires |calls| == 2 && StartsWithHead(calls) && calls[0].result == GitResult(Answered, head)
    requires shallow == IsShallowClone(calls)
    ensures calls <= calls' && Honest(calls', o)
    ensures o.range.Some? ==> o.range.value.source in {Ci, GitFallback, HeadOnly}
    ensures o.range.Some? && o.range.value.source == Ci ==>
              ciRef.Some? && ResolvedTo(calls', ciRef.value, o.range.value.base.value)
    ensures o.reason !in {Disabled, NoCheckout, UserBaseUnresolvable}
    ensures exists mid, base :: Inferred(calls', mid, head, shallow, ciRef, base, o)
  {
    hide Resolution, FellBack, CandidateRefs, Ends, Honest;
    var base: Option<string> := None;
    calls' := calls;
    var source := Ci;
    if ciRef.Some? && ciRef.value != [] {
      var r;
      r, calls' := ResolveRef(git, calls', ciRef.value);
      base := if r.out == [] then None else Some(r.out);
      if r.out != [] {
        ResolvedIsAnswer(calls', 2, CandidateRefs(ciRef.value), r);
      }
    }
    ghost var resolved, ci := calls', base;
    assert resolved[..|resolved|] == resolved;
    assert CiResolved(resolved, |resolved|, ciRef, ci);
    hide CiResolved;
    if base == Some(head) {
      base := None;
    }
    if base.None? {
      base, calls' := FallbackBase(git, calls', head);
      source := GitFallback;
    }
    ghost var asked := calls';
    o, calls' := RangeFrom(git, calls', head, shallow, base, source);
    CiResolvedLater(resolved, calls', ciRef, ci);
    assert calls'[..|asked|] == asked;
    if source == GitFallback {
      assert FallbackDecided(calls', |resolved|, |asked|, head, shallow, base, o);
    }
    assert Inferred(calls', |resolved|, head, shallow, ciRef, ci, o);
  }

  /** The whole decision, from what git said: HEAD, the shallow probe, then the user's base if one was named
      safely, else what can be inferred. */
  ghost predicate Decided(calls: seq<Call>, userBases: seq<Option<string>>, ciRef: Option<string>, o: Outcome) {
    && calls != [] && calls[0].query == RevParse("HEAD")
    && var head := Normalised(calls[0].result);
       if !head.status.Answered? then |calls| == 1 && o == Outcome(None, NoCheckout)
       else
         && StartsWithHead(calls)
         && match UserBase(userBases)
            case Some(ref) => exists mid, r :: UserDecided(calls, mid, head.out, IsShallowClone(calls), ref, r, o)
            case None => exists mid, base :: Inferred(calls, mid, head.out, IsShallowClone(calls), ciRef, base, o)
  }

  /** Nothing sent before git said anything about a base: the outcome promises nothing that could be broken. */
  lemma NothingIsHonest(calls: seq<Call>, ref: string, reason: Reason)
    requires |calls| <= 1 && reason in {Disabled, NoCheckout}
    ensures Honest(calls, Outcome(None, reason)) && UserBaseHonoured(ref, calls, Outcome(None, reason))
  {
    CandidatesOf(ref);
  }

  method DiagnoseCommitRange(git: Git, enabled: bool, checkout: bool, userBases: seq<Option<string>>,
                             ciRef: Option<string>)
    returns (o: Outcome, calls: seq<Call>)
    ensures enabled && checkout ==> Decided(calls, userBases, ciRef, o)
    ensures Honest(calls, o)
    ensures enabled && checkout ==> calls != []
    ensures UserBase(userBases).Some? ==> UserBaseHonoured(UserBase(userBases).value, calls, o)
    ensures forall i: nat, ref :: FirstShaped(userBases, i, ref) ==>
              && UserBaseHonoured(ref, calls, o)
              && (enabled && checkout && Normalised(calls[0].result).status.Answered? ==>
                    exists mid, r ::
                      UserDecided(calls, mid, Normalised(calls[0].result).out, IsShallowClone(calls), ref, r, o))
    ensures UserBase(userBases).None? && o.range.Some? ==> o.range.value.source in {Ci, GitFallback, HeadOnly}
    ensures UserBase(userBases).None? ==> o.reason != UserBaseUnresolvable
    ensures o.range.Some? && o.range.value.source == Ci ==>
              ciRef.Some? && ResolvedTo(calls, ciRef.value, o.range.value.base.value)
    ensures enabled && checkout && calls[0].result.status != Answered ==> o == Outcome(None, NoCheckout)
    ensures !enabled ==> o == Outcome(None, Disabled) && calls == []
    ensures enabled && !checkout ==> o == Outcome(None, NoCheckout) && calls == []
  {
    hide ResolvedTo, Resolution, AnsweredBy, IsListing, CandidateRefs, UserBase, FirstShaped;
    hide Honest, UserBaseHonoured, UserDecided, Inferred;
    UserBaseIsFirst(userBases);
    calls := [];
    var base := UserBase(userBases);
    ghost var named := if base.Some? then base.value else [];
    NothingIsHonest(calls, named, Disabled);
    NothingIsHonest(calls, named, NoCheckout);
    if !enabled {
      return Outcome(None, Disabled), calls;
    }
    if !checkout {
      return Outcome(None, NoCheckout), calls;
    }
    var head, shallowProbe;
    head, calls := RevParseResult(git, calls, "HEAD");
    if !head.status.Answered? {
      NothingIsHonest(calls, named, NoCheckout);
      return Outcome(None, NoCheckout), calls;
    }
    shallowProbe, calls := RunGit(git, calls, IsShallow);
    var shallow := shallowProbe == GitResult(Answered, "true");
    ghost var begun := calls;
    if base.Some? {
      o, calls := FromUserBase(git, calls, head.out, shallow, base.value);
    } else {
      o, calls := FromInference(git, calls, head.out, shallow, ciRef);
    }
    assert calls[0] == begun[0] && calls[1] == begun[1];
    assert Normalised(calls[0].result) == head && IsShallowClone(calls) == shallow;
  }

  // ----- An unsafe user base -----

  /** The explicit base is the user's base exactly if it is safe; an unsafe one counts as none. */
  lemma ExplicitBase(base: string)
    ensures UserBase([Some(base), None, None]) == if RefShape(Strip(base)) then Some(Strip(base)) else None
  {
    SafeRefIff(base);
    hide SafeRef, RefShape, Strip;
    var three: seq<Option<string>> := [Some(base), None, None];
    assert three[1..][0] == None && three[1..][1..] == three[2..] && three[2..][0] == None && three[2..][1..] == [];
    assert UserBase(three[2..]) == None;
    assert UserBase(three[1..]) == None;
  }

  function Answer(query: Query, out: string): Call {
    Call(query, GitResult(Answered, out))
  }

  /** What git may say when the explicit base is unsafe: the head is `h`, the clone is complete, the CI provider's
      `main` is `b`, and between them there is one commit. */
  function FallThrough(log: string): seq<Call> {
    [Answer(RevParse("HEAD"), "h"), Answer(IsShallow, "false"), Answer(RevParse("main"), "b"),
     Answer(Log("b..h", MAX_COMMITS + 1), log)]
  }

  lemma MainResolves(log: string)
    ensures Resolution(FallThrough(log)[..3], 2, CandidateRefs("main"), GitResult(Answered, "b"))
  {
    CandidatesOf("main");
    var calls := FallThrough(log)[..3];
    var candidates := CandidateRefs("main");
    assert candidates[0] == "main" && calls[2] == Answer(RevParse("main"), "b");
    hide CandidateRefs;
    assert Probes(calls, 2, candidates, 1);
    assert Probe(calls, 2, 0) == GitResult(Answered, "b");
  }

  lemma OneCommitListed(entry: LogEntry)
    requires Printable(entry) && Survives(entry)
    ensures ListingOf(Stdout(Print([entry])), MAX_COMMITS) == Listing([Clipped(entry)], false)
  {
    ListingKeepsAll([entry], MAX_COMMITS);
    assert ClippedAll([entry]) == [Clipped(entry)];
    hide Printable, Survives, Clipped, ListingOf, Print, Stdout;
  }

  /** "User-supplied bases are authoritative" holds of an explicit base exactly if it is safe. If it is not, git
      may answer so that the run is given a range the CI provider's reference decides. */
  lemma UnsafeBaseFallsThrough(base: string, entry: LogEntry) returns (calls: seq<Call>, o: Outcome)
    requires !RefShape(Strip(base)) && Printable(entry) && Survives(entry)
    ensures Decided(calls, [Some(base), None, None], Some("main"), o)
    ensures o == Outcome(Some(Range(Some("b"), "h", [Clipped(entry)], Ci, false, false)), Fine)
  {
    hide RefShape, Strip, UserBase, Resolution, CandidateRefs, Printable, Survives, Clipped, ListingOf, Print, Stdout;
    ExplicitBase(base);
    OneCommitListed(entry);
    var log := Stdout(Print([entry]));
    calls := FallThrough(log);
    MainResolves(log);
    assert CiResolved(calls, 3, Some("main"), Some("b"));
    hide CiResolved;
    var listing := ListingOf(log, MAX_COMMITS);
    o := Outcome(Some(Range(Some("b"), "h", listing.commits, Ci, false, listing.truncated)), Fine);
    assert "b" + ".." + "h" == "b..h";
    assert Ends(calls, 3, "h", false, Some("b"), Ci, o);
    assert Inferred(calls, 3, "h", false, Some("main"), Some("b"), o);
    hide Inferred;
    assert !IsShallowClone(calls) && StartsWithHead(calls);
  }

  /** An option-shaped one is unsafe, whatever white space it comes in. */
  lemma OptionShapedIsUnsafe(value: string)
    requires "-" <= Strip(value)
    ensures SafeRef(Some(value)) == None
  {
  }
}
