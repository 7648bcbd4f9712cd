/**
 Which alias tables `alias set` can build: the checks look at one name at a time, and what they let
 through over a whole run is exactly what stays acyclic and known throughout.
 */
module AliasReach {
  import opened Wrappers
  import opened Sequences
  import opened Text
  import opened AliasSplit
  import opened AliasExpand
  import opened AliasGraph
  import opened AliasTable
  import opened AliasLimits

  /** What `set` writes for one name: both parts trimmed, a name that passes `check_name`, and no flag in front. */
  ghost predicate WellSet(commands: set<string>, name: string, expansion: string) {
    && NameProblem(commands, name).None? && Trim(name) == name && Trim(expansion) == expansion
    && Words(expansion).Ok? && Words(expansion).value != [] && !StartsWithDash(Words(expansion).value[0])
  }

  ghost predicate AllWellSet(commands: set<string>, user: Table) {
    forall n :: n in user ==> WellSet(commands, n, user[n])
  }

  /** A table without cycles or dangling aliases whose entries are well set. */
  ghost predicate Sound(commands: set<string>, user: Table) {
    Safe(commands, user) && Closed(commands, WithBuiltins(user)) && AllWellSet(commands, user)
  }

  predicate OnlySets(run: seq<Change>) {
    forall i :: 0 <= i < |run| ==> run[i].SetAlias?
  }

  /** No step of the run is refused. */
  ghost predicate AllAccepted(commands: set<string>, run: seq<Change>) {
    forall i :: 0 <= i < |run| ==> Accepted(commands, AfterAll(commands, map[], run[..i]), run[i])
  }

  ghost predicate Accepted(commands: set<string>, user: Table, c: Change) {
    c.SetAlias? && Problem(commands, user, Trim(c.name), Trim(c.expansion)).None?
  }

  // ------------------------------------------------------------------------ trimming

  lemma {:induction false} TrimStartShape(s: string)
    ensures TrimStart(s) == "" || !IsSpace(TrimStart(s)[0])
  {
    if s != "" && IsSpace(s[0]) {
      TrimStartShape(s[1..]);
    }
  }

  lemma {:induction false} TrimEndShape(s: string)
    ensures TrimEnd(s) == "" || !IsSpace(TrimEnd(s)[|TrimEnd(s)| - 1])
    ensures TrimEnd(s) <= s
  {
    if s != "" && IsSpace(s[|s| - 1]) {
      TrimEndShape(s[..|s| - 1]);
    }
  }

  lemma TrimIsIdempotent(s: string)
    ensures Trim(Trim(s)) == Trim(s)
  {
    TrimStartShape(s);
    TrimEndShape(TrimStart(s));
  }

  // ---------------------------------------------------------- what a run of sets keeps

  lemma SetKeepsSound(commands: set<string>, user: Table, name: string, expansion: string)
    requires Sound(commands, user) && Trim(name) == name && Trim(expansion) == expansion
    requires Problem(commands, user, name, expansion).None?
    ensures Sound(commands, user[name := expansion])
  {
    StoreKeepsSafe(commands, user, name, expansion);
    StoreKeepsClosed(commands, user, name, expansion);
    NoProblemIsWellSet(commands, user, name, expansion);
  }

  lemma NoProblemIsWellSet(commands: set<string>, user: Table, name: string, expansion: string)
    requires Problem(commands, user, name, expansion).None? && Trim(name) == name && Trim(expansion) == expansion
    ensures WellSet(commands, name, expansion)
  {
  }

  lemma {:induction false} RunKeepsSound(commands: set<string>, run: seq<Change>)
    requires Sensible(commands) && OnlySets(run)
    ensures Sound(commands, AfterAll(commands, map[], run))
    decreases |run|
  {
    if run == [] {
      BuiltinsAreSafe(commands);
      EmptyIsClosed(commands);
    } else {
      var n := |run| - 1;
      RunKeepsSound(commands, run[..n]);
      var before := AfterAll(commands, map[], run[..n]);
      TrimIsIdempotent(run[n].name);
      TrimIsIdempotent(run[n].expansion);
      if Accepted(commands, before, run[n]) {
        SetKeepsSound(commands, before, Trim(run[n].name), Trim(run[n].expansion));
      }
    }
  }

  // --------------------------------------------------------------- an order to set them in

  /** Some name of `names` points out of it. */
  lemma {:induction false} WayOut(t: Table, names: set<string>, p: seq<string>) returns (n: string)
    requires Acyclic(t) && IsWalk(t, p) && Distinct(p) && forall i :: 0 <= i < |p| ==> p[i] in names
    ensures n in names && (Edge(t, n).Some? ==> Edge(t, n).value !in names)
    decreases |names| - |p|
  {
    DistinctFits(p, names);
    n := p[|p| - 1];
    if Edge(t, n).Some? && Edge(t, n).value in names {
      var next := Edge(t, n).value;
      LongerWalk(t, p, next);
      DistinctFits(p + [next], names);
      n := WayOut(t, names, p + [next]);
    }
  }

  /** Every name once, and none in front of one that points at it. */
  ghost predicate TargetsLast(t: Table, names: set<string>, order: seq<string>) {
    && (forall n :: n in names <==> n in order)
    && Distinct(order)
    && forall i, j :: 0 <= i <= j < |order| ==> Edge(t, order[j]) != Some(order[i])
  }

  lemma {:induction false} TargetsCanComeLast(t: Table, names: set<string>) returns (order: seq<string>)
    requires Acyclic(t)
    ensures TargetsLast(t, names, order)
    decreases names
  {
    if names == {} {
      order := [];
    } else {
      var start :| start in names;
      var last := WayOut(t, names, [start]);
      var rest := TargetsCanComeLast(t, names - {last});
      order := rest + [last];
      forall i, j | 0 <= i <= j < |order| ensures Edge(t, order[j]) != Some(order[i]) {
        assert order[i] in names;
      }
    }
  }

  // ------------------------------------------------------------------------ one step

  /** A walk of two hops is short enough for the cycle check. */
  lemma ShortWalkPasses(t: Table, name: string, p: seq<string>)
    requires SettlesVia(t, name, p) && |p| <= 3
    ensures CycleFrom(t, [name]).None?
  {
    CycleFromWalk(t, name, p);
  }

  lemma WalkOfOne(t: Table, name: string, command: string)
    requires Edge(t, name) == Some(command) && command !in t
    ensures CycleFrom(t, [name]).None?
  {
    assert IsWalk(t, [name, command]);
    ShortWalkPasses(t, name, [name, command]);
  }

  lemma WalkOfTwo(t: Table, name: string, next: string, command: string)
    requires Edge(t, name) == Some(next) && Edge(t, next) == Some(command) && command !in t
    ensures CycleFrom(t, [name]).None?
  {
    assert IsWalk(t, [name, next, command]);
    ShortWalkPasses(t, name, [name, next, command]);
  }

  lemma NoProblem(commands: set<string>, user: Table, name: string, expansion: string)
    requires WellSet(commands, name, expansion)
    requires var head := Words(expansion).value[0]; head in commands || head in WithBuiltins(user)
    requires CycleFrom(Candidate(user, name, expansion), [name]).None?
    ensures Problem(commands, user, name, expansion).None?
  {
  }

  /** Every name for `command` at first, and those in `done` for what they are to be in the end. */
  function Midway(user: Table, done: set<string>, command: string): Table {
    map n | n in user :: if n in done then user[n] else command
  }

  /** A name can be set to its final expansion while what that points at is still as it was at first. */
  lemma RedirectPasses(commands: set<string>, builtins: Table, user: Table, done: set<string>, n: string, command: string)
    requires IsBuiltinTable(builtins) && {"pr", "label", "milestone", "auth"} <= commands
    requires Acyclic(builtins + user) && Closed(commands, builtins + user) && (builtins + user).Keys !! commands
    requires n in user && command in commands && Words(command) == Ok([command])
    requires Edge(builtins + user, n).Some? && Edge(builtins + user, n).value !in done
    ensures CycleFrom((builtins + Midway(user, done, command))[n := user[n]], [n]).None?
  {
    var t, c := builtins + user, (builtins + Midway(user, done, command))[n := user[n]];
    var h := Edge(t, n).value;
    assert c.Keys == t.Keys;
    assert Edge(c, n) == Some(h);
    if h !in t {
      WalkOfOne(c, n, h);
    } else {
      WalkIsNew(t, [n, h]);
      assert h != n;
      if h in user {
        assert c[h] == command;
        WalkOfTwo(c, n, h, command);
      } else {
        BuiltinEdge(builtins, h);
        assert c[h] == builtins[h];
        assert Edge(c, h) == Edge(builtins, h);
        WalkOfTwo(c, n, h, Edge(builtins, h).value);
      }
    }
  }

  lemma RedirectAccepted(commands: set<string>, user: Table, done: set<string>, n: string, command: string)
    requires Sensible(commands) && Sound(commands, user) && n in user
    requires command in commands && Words(command) == Ok([command])
    requires Edge(WithBuiltins(user), n).Some? ==> Edge(WithBuiltins(user), n).value !in done
    ensures Problem(commands, Midway(user, done, command), n, user[n]).None?
  {
    BuiltinTable();
    MergedAvoidsCommands(commands, user);
    HeadIsKnown(commands, BuiltinsUpTo(|BUILTIN|), user, done, n, command);
    RedirectPasses(commands, BuiltinsUpTo(|BUILTIN|), user, done, n, command);
    NoProblem(commands, Midway(user, done, command), n, user[n]);
  }

  lemma HeadIsKnown(commands: set<string>, builtins: Table, user: Table, done: set<string>, n: string, command: string)
    requires Closed(commands, builtins + user) && n in user
    ensures Edge(builtins + user, n).Some? && Words(user[n]).Ok? && Words(user[n]).value != []
    ensures Edge(builtins + user, n).value == Words(user[n]).value[0]
    ensures var head := Words(user[n]).value[0]; head in commands || head in builtins + Midway(user, done, command)
  {
    assert (builtins + user)[n] == user[n];
    assert (builtins + user).Keys == (builtins + Midway(user, done, command)).Keys;
  }

  /** Any name that passes the checks can stand for a command. */
  lemma FlatAccepted(commands: set<string>, user: Table, n: string, command: string)
    requires Sensible(commands) && user.Keys !! commands && WellSet(commands, n, command)
    requires command in commands && Words(command) == Ok([command])
    ensures Problem(commands, user, n, command).None?
  {
    MergedAvoidsCommands(commands, user);
    var c := Candidate(user, n, command);
    assert command !in c && Edge(c, n) == Some(command);
    WalkOfOne(c, n, command);
    NoProblem(commands, user, n, command);
  }

  // ------------------------------------------------------------------------- the run

  /** A name and what to set it to. */
  type Step = (string, string)

  function TableAfter(steps: seq<Step>): Table {
    if steps == [] then map[] else TableAfter(steps[..|steps| - 1])[steps[|steps| - 1].0 := steps[|steps| - 1].1]
  }

  ghost predicate Passes(commands: set<string>, user: Table, s: Step) {
    Trim(s.0) == s.0 && Trim(s.1) == s.1 && Problem(commands, user, s.0, s.1).None?
  }

  /** What a step must pass, given the table so far. */
  type Test = (Table, Step) -> bool

  ghost function Passing(commands: set<string>): Test {
    (user, s) => Passes(commands, user, s)
  }

  /** Step `i` passes where the ones before it have led. */
  predicate PassesAt(ok: Test, steps: seq<Step>, i: nat) {
    i < |steps| && ok(TableAfter(steps[..i]), steps[i])
  }

  predicate AllPass(ok: Test, steps: seq<Step>) {
    forall i: nat :: i < |steps| ==> PassesAt(ok, steps, i)
  }

  function Sets(steps: seq<Step>): seq<Change> {
    seq(|steps|, i requires 0 <= i < |steps| => SetAlias(steps[i].0, steps[i].1))
  }

  /** A run of sets of which none is refused, and that ends in `user`. */
  ghost predicate Builds(commands: set<string>, run: seq<Change>, user: Table) {
    OnlySets(run) && AllAccepted(commands, run) && AfterAll(commands, map[], run) == user
  }

  lemma PassIsStored(commands: set<string>, user: Table, s: Step)
    requires Passes(commands, user, s)
    ensures Accepted(commands, user, SetAlias(s.0, s.1))
    ensures AliasTable.After(commands, user, SetAlias(s.0, s.1)) == user[s.0 := s.1]
  {
  }

  lemma OneSetMore(commands: set<string>, run: seq<Change>, user: Table, c: Change, after: Table)
    requires Builds(commands, run, user) && Accepted(commands, user, c) && AliasTable.After(commands, user, c) == after
    ensures Builds(commands, run + [c], after)
  {
    var more := run + [c];
    assert more[..|run|] == run;
    forall i | 0 <= i < |more| ensures Accepted(commands, AfterAll(commands, map[], more[..i]), more[i]) {
      assert more[..i] == run[..i];
      assert i == |run| || Accepted(commands, AfterAll(commands, map[], run[..i]), run[i]);
    }
  }

  lemma {:induction false} PassingStepsBuild(commands: set<string>, steps: seq<Step>)
    requires AllPass(Passing(commands), steps)
    ensures Builds(commands, Sets(steps), TableAfter(steps))
  {
    if steps != [] {
      var init, last := steps[..|steps| - 1], steps[|steps| - 1];
      AllPassInit(Passing(commands), steps);
      PassingStepsBuild(commands, init);
      PassIsStored(commands, TableAfter(init), last);
      OneSetMore(commands, Sets(init), TableAfter(init), SetAlias(last.0, last.1), TableAfter(steps));
      assert Sets(steps) == Sets(init) + [SetAlias(last.0, last.1)];
    }
  }

  lemma AllPassInit(ok: Test, steps: seq<Step>)
    requires steps != [] && AllPass(ok, steps)
    ensures AllPass(ok, steps[..|steps| - 1]) && ok(TableAfter(steps[..|steps| - 1]), steps[|steps| - 1])
  {
    var init := steps[..|steps| - 1];
    forall i: nat | i < |init| ensures PassesAt(ok, init, i) {
      assert PassesAt(ok, steps, i) && init[..i] == steps[..i];
    }
    assert PassesAt(ok, steps, |steps| - 1);
  }

  /** The names of `order` standing for `command`. */
  function Flat(order: seq<string>, command: string): Table {
    map n | n in order :: command
  }

  function FlatSteps(order: seq<string>, command: string): seq<Step> {
    seq(|order|, i requires 0 <= i < |order| => (order[i], command))
  }

  function FinalSteps(order: seq<string>, user: Table): seq<Step>
    requires forall n :: n in order ==> n in user
  {
    seq(|order|, i requires 0 <= i < |order| => (order[i], user[order[i]]))
  }

  lemma {:induction false} AfterFlat(order: seq<string>, command: string)
    ensures TableAfter(FlatSteps(order, command)) == Flat(order, command)
  {
    if order != [] {
      var init, last := order[..|order| - 1], order[|order| - 1];
      AfterFlat(init, command);
      assert order == init + [last];
      assert FlatSteps(order, command)[..|init|] == FlatSteps(init, command);
      assert Flat(order, command) == Flat(init, command)[last := command];
    }
  }

  lemma {:induction false} AfterFinal(order: seq<string>, k: nat, user: Table, command: string)
    requires k <= |order| && forall n :: n in order <==> n in user
    ensures TableAfter(FlatSteps(order, command) + FinalSteps(order, user)[..k]) == Midway(user, Range(order[..k]), command)
  {
    var flat, final := FlatSteps(order, command), FinalSteps(order, user);
    if k == 0 {
      AfterFlat(order, command);
      assert flat + final[..0] == flat;
      assert Range(order[..0]) == {};
    } else {
      AfterFinal(order, k - 1, user, command);
      var steps := flat + final[..k];
      assert steps[..|steps| - 1] == flat + final[..k - 1] && steps[|steps| - 1] == final[k - 1];
      assert order[..k] == order[..k - 1] + [order[k - 1]];
      assert Range(order[..k]) == Range(order[..k - 1]) + {order[k - 1]};
    }
  }

  lemma NotYetTarget(t: Table, names: set<string>, order: seq<string>, k: nat)
    requires TargetsLast(t, names, order) && k < |order|
    ensures Edge(t, order[k]).Some? ==> Edge(t, order[k]).value !in Range(order[..k])
  {
    forall i | 0 <= i < k ensures Edge(t, order[k]) != Some(order[..k][i]) {
      assert order[..k][i] == order[i];
    }
  }

  lemma FlatStepPasses(commands: set<string>, order: seq<string>, i: nat, command: string)
    requires Sensible(commands) && i < |order| && forall n :: n in order ==> WellSet(commands, n, command)
    requires command in commands && Words(command) == Ok([command])
    ensures PassesAt(Passing(commands), FlatSteps(order, command), i)
  {
    assert FlatSteps(order, command)[..i] == FlatSteps(order[..i], command);
    AfterFlat(order[..i], command);
    forall n | n in order[..i] ensures n !in commands {
      assert WellSet(commands, n, command);
    }
    FlatAccepted(commands, Flat(order[..i], command), order[i], command);
  }

  lemma FinalStepPasses(commands: set<string>, user: Table, order: seq<string>, k: nat, command: string)
    requires Sensible(commands) && Sound(commands, user) && TargetsLast(WithBuiltins(user), user.Keys, order) && k < |order|
    requires command in commands && Words(command) == Ok([command])
    ensures Passing(commands)(TableAfter(FlatSteps(order, command) + FinalSteps(order, user)[..k]), FinalSteps(order, user)[k])
  {
    AfterFinal(order, k, user, command);
    NotYetTarget(WithBuiltins(user), user.Keys, order, k);
    assert WellSet(commands, order[k], user[order[k]]);
    RedirectAccepted(commands, user, Range(order[..k]), order[k], command);
  }

  lemma BothPartsPass(ok: Test, a: seq<Step>, b: seq<Step>)
    requires AllPass(ok, a)
    requires forall i: nat :: i < |b| ==> ok(TableAfter(a + b[..i]), b[i])
    ensures AllPass(ok, a + b)
  {
    forall i: nat | i < |a + b| ensures PassesAt(ok, a + b, i) {
      if i < |a| {
        assert PassesAt(ok, a, i) && (a + b)[..i] == a[..i];
      } else {
        assert (a + b)[..i] == a + b[..i - |a|];
      }
    }
  }

  lemma FlatStepsPass(commands: set<string>, order: seq<string>, command: string)
    requires Sensible(commands) && forall n :: n in order ==> WellSet(commands, n, command)
    requires command in commands && Words(command) == Ok([command])
    ensures AllPass(Passing(commands), FlatSteps(order, command))
  {
    forall i: nat | i < |order| ensures PassesAt(Passing(commands), FlatSteps(order, command), i) {
      FlatStepPasses(commands, order, i, command);
    }
  }

  lemma AllStepsPass(commands: set<string>, user: Table, order: seq<string>, command: string)
    requires Sensible(commands) && Sound(commands, user) && TargetsLast(WithBuiltins(user), user.Keys, order)
    requires command in commands && Words(command) == Ok([command])
    requires AllPass(Passing(commands), FlatSteps(order, command))
    ensures AllPass(Passing(commands), FlatSteps(order, command) + FinalSteps(order, user))
  {
    var flat, final := FlatSteps(order, command), FinalSteps(order, user);
    forall i: nat | i < |order| ensures Passing(commands)(TableAfter(flat + final[..i]), final[i]) {
      FinalStepPasses(commands, user, order, i, command);
    }
    BothPartsPass(Passing(commands), flat, final);
  }

  /** First every name for a command, then each for what it is to be, targets last. */
  lemma SoundIsBuilt(commands: set<string>, user: Table, command: string) returns (run: seq<Change>)
    requires Sensible(commands) && Sound(commands, user)
    requires command in commands && PlainWord(command) && !StartsWithDash(command)
    ensures Builds(commands, run, user)
  {
    var order := TargetsCanComeLast(WithBuiltins(user), user.Keys);
    WordOf(command);
    NamesCanBeFlat(commands, user, command);
    FlatStepsPass(commands, order, command);
    AllStepsPass(commands, user, order, command);
    PassingStepsBuild(commands, FlatSteps(order, command) + FinalSteps(order, user));
    AllDone(order, user, command);
    run := Sets(FlatSteps(order, command) + FinalSteps(order, user));
  }

  lemma NamesCanBeFlat(commands: set<string>, user: Table, command: string)
    requires AllWellSet(commands, user) && PlainWord(command) && !StartsWithDash(command)
    ensures forall n :: n in user ==> WellSet(commands, n, command)
  {
    WordOf(command);
    PlainIsTrimmed(command);
    forall n | n in user ensures WellSet(commands, n, command) {
      assert WellSet(commands, n, user[n]);
    }
  }

  lemma AllDone(order: seq<string>, user: Table, command: string)
    requires forall n :: n in order <==> n in user
    ensures TableAfter(FlatSteps(order, command) + FinalSteps(order, user)) == user
  {
    AfterFinal(order, |order|, user, command);
    assert order[..|order|] == order && FinalSteps(order, user)[..|order|] == FinalSteps(order, user);
    assert Midway(user, Range(order), command) == user;
  }

  lemma {:induction false} TrimEndKeeps(w: string)
    requires w == "" || !IsSpace(w[|w| - 1])
    ensures TrimEnd(w) == w
  {
  }

  lemma PlainIsTrimmed(w: string)
    requires PlainWord(w)
    ensures Trim(w) == w
  {
    TrimEndKeeps(w);
  }

  ghost predicate Reachable(commands: set<string>, user: Table) {
    exists run :: Reaches(commands, run, user)
  }

  ghost predicate Reaches(commands: set<string>, run: seq<Change>, user: Table) {
    OnlySets(run) && AfterAll(commands, map[], run) == user
  }

  /**
   The tables that some run of `alias set` builds from nothing are exactly those without cycles and
   dangling aliases whose entries are trimmed, under names that pass `check_name` and with no flag
   in front.
   */
  lemma ReachableExactly(commands: set<string>, user: Table)
    requires Sensible(commands)
    ensures Reachable(commands, user) <==> Sound(commands, user)
  {
    if run :| Reaches(commands, run, user) {
      RunKeepsSound(commands, run);
    }
    if Sound(commands, user) {
      SoundIsReachable(commands, user);
    }
  }

  lemma SoundIsReachable(commands: set<string>, user: Table)
    requires Sensible(commands) && Sound(commands, user)
    ensures Reachable(commands, user)
  {
    assert PlainWord("pr");
    var run := SoundIsBuilt(commands, user, "pr");
    assert Reaches(commands, run, user);
  }
}
