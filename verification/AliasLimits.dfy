/**
 What a stored alias is good for at run time: which tables lead every alias to a real command,
 which changes keep them so, and what every call then comes to.
 */
module AliasLimits {
  import opened Wrappers
  import opened Sequences
  import opened Text
  import opened AliasSubstitute
  import opened AliasExpand
  import opened AliasGraph
  import opened AliasDepth
  import opened AliasTable

  /** Every alias points at a command or at another alias. */
  ghost predicate Closed(commands: set<string>, t: Table) {
    forall a :: a in t ==> Edge(t, a).Some? && (Edge(t, a).value in commands || Edge(t, a).value in t)
  }

  /** `set` and `import` store nothing that would dangle. */
  lemma StoreKeepsClosed(commands: set<string>, user: Table, name: string, expansion: string)
    requires Closed(commands, WithBuiltins(user)) && Problem(commands, user, name, expansion).None?
    ensures Closed(commands, WithBuiltins(user[name := expansion]))
  {
    StoredOverBuiltins(user, name, expansion);
    UpdateKeepsClosed(commands, WithBuiltins(user), name, expansion);
  }

  lemma UpdateKeepsClosed(commands: set<string>, t: Table, name: string, expansion: string)
    requires Closed(commands, t)
    requires var head := Edge(t[name := expansion], name);
             head.Some? && (head.value in commands || head.value in t || head.value == name)
    ensures Closed(commands, t[name := expansion])
  {
    var after := t[name := expansion];
    forall a | a in after
      ensures Edge(after, a).Some? && (Edge(after, a).value in commands || Edge(after, a).value in after)
    {
      if a != name {
        assert a in t && Edge(after, a) == Edge(t, a);
      }
    }
  }

  /** A delete leaves something dangling exactly when another alias points at a name that is gone. */
  lemma DeleteKeepsClosedExactly(commands: set<string>, user: Table, name: string)
    requires Closed(commands, WithBuiltins(user)) && Sensible(commands) && user.Keys !! commands
    ensures Closed(commands, WithBuiltins(user - {name})) <==>
            || name !in user
            || name in BuiltinsUpTo(|BUILTIN|)
            || forall b :: b in WithBuiltins(user) && b != name ==> Edge(WithBuiltins(user), b) != Some(name)
  {
    BuiltinTable();
    var builtins := BuiltinsUpTo(|BUILTIN|);
    forall b | b in builtins ensures PointsAtCommand(commands, builtins, b) {
      BuiltinEdge(builtins, b);
    }
    RemovalKeepsClosedExactly(commands, builtins, user, name);
  }

  ghost predicate PointsAtCommand(commands: set<string>, t: Table, a: string) {
    Edge(t, a).Some? && Edge(t, a).value in commands
  }

  lemma RemovalKeepsClosedExactly(commands: set<string>, builtins: Table, user: Table, name: string)
    requires forall b :: b in builtins ==> PointsAtCommand(commands, builtins, b)
    requires Closed(commands, builtins + user) && user.Keys !! commands
    ensures Closed(commands, builtins + (user - {name})) <==>
            || name !in user
            || name in builtins
            || forall b :: b in builtins + user && b != name ==> Edge(builtins + user, b) != Some(name)
  {
    var t, after := builtins + user, builtins + (user - {name});
    if name !in user {
      assert after == t;
    } else if name in builtins {
      assert after == t[name := builtins[name]];
      assert PointsAtCommand(commands, builtins, name) && Edge(after, name) == Edge(builtins, name);
      UpdateKeepsClosed(commands, t, name, builtins[name]);
    } else {
      assert after == t - {name};
      GoneExactly(commands, t, name);
    }
  }

  lemma GoneExactly(commands: set<string>, t: Table, name: string)
    requires Closed(commands, t) && name in t && name !in commands
    ensures Closed(commands, t - {name}) <==> forall b :: b in t && b != name ==> Edge(t, b) != Some(name)
  {
    var after := t - {name};
    assert forall b :: b != name ==> Edge(after, b) == Edge(t, b);
    forall b | b in t && b != name && Edge(t, b) == Some(name) ensures !Closed(commands, after) {
      assert b in after && Edge(after, b) == Some(name);
    }
  }

  /** On an acyclic closed table every alias leads to a command, over at most as many hops as there are aliases. */
  lemma ClosedLeadsToCommand(commands: set<string>, t: Table, p: seq<string>) returns (all: seq<string>)
    requires Acyclic(t) && Closed(commands, t) && t.Keys !! commands
    requires IsWalk(t, p) && p[0] in t && Distinct(p) && forall i :: 0 <= i < |p| - 1 ==> p[i] in t
    requires p[|p| - 1] in t || p[|p| - 1] in commands
    ensures SettlesVia(t, p[0], all) && |all| <= |t| + 1 && all[|all| - 1] in commands
    decreases |t| + 1 - |p|
  {
    DistinctFits(p[..|p| - 1], t.Keys);
    var last := p[|p| - 1];
    if last in commands {
      all := p;
    } else {
      var next := Edge(t, last).value;
      DistinctFits(p, t.Keys);
      LongerWalk(t, p, next);
      all := ClosedLeadsToCommand(commands, t, p + [next]);
    }
  }

  lemma LongerWalk(t: Table, p: seq<string>, next: string)
    requires Acyclic(t) && IsWalk(t, p) && Distinct(p) && Edge(t, p[|p| - 1]) == Some(next)
    ensures IsWalk(t, p + [next]) && Distinct(p + [next])
  {
    var longer := p + [next];
    assert IsWalk(t, longer);
    WalkIsNew(t, longer);
    assert longer[..|longer| - 1] == p;
  }

  /**
   On an acyclic closed table with plain first words a call comes to one of three things, and the
   walk `p` of its alias and the number of its arguments say to which: an argument is missing, it is
   too deep, or it is the command at the end of the walk.
   */
  lemma CheckedAliasRuns(commands: set<string>, t: Table, c: Call) returns (p: seq<string>)
    requires Acyclic(t) && PlainHeads(t) && Closed(commands, t) && t.Keys !! commands
    requires c.head in t
    ensures SettlesVia(t, c.head, p) && |p| <= |t| + 1 && p[|p| - 1] in commands
    ensures var r := Expansion(t, [], c);
            var short := RunsShort(t, c.head, |c.args|, Hops(p, MAX_DEPTH));
            && (r.Err? && r.error.TooFewArguments? <==> short)
            && (r == Err(TooDeep) <==> !short && |p| > MAX_DEPTH)
            && (r.Ok? <==> !short && |p| <= MAX_DEPTH)
            && (r.Ok? ==> r.value != [] && r.value[0] == p[|p| - 1])
  {
    p := ClosedLeadsToCommand(commands, t, [c.head]);
    CallOutcome(t, c, p);
  }

  // ------------------------------------------------------------------ closed over runs

  /** What a delete must not do: take a name that is no built-in's away from under another alias. */
  ghost predicate Harmless(user: Table, c: Change) {
    c.DeleteAlias? ==>
      var name := Trim(c.name);
      || name !in user
      || name in BuiltinsUpTo(|BUILTIN|)
      || forall b :: b in WithBuiltins(user) && b != name ==> Edge(WithBuiltins(user), b) != Some(name)
  }

  lemma {:induction false} ImportKeepsClosed(commands: set<string>, user: Table, entries: seq<(string, string)>, clobber: bool)
    requires Closed(commands, WithBuiltins(user))
    ensures Closed(commands, WithBuiltins(AfterImport(commands, user, entries, clobber)))
    decreases |entries|
  {
    if entries != [] {
      var n := |entries| - 1;
      ImportKeepsClosed(commands, user, entries[..n], clobber);
      var before := AfterImport(commands, user, entries[..n], clobber);
      if Problem(commands, before, entries[n].0, entries[n].1).None? {
        StoreKeepsClosed(commands, before, entries[n].0, entries[n].1);
      }
    }
  }

  /** Set and import always keep a table closed, and a delete does exactly when it is harmless. */
  lemma ChangeKeepsClosedExactly(commands: set<string>, user: Table, c: Change)
    requires Sensible(commands) && Closed(commands, WithBuiltins(user)) && user.Keys !! commands
    ensures Closed(commands, WithBuiltins(AliasTable.After(commands, user, c))) <==> Harmless(user, c)
  {
    match c
    case SetAlias(name, expansion) =>
      if Problem(commands, user, Trim(name), Trim(expansion)).None? {
        StoreKeepsClosed(commands, user, Trim(name), Trim(expansion));
      }
    case DeleteAlias(name) => DeleteKeepsClosedExactly(commands, user, Trim(name));
    case ImportAliases(entries, clobber) => ImportKeepsClosed(commands, user, entries, clobber);
  }

  ghost predicate AllHarmless(commands: set<string>, user: Table, run: seq<Change>) {
    forall i :: 0 <= i < |run| ==> Harmless(AfterAll(commands, user, run[..i]), run[i])
  }

  lemma {:induction false} RunKeepsClosed(commands: set<string>, user: Table, run: seq<Change>)
    requires Sensible(commands) && Safe(commands, user) && Closed(commands, WithBuiltins(user))
    requires AllHarmless(commands, user, run)
    ensures Closed(commands, WithBuiltins(AfterAll(commands, user, run)))
    decreases |run|
  {
    if run != [] {
      var n := |run| - 1;
      forall i | 0 <= i < n ensures Harmless(AfterAll(commands, user, run[..n][..i]), run[..n][i]) {
        assert run[..n][..i] == run[..i];
        assert Harmless(AfterAll(commands, user, run[..i]), run[i]);
      }
      RunKeepsClosed(commands, user, run[..n]);
      RunKeepsSafe(commands, user, run[..n]);
      assert Harmless(AfterAll(commands, user, run[..n]), run[n]);
      ChangeKeepsClosedExactly(commands, AfterAll(commands, user, run[..n]), run[n]);
    }
  }

  /** A fresh configuration is closed: the built-ins point at commands. */
  lemma EmptyIsClosed(commands: set<string>)
    requires Sensible(commands)
    ensures Closed(commands, WithBuiltins(map[]))
  {
    var t := WithBuiltins(map[]);
    assert t == BuiltinsUpTo(|BUILTIN|);
    BuiltinTable();
    forall a | a in t ensures Edge(t, a).Some? && Edge(t, a).value in commands {
      BuiltinEdge(t, a);
    }
  }

  /**
   After any run of set, import and harmless delete, starting from nothing and storing plain names,
   every call of every alias comes to one of the three outcomes of `CheckedAliasRuns`.
   */
  lemma RunAliasesRun(commands: set<string>, run: seq<Change>, c: Call) returns (p: seq<string>)
    requires Sensible(commands) && (forall w :: w in commands ==> NoRefs(w))
    requires AllHarmless(commands, map[], run) && forall i :: 0 <= i < |run| ==> NamesPlainly(run[i])
    requires c.head in WithBuiltins(AfterAll(commands, map[], run))
    ensures var t := WithBuiltins(AfterAll(commands, map[], run));
            && SettlesVia(t, c.head, p) && p[|p| - 1] in commands
            && ComesTo(t, Expansion(t, [], c), p, |c.args|, MAX_DEPTH)
  {
    EmptyIsSafe(commands);
    EmptyIsClosed(commands);
    RunKeepsSafe(commands, map[], run);
    RunKeepsPlain(commands, map[], run);
    RunKeepsClosed(commands, map[], run);
    var user := AfterAll(commands, map[], run);
    MergedAvoidsCommands(commands, user);
    p := CheckedAliasRuns(commands, WithBuiltins(user), c);
    CallOutcome(WithBuiltins(user), c, p);
  }

  lemma MergedAvoidsCommands(commands: set<string>, user: Table)
    requires Sensible(commands) && user.Keys !! commands
    ensures WithBuiltins(user).Keys !! commands
  {
    BuiltinTable();
  }
}
