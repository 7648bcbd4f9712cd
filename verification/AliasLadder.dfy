/**
 Chains of aliases, each for the next. Any can be stored; one put together from its end is checked to
 the end and stops at ten; and from ten on none can be expanded.
 */
module AliasLadder {
  import opened Wrappers
  import opened Text
  import opened AliasSplit
  import opened AliasSubstitute
  import opened AliasExpand
  import opened AliasGraph
  import opened AliasDepth
  import opened AliasTable
  import opened AliasLimits
  import opened AliasReach

  /** A name any alias can have, and that can be pointed at. */
  predicate Usable(w: string) {
    PlainWord(w) && !StartsWithDash(w) && forall p :: 0 <= p < |w| ==> !IsRef(w, p)
  }

  predicate Rungs(commands: set<string>, names: seq<string>, command: string) {
    && Usable(command) && command in commands
    && (forall i :: 0 <= i < |names| ==> Usable(names[i]) && names[i] !in commands)
    && (forall i, j :: 0 <= i < j < |names| ==> names[i] != names[j])
  }

  /** What the alias in front of `names` points at. */
  function First(names: seq<string>, command: string): string {
    if names == [] then command else names[0]
  }

  /** Every name points at the next, and the last at `command`. */
  function Ladder(names: seq<string>, command: string): Table {
    if names == [] then map[] else Ladder(names[1..], command)[names[0] := First(names[1..], command)]
  }

  /** The commands that set it up, from the last name to the first. */
  function LadderRun(names: seq<string>, command: string): seq<Change> {
    if names == [] then []
    else LadderRun(names[1..], command) + [SetAlias(names[0], First(names[1..], command))]
  }

  lemma {:induction false} LadderEntries(commands: set<string>, names: seq<string>, command: string)
    requires Rungs(commands, names, command)
    ensures forall a :: a in Ladder(names, command) <==> a in names
    ensures forall i :: 0 <= i < |names| ==> Ladder(names, command)[names[i]] == (names + [command])[i + 1]
  {
    if names != [] {
      LadderEntries(commands, names[1..], command);
      var t, rest := Ladder(names, command), Ladder(names[1..], command);
      forall i | 0 <= i < |names| ensures t[names[i]] == (names + [command])[i + 1] {
        if i > 0 {
          assert names[1..][i - 1] == names[i] && names[i] != names[0];
          assert (names[1..] + [command])[i] == (names + [command])[i + 1];
        }
      }
    }
  }

  lemma LadderWalk(commands: set<string>, builtins: Table, names: seq<string>, command: string)
    requires Rungs(commands, names, command) && builtins.Keys !! commands
    ensures SettlesVia(builtins + Ladder(names, command), First(names, command), names + [command])
    ensures forall i :: 0 <= i < |names| ==>
              SoleStep(builtins + Ladder(names, command), names[i], (names + [command])[i + 1])
  {
    var ladder, p := Ladder(names, command), names + [command];
    var t := builtins + ladder;
    LadderEntries(commands, names, command);
    forall i | 0 <= i < |names| ensures SoleStep(t, names[i], p[i + 1]) {
      assert names[i] in names && names[i] in ladder;
      assert p[i + 1] == if i + 1 < |names| then names[i + 1] else command;
      WordOf(p[i + 1]);
    }
    assert command !in t;
    StepsAreWalk(t, p);
  }

  /** Alias `a` stands for the one plain word `b`. */
  ghost predicate SoleStep(t: Table, a: string, b: string) {
    a in t && Words(t[a]) == Ok([b]) && NoRefs(b)
  }

  lemma StepsAreWalk(t: Table, p: seq<string>)
    requires p != [] && (forall i :: 0 <= i < |p| - 1 ==> SoleStep(t, p[i], p[i + 1])) && p[|p| - 1] !in t
    ensures SettlesVia(t, p[0], p)
  {
    assert forall i :: 0 <= i < |p| - 1 ==> SoleStep(t, p[i], p[i + 1]) && Edge(t, p[i]) == Some(p[i + 1]);
  }

  lemma UsableIsTrimmed(w: string)
    requires Usable(w)
    ensures Trim(w) == w
  {
    PlainIsTrimmed(w);
  }

  /** One more alias in front of a ladder is accepted exactly when there are no more than `MAX_DEPTH` then. */
  lemma RungAccepted(commands: set<string>, names: seq<string>, command: string)
    requires Sensible(commands) && names != [] && Rungs(commands, names, command)
    ensures var problem := Problem(commands, Ladder(names[1..], command), names[0], First(names[1..], command));
            if |names| <= MAX_DEPTH then problem.None? else problem.Some? && problem.value.Cycle?
  {
    var user, next := Ladder(names[1..], command), First(names[1..], command);
    LadderEntries(commands, names[1..], command);
    assert next in commands || next in user;
    assert Usable(names[0]) && Usable(next);
    PlainStore(commands, user, names[0], next);
    RungWalk(commands, names, command);
    CycleFromWalk(Candidate(user, names[0], next), names[0], names + [command]);
  }

  lemma RungWalk(commands: set<string>, names: seq<string>, command: string)
    requires Sensible(commands) && names != [] && Rungs(commands, names, command)
    ensures SettlesVia(Candidate(Ladder(names[1..], command), names[0], First(names[1..], command)),
                       names[0], names + [command])
  {
    BuiltinTable();
    LadderWalk(commands, BuiltinsUpTo(|BUILTIN|), names, command);
    StoredOverBuiltins(Ladder(names[1..], command), names[0], First(names[1..], command));
  }

  /** Setting the aliases of a ladder one after the other builds it, every one of them accepted. */
  lemma {:induction false} LadderIsBuilt(commands: set<string>, names: seq<string>, command: string)
    requires Sensible(commands) && Rungs(commands, names, command) && |names| <= MAX_DEPTH
    ensures AfterAll(commands, map[], LadderRun(names, command)) == Ladder(names, command)
  {
    if names != [] {
      LadderIsBuilt(commands, names[1..], command);
      RungAccepted(commands, names, command);
      var rest, change := LadderRun(names[1..], command), SetAlias(names[0], First(names[1..], command));
      UsableIsTrimmed(names[0]);
      UsableIsTrimmed(change.expansion);
      assert (rest + [change])[..|rest|] == rest;
    }
  }

  /** Aliases of a single plain word never lack an argument. */
  lemma {:induction false} LadderNeverShort(t: Table, p: seq<string>, n: nat, hops: nat)
    requires p != [] && SettlesVia(t, p[0], p)
    requires forall i :: 0 <= i < |p| - 1 ==> SoleStep(t, p[i], p[i + 1])
    ensures !RunsShort(t, p[0], n, hops)
    decreases hops
  {
    if hops > 0 && |p| > 1 {
      assert SoleStep(t, p[0], p[1]);
      SuffixIsWalk(t, p, 1);
      forall i | 0 <= i < |p[1..]| - 1 ensures SoleStep(t, p[1..][i], p[1..][i + 1]) {
        assert SoleStep(t, p[i + 1], p[i + 2]);
      }
      LadderNeverShort(t, p[1..], ArgsAfter([p[1]], n), hops - 1);
    }
  }

  /**
   Any ten aliases, each for the next and the last for a command, can be set one after the other,
   and the first can then never be expanded, whatever its arguments.
   */
  lemma TenAliasesAcceptedButTooDeep(commands: set<string>, names: seq<string>, command: string, args: seq<string>)
    requires Sensible(commands) && (forall w :: w in commands ==> NoRefs(w))
    requires Rungs(commands, names, command) && |names| == MAX_DEPTH
    ensures var user := AfterAll(commands, map[], LadderRun(names, command));
            && (forall a :: a in names ==> a in user)
            && Expansion(WithBuiltins(user), [], Call(names[0], args)) == Err(TooDeep)
  {
    LadderIsBuilt(commands, names, command);
    LadderEntries(commands, names, command);
    LadderHeadsArePlain(commands, names, command);
    BuiltinTable();
    LadderTooDeep(commands, BuiltinsUpTo(|BUILTIN|), names, command, args);
  }

  lemma LadderTooDeep(commands: set<string>, builtins: Table, names: seq<string>, command: string, args: seq<string>)
    requires Rungs(commands, names, command) && |names| >= MAX_DEPTH && builtins.Keys !! commands
    requires PlainHeads(builtins + Ladder(names, command))
    ensures Expansion(builtins + Ladder(names, command), [], Call(names[0], args)) == Err(TooDeep)
  {
    var t, p := builtins + Ladder(names, command), names + [command];
    LadderWalk(commands, builtins, names, command);
    LadderNeverShort(t, p, |args|, MAX_DEPTH);
    CallOutcome(t, Call(names[0], args), p);
  }

  lemma LadderHeadsArePlain(commands: set<string>, names: seq<string>, command: string)
    requires Sensible(commands) && Rungs(commands, names, command)
    requires forall w :: w in commands ==> NoRefs(w)
    ensures PlainHeads(WithBuiltins(Ladder(names, command)))
  {
    BuiltinTable();
    var builtins := BuiltinsUpTo(|BUILTIN|);
    BuiltinHeadsArePlain(commands, builtins);
    LadderWalk(commands, builtins, names, command);
    LadderEntries(commands, names, command);
    OverPlainHeads(builtins, Ladder(names, command), names, command);
  }

  lemma OverPlainHeads(builtins: Table, ladder: Table, names: seq<string>, command: string)
    requires PlainHeads(builtins) && forall a :: a in ladder <==> a in names
    requires forall i :: 0 <= i < |names| ==> SoleStep(builtins + ladder, names[i], (names + [command])[i + 1])
    ensures PlainHeads(builtins + ladder)
  {
    var t := builtins + ladder;
    forall a | Edge(t, a).Some? ensures NoRefs(Edge(t, a).value) {
      if a in ladder {
        var i :| 0 <= i < |names| && names[i] == a;
        assert SoleStep(t, names[i], (names + [command])[i + 1]);
      } else {
        assert Edge(t, a) == Edge(builtins, a);
      }
    }
  }

  // -------------------------------------------------------------------- of any length

  lemma {:induction false} LadderIsSafe(commands: set<string>, names: seq<string>, command: string)
    requires Sensible(commands) && Rungs(commands, names, command)
    ensures Safe(commands, Ladder(names, command))
  {
    LadderEntries(commands, names, command);
    if names == [] {
      BuiltinsAreSafe(commands);
    } else {
      var rest, next := Ladder(names[1..], command), First(names[1..], command);
      LadderIsSafe(commands, names[1..], command);
      RungWalk(commands, names, command);
      UpdateKeepsAcyclic(WithBuiltins(rest), names[0], next, names + [command]);
      StoredOverBuiltins(rest, names[0], next);
    }
  }

  lemma {:induction false} LadderIsClosed(commands: set<string>, names: seq<string>, command: string)
    requires Sensible(commands) && Rungs(commands, names, command)
    ensures Closed(commands, WithBuiltins(Ladder(names, command)))
  {
    if names == [] {
      EmptyIsClosed(commands);
    } else {
      var rest, next := Ladder(names[1..], command), First(names[1..], command);
      LadderIsClosed(commands, names[1..], command);
      LadderEntries(commands, names[1..], command);
      assert Usable(next);
      WordOf(next);
      StoredOverBuiltins(rest, names[0], next);
      KnownNextIsClosed(commands, WithBuiltins(rest), names[0], next);
    }
  }

  lemma KnownNextIsClosed(commands: set<string>, t: Table, name: string, next: string)
    requires Closed(commands, t) && Words(next) == Ok([next]) && (next in commands || next in t)
    ensures Closed(commands, t[name := next])
  {
    assert Edge(t[name := next], name) == Some(next);
    UpdateKeepsClosed(commands, t, name, next);
  }

  lemma LadderIsWellSet(commands: set<string>, names: seq<string>, command: string)
    requires Rungs(commands, names, command)
    ensures AllWellSet(commands, Ladder(names, command))
  {
    LadderEntries(commands, names, command);
    forall n | n in Ladder(names, command) ensures WellSet(commands, n, Ladder(names, command)[n]) {
      var i :| 0 <= i < |names| && names[i] == n;
      var next := (names + [command])[i + 1];
      assert Usable(next) && Usable(n);
      WordOf(n);
      WordOf(next);
      UsableIsTrimmed(n);
      UsableIsTrimmed(next);
    }
  }

  /**
   A chain of aliases of any length can be stored, every `set` on the way accepted: the check never
   sees more of it than lies in front of the name being set.
   */
  lemma AnyChainIsStored(commands: set<string>, names: seq<string>, command: string) returns (run: seq<Change>)
    requires Sensible(commands) && Rungs(commands, names, command)
    ensures Builds(commands, run, Ladder(names, command))
  {
    LadderIsSafe(commands, names, command);
    LadderIsClosed(commands, names, command);
    LadderIsWellSet(commands, names, command);
    run := SoundIsBuilt(commands, Ladder(names, command), command);
  }

  /** From ten aliases on it is stored in vain: no call of the first can be expanded, whatever the arguments. */
  lemma LongChainsAreTooDeep(commands: set<string>, names: seq<string>, command: string, args: seq<string>)
    requires Sensible(commands) && (forall w :: w in commands ==> NoRefs(w))
    requires Rungs(commands, names, command) && |names| >= MAX_DEPTH
    ensures Expansion(WithBuiltins(Ladder(names, command)), [], Call(names[0], args)) == Err(TooDeep)
  {
    LadderHeadsArePlain(commands, names, command);
    BuiltinTable();
    LadderTooDeep(commands, BuiltinsUpTo(|BUILTIN|), names, command, args);
  }
}
