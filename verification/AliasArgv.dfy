/**
 Where `expand` finds the command word in `argv`, and what it leaves alone.
 */
module AliasArgv {
  import opened Wrappers
  import opened Text
  import opened ArgvWords
  import opened AliasSubstitute
  import opened AliasExpand
  import opened AliasGraph
  import opened AliasDepth
  import opened AliasTable

  /** Long flags whose value is a token of its own. */
  const VALUE_FLAGS: set<string> := {
    "--host", "--hostname", "--login", "--repo", "-R", "--jq", "-q", "--template", "-t", "--color",
    "--sudo", "--otp", "--max-retries", "--limit", "--output"
  }

  function CommandWordFrom(argv: seq<string>, i: nat, endOfFlags: bool): (r: Option<nat>)
    ensures r.Some? ==> i <= r.value < |argv|
  {
    WordAt(VALUE_FLAGS, argv, i, endOfFlags)
  }

  method CommandWordIndex(argv: seq<string>) returns (r: Option<nat>)
    ensures r == CommandWordFrom(argv, 1, false)
  {
    var i := 1;
    var endOfFlags := false;
    while i < |argv|
      invariant CommandWordFrom(argv, i, endOfFlags) == CommandWordFrom(argv, 1, false)
      decreases |argv| - i
    {
      var tok := argv[i];
      if endOfFlags || LooksLikeWord(tok) {
        return Some(i);
      }
      if tok == "--" {
        endOfFlags := true;
      } else if TakesValue(VALUE_FLAGS, tok) {
        i := i + 1;
      }
      i := i + 1;
    }
    return None;
  }

  // ----------------------------------------------------------------------- expand

  /** `argv` with its command word expanded by the aliases of `t`. */
  ghost function Expanded(argv: seq<string>, t: Table): Result<seq<string>, ExpandError> {
    match CommandWordFrom(argv, 1, false)
    case None => Ok(argv)
    case Some(at) => ExpandedAt(argv, at, t)
  }

  ghost function ExpandedAt(argv: seq<string>, at: nat, t: Table): Result<seq<string>, ExpandError>
    requires at < |argv|
  {
    if argv[at] !in t then Ok(argv)
    else match Expansion(t, [], Call(argv[at], argv[at + 1..]))
      case Err(e) => Err(e)
      case Ok(words) => Ok(argv[..at] + words)
  }

  method Expand(argv: seq<string>, user: Table) returns (r: Result<seq<string>, ExpandError>)
    ensures r == Expanded(argv, WithBuiltins(user))
  {
    var index := CommandWordIndex(argv);
    if index.None? {
      return Ok(argv);
    }
    var aliases := MergeBuiltins(user);
    r := ExpandAt(argv, index.value, aliases);
  }

  /** What is done once the command word has been found. */
  method ExpandAt(argv: seq<string>, at: nat, aliases: Table) returns (r: Result<seq<string>, ExpandError>)
    requires at < |argv|
    ensures r == ExpandedAt(argv, at, aliases)
  {
    if argv[at] !in aliases {
      return Ok(argv);
    }
    var expanded := ExpandWords(argv[at], argv[at + 1..], aliases);
    match expanded
    case Err(e) => return Err(e);
    case Ok(words) => return Ok(argv[..at] + words);
  }

  /** No alias points at a flag; `check_expansion` refuses those. */
  ghost predicate NoFlagHeads(t: Table) {
    forall a :: Edge(t, a).Some? ==> !StartsWithDash(Edge(t, a).value)
  }

  /** The word an expansion ends at is one that some alias pointed at. */
  lemma ExpansionEndsAtEdge(t: Table, c: Call)
    requires PlainHeads(t) && NoFlagHeads(t) && c.head in t && Expansion(t, [], c).Ok?
    ensures Expansion(t, [], c).value != [] && !StartsWithDash(Expansion(t, [], c).value[0])
  {
    var cs := ExpansionExplained(t, c);
    var n := |cs| - 1;
    assert n > 0;
    HopFollowsEdge(t, cs[n - 1], cs[n]);
  }

  /** The command word of `argv` is an alias, which can be looked up before anything is expanded. */
  predicate AliasLeads(argv: seq<string>, t: Table) {
    var at := CommandWordFrom(argv, 1, false);
    at.Some? && argv[at.value] in t
  }

  /** An alias never expands to itself, whatever comes before it. */
  lemma AliasIsReplaced(argv: seq<string>, at: nat, t: Table)
    requires at < |argv| && argv[at] in t
    ensures ExpandedAt(argv, at, t) != Ok(argv)
  {
    var c := Call(argv[at], argv[at + 1..]);
    var r := Expansion(t, [], c);
    if r.Ok? {
      ExpansionReachesCommand(t, c);
      assert (argv[..at] + r.value)[at] == r.value[0];
    }
  }

  /** Expanding changes nothing exactly when the command word is no alias. */
  lemma UnchangedExactly(argv: seq<string>, t: Table)
    ensures Expanded(argv, t) == Ok(argv) <==> !AliasLeads(argv, t)
  {
    if AliasLeads(argv, t) {
      AliasIsReplaced(argv, CommandWordFrom(argv, 1, false).value, t);
    }
  }

  /**
   What comes before the command word is kept and the word now there is no alias. A second pass
   changes nothing exactly when that word is still read as the command word, or the one read
   instead is no alias either.
   */
  lemma ExpandIsStable(argv: seq<string>, t: Table, out: seq<string>, at: nat, os: seq<Leading>, dashes: bool)
    requires Precedes(VALUE_FLAGS, argv, 1, at, os, dashes) && Expanded(argv, t) == Ok(out)
    ensures at < |out| && out[..at] == argv[..at] && out[at] !in t
    ensures dashes || LooksLikeWord(out[at]) ==> CommandWordFrom(out, 1, false) == Some(at)
    ensures Expanded(out, t) == Ok(out) <==> dashes || LooksLikeWord(out[at]) || !AliasLeads(out, t)
  {
    WordComplete(VALUE_FLAGS, argv, 1, at, os, dashes);
    if argv[at] in t {
      ExpansionReachesCommand(t, Call(argv[at], argv[at + 1..]));
    }
    assert out[1..at] == argv[1..at];
    if dashes || LooksLikeWord(out[at]) {
      WordComplete(VALUE_FLAGS, out, 1, at, os, dashes);
    }
    UnchangedExactly(out, t);
  }

  /** The word an alias leaves in its place is the one its walk ends at. */
  lemma EndOfWalkIsLeft(argv: seq<string>, t: Table, out: seq<string>, at: nat, p: seq<string>)
    requires PlainHeads(t) && CommandWordFrom(argv, 1, false) == Some(at) && SettlesVia(t, argv[at], p)
    requires Expanded(argv, t) == Ok(out)
    ensures at < |out| && out[at] == p[|p| - 1]
  {
    if argv[at] in t {
      CallOutcome(t, Call(argv[at], argv[at + 1..]), p);
    } else {
      assert Edge(t, argv[at]).None?;
      SettledIsLongest(t, argv[at], [argv[at]], p);
    }
  }

  /**
   A second pass changes nothing exactly when the walk of the command word ends at what still reads
   as a word, or all options are over, or the word read instead is no alias.
   */
  lemma IdempotentExactly(argv: seq<string>, t: Table, out: seq<string>, at: nat, os: seq<Leading>, dashes: bool, p: seq<string>)
    requires PlainHeads(t) && Precedes(VALUE_FLAGS, argv, 1, at, os, dashes) && SettlesVia(t, argv[at], p)
    requires Expanded(argv, t) == Ok(out)
    ensures Expanded(out, t) == Ok(out) <==> dashes || LooksLikeWord(p[|p| - 1]) || !AliasLeads(out, t)
  {
    WordComplete(VALUE_FLAGS, argv, 1, at, os, dashes);
    EndOfWalkIsLeft(argv, t, out, at, p);
    ExpandIsStable(argv, t, out, at, os, dashes);
  }

  /** On a table whose aliases point at plain words other than flags, expanding is idempotent. */
  lemma ExpandIsIdempotent(argv: seq<string>, t: Table, out: seq<string>)
    requires PlainHeads(t) && NoFlagHeads(t) && Expanded(argv, t) == Ok(out)
    ensures Expanded(out, t) == Ok(out)
  {
    if CommandWordFrom(argv, 1, false).Some? {
      var at := CommandWordFrom(argv, 1, false).value;
      var os := WordSound(VALUE_FLAGS, argv, 1);
      ExpandIsStable(argv, t, out, at, os, WordFrom(VALUE_FLAGS, argv, 1, false).value.endOfFlags);
      if argv[at] in t {
        ExpansionEndsAtEdge(t, Call(argv[at], argv[at + 1..]));
      }
    }
  }

  /**
   Why the heads must be plain: an alias that stands for its first argument can end at a flag,
   and the next pass then reads a later word as the command.
   */
  lemma FlagThroughPlaceholder(t: Table, prog: string, name: string, flag: string, w: string)
    requires name in t && t[name] == w && !StartsWithDash(name)
    requires PlainWord(w) && |w| == 2 && IsRef(w, 0) && RefIndex(w, 0) == 0
    requires StartsWithDash(flag) && flag != "-" && flag != "--" && !TakesValue(VALUE_FLAGS, flag) && flag !in t
    ensures Expanded([prog, name, flag, name], t) == Ok([prog, flag, name])
    ensures Expanded([prog, flag, name], t) == Err(TooFewArguments(1))
  {
    FirstPass(t, prog, name, flag, w);
    SecondPass(t, prog, name, flag, w);
  }

  lemma FirstPass(t: Table, prog: string, name: string, flag: string, w: string)
    requires name in t && t[name] == w && !StartsWithDash(name)
    requires PlainWord(w) && |w| == 2 && IsRef(w, 0) && RefIndex(w, 0) == 0 && flag !in t
    ensures Expanded([prog, name, flag, name], t) == Ok([prog, flag, name])
  {
    var argv := [prog, name, flag, name];
    FirstArgumentLeads(t, name, w, [flag, name]);
    assert argv[1..][1..] == argv[2..] == [flag, name];
    assert argv[..1] + [flag, name] == [prog, flag, name];
    assert ExpandedAt(argv, 1, t) == Ok([prog, flag, name]);
  }

  /** An alias for its own first argument expands to its arguments. */
  lemma FirstArgumentLeads(t: Table, name: string, w: string, args: seq<string>)
    requires name in t && t[name] == w && args != [] && args[0] !in t
    requires PlainWord(w) && |w| == 2 && IsRef(w, 0) && RefIndex(w, 0) == 0
    ensures Expansion(t, [], Call(name, args)) == Ok(args)
  {
    WordOf(w);
    var c, d := Call(name, args), Call(args[0], args[1..]);
    LoneReference(w, args);
    assert HopOf(t, c) == Next(d) by {
      assert [args[0]][1..] + args[1..] == args[1..];
    }
    ExpansionHop(t, [], c, d);
    assert args == [args[0]] + args[1..];
  }

  lemma SecondPass(t: Table, prog: string, name: string, flag: string, w: string)
    requires name in t && t[name] == w && !StartsWithDash(name)
    requires PlainWord(w) && |w| == 2 && IsRef(w, 0) && RefIndex(w, 0) == 0
    requires StartsWithDash(flag) && flag != "-" && flag != "--" && !TakesValue(VALUE_FLAGS, flag)
    ensures Expanded([prog, flag, name], t) == Err(TooFewArguments(1))
  {
    WordOf(w);
    var out := [prog, flag, name];
    assert FirstMissing(w, [], 0) == 1 && FirstMissingIn([w], []) == 1;
    assert out[3..] == [] && HopOf(t, Call(name, [])) == Stuck(TooFewArguments(1));
    assert CommandWordFrom(out, 2, false) == Some(2);
  }

  // ---------------------------------------------------------------------- over runs

  /** `set` and `import` store no alias that points at a flag. */
  lemma StoreKeepsNoFlagHeads(commands: set<string>, user: Table, name: string, expansion: string)
    requires NoFlagHeads(WithBuiltins(user)) && Problem(commands, user, name, expansion).None?
    ensures NoFlagHeads(WithBuiltins(user[name := expansion]))
  {
    StoredOverBuiltins(user, name, expansion);
    UpdateKeepsNoFlagHeads(WithBuiltins(user), name, expansion);
  }

  lemma UpdateKeepsNoFlagHeads(t: Table, name: string, expansion: string)
    requires NoFlagHeads(t)
    requires Edge(t[name := expansion], name).Some? ==> !StartsWithDash(Edge(t[name := expansion], name).value)
    ensures NoFlagHeads(t[name := expansion])
  {
    var after := t[name := expansion];
    forall a | Edge(after, a).Some? ensures !StartsWithDash(Edge(after, a).value) {
      if a != name {
        assert Edge(after, a) == Edge(t, a);
      }
    }
  }

  /** A delete uncovers at most a built-in, and none of those points at a flag. */
  lemma DeleteKeepsNoFlagHeads(user: Table, name: string)
    requires NoFlagHeads(WithBuiltins(user))
    ensures NoFlagHeads(WithBuiltins(user - {name}))
  {
    BuiltinTable();
    RemovalKeepsNoFlagHeads(BuiltinsUpTo(|BUILTIN|), user, name);
  }

  lemma RemovalKeepsNoFlagHeads(builtins: Table, user: Table, name: string)
    requires IsBuiltinTable(builtins) && NoFlagHeads(builtins + user)
    ensures NoFlagHeads(builtins + (user - {name}))
  {
    var after := builtins + (user - {name});
    forall a | Edge(after, a).Some? ensures !StartsWithDash(Edge(after, a).value) {
      if a == name {
        BuiltinEdge(builtins, name);
        assert Edge(after, a) == Edge(builtins, a);
      } else {
        assert Edge(after, a) == Edge(builtins + user, a);
      }
    }
  }

  lemma {:induction false} ImportKeepsNoFlagHeads(commands: set<string>, user: Table, entries: seq<(string, string)>,
                                                  clobber: bool)
    requires NoFlagHeads(WithBuiltins(user))
    ensures NoFlagHeads(WithBuiltins(AfterImport(commands, user, entries, clobber)))
    decreases |entries|
  {
    if entries != [] {
      var n := |entries| - 1;
      ImportKeepsNoFlagHeads(commands, user, entries[..n], clobber);
      var before := AfterImport(commands, user, entries[..n], clobber);
      if Problem(commands, before, entries[n].0, entries[n].1).None? {
        StoreKeepsNoFlagHeads(commands, before, entries[n].0, entries[n].1);
      }
    }
  }

  lemma {:induction false} RunKeepsNoFlagHeads(commands: set<string>, user: Table, run: seq<Change>)
    requires NoFlagHeads(WithBuiltins(user))
    ensures NoFlagHeads(WithBuiltins(AfterAll(commands, user, run)))
    decreases |run|
  {
    if run != [] {
      var n := |run| - 1;
      RunKeepsNoFlagHeads(commands, user, run[..n]);
      var before := AfterAll(commands, user, run[..n]);
      match run[n]
      case SetAlias(name, expansion) =>
        if Problem(commands, before, Trim(name), Trim(expansion)).None? {
          StoreKeepsNoFlagHeads(commands, before, Trim(name), Trim(expansion));
        }
      case DeleteAlias(name) => DeleteKeepsNoFlagHeads(before, Trim(name));
      case ImportAliases(entries, clobber) => ImportKeepsNoFlagHeads(commands, before, entries, clobber);
    }
  }

  /**
   Whatever was set, imported and deleted: expanding a command line that has been expanded changes
   nothing, provided no stored name holds `$1`..`$9`.
   */
  lemma RunExpandIsIdempotent(commands: set<string>, user: Table, run: seq<Change>, argv: seq<string>, out: seq<string>)
    requires PlainNames(commands, user) && NoFlagHeads(WithBuiltins(user))
    requires forall i :: 0 <= i < |run| ==> NamesPlainly(run[i])
    requires Expanded(argv, WithBuiltins(AfterAll(commands, user, run))) == Ok(out)
    ensures Expanded(out, WithBuiltins(AfterAll(commands, user, run))) == Ok(out)
  {
    RunKeepsPlain(commands, user, run);
    RunKeepsNoFlagHeads(commands, user, run);
    ExpandIsIdempotent(argv, WithBuiltins(AfterAll(commands, user, run)), out);
  }

  /** A fresh configuration points at no flag. */
  lemma EmptyHasNoFlagHeads()
    ensures NoFlagHeads(WithBuiltins(map[]))
  {
    var t := WithBuiltins(map[]);
    assert t == BuiltinsUpTo(|BUILTIN|);
    BuiltinTable();
    forall a | Edge(t, a).Some? ensures !StartsWithDash(Edge(t, a).value) {
      BuiltinEdge(t, a);
    }
  }
}
