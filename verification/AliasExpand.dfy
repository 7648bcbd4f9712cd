/**
 Alias expansion at run time: the bounded chain of `expand_words`, what its outcomes mean, and the
 built-in aliases underneath the user's own.
 */
module AliasExpand {
  import opened Wrappers
  import opened Sequences
  import opened AliasSplit
  import opened AliasSubstitute

  const MAX_DEPTH := 10

  type Table = map<string, string>

  /** A head word and everything after it. */
  datatype Call = Call(head: string, args: seq<string>)

  datatype ExpandError =
    | Loop(chain: seq<string>)
    | Unsplittable(reason: SplitError)
    | TooFewArguments(needed: nat)
    | ExpandsToNothing(head: string)
    | TooDeep

  /** What one alias does to a call. */
  datatype Hop = Settled | Next(call: Call) | Stuck(error: ExpandError)

  ghost function HopOf(t: Table, c: Call): Hop {
    if c.head !in t then Settled
    else match Words(t[c.head])
      case Err(e) => Stuck(Unsplittable(e))
      case Ok(words) =>
        match Substituted(words, c.args)
        case Err(n) => Stuck(TooFewArguments(n))
        case Ok(o) =>
          if o.words == [] then Stuck(ExpandsToNothing(c.head))
          else Next(Call(o.words[0], o.words[1..] + o.leftover))
  }

  /** The expansion of `c` once the aliases in `seen` have been used. */
  ghost function Expansion(t: Table, seen: seq<string>, c: Call): Result<seq<string>, ExpandError>
    requires |seen| <= MAX_DEPTH
    decreases MAX_DEPTH - |seen|
  {
    if |seen| == MAX_DEPTH then Err(TooDeep)
    else if c.head in seen then Err(Loop(seen + [c.head]))
    else match HopOf(t, c)
      case Settled => Ok([c.head] + c.args)
      case Stuck(e) => Err(e)
      case Next(d) => Expansion(t, seen + [c.head], d)
  }

  method ExpandWords(name: string, args: seq<string>, aliases: Table)
    returns (r: Result<seq<string>, ExpandError>)
    ensures r == Expansion(aliases, [], Call(name, args))
  {
    var seen: seq<string> := [];
    var head := name;
    var rest := args;
    for round := 0 to MAX_DEPTH
      invariant |seen| == round
      invariant Expansion(aliases, seen, Call(head, rest)) == Expansion(aliases, [], Call(name, args))
    {
      if head in seen {
        return Err(Loop(seen + [head]));
      }
      if head !in aliases {
        return Ok([head] + rest);
      }
      var words := Split(aliases[head]);
      if words.Err? {
        return Err(Unsplittable(words.error));
      }
      var substituted := Substitute(words.value, rest);
      if substituted.Err? {
        return Err(TooFewArguments(substituted.error));
      }
      var Outcome(expanded, leftover) := substituted.value;
      if expanded == [] {
        return Err(ExpandsToNothing(head));
      }
      seen := seen + [head];
      head, rest := expanded[0], expanded[1..] + leftover;
    }
    return Err(TooDeep);
  }

  /** An alias without placeholders stands for its words, with all arguments behind them. */
  lemma PlainAliasAppends(t: Table, a: string, words: seq<string>, args: seq<string>)
    requires a in t && Words(t[a]) == Ok(words) && words != [] && forall i :: 0 <= i < |words| ==> NoRefs(words[i])
    ensures HopOf(t, Call(a, args)) == Next(Call(words[0], words[1..] + args))
  {
    SubstituteFails(words, args);
    NothingNamed(words);
    AllLeftOver(args, MarksOf(words));
    var o := Substituted(words, args).value;
    forall k | 0 <= k < |words| ensures o.words[k] == words[k] {
      NoRefsVerbatim(words[k], args, |words[k]|);
      assert words[k][..|words[k]|] == words[k];
    }
    assert o.words == words;
  }

  // ------------------------------------------------------------- what an expansion means

  /** Calls that follow one another by single hops. */
  ghost predicate IsChain(t: Table, cs: seq<Call>) {
    cs != [] && forall i :: 0 <= i < |cs| - 1 ==> HopOf(t, cs[i]) == Next(cs[i + 1])
  }

  ghost function Heads(cs: seq<Call>): seq<string> {
    seq(|cs|, i requires 0 <= i < |cs| => cs[i].head)
  }

  ghost predicate HasOutcome(t: Table, cs: seq<Call>, r: Result<seq<string>, ExpandError>)
    requires cs != []
  {
    var n := |cs| - 1;
    && Distinct(Heads(cs[..n]))
    && match r
       case Ok(words) =>
         n < MAX_DEPTH && cs[n].head !in Heads(cs[..n]) && cs[n].head !in t && words == [cs[n].head] + cs[n].args
       case Err(Loop(names)) => n < MAX_DEPTH && cs[n].head in Heads(cs[..n]) && names == Heads(cs)
       case Err(TooDeep) => n == MAX_DEPTH
       case Err(e) => n < MAX_DEPTH && cs[n].head !in Heads(cs[..n]) && HopOf(t, cs[n]) == Stuck(e)
  }

  lemma ExpansionHop(t: Table, seen: seq<string>, c: Call, d: Call)
    requires |seen| < MAX_DEPTH && c.head !in seen && HopOf(t, c) == Next(d)
    ensures Expansion(t, seen, c) == Expansion(t, seen + [c.head], d)
  {
  }

  lemma ExpansionEnds(t: Table, cs: seq<Call>, r: Result<seq<string>, ExpandError>)
    requires cs != [] && |cs| - 1 <= MAX_DEPTH && HasOutcome(t, cs, r)
    ensures Expansion(t, Heads(cs[..|cs| - 1]), cs[|cs| - 1]) == r
  {
    var n := |cs| - 1;
    assert Heads(cs) == Heads(cs[..n]) + [cs[n].head];
  }

  /** Following a chain of distinct aliases is what the expansion does. */
  lemma {:induction false} ExpansionFollows(t: Table, cs: seq<Call>, k: nat)
    requires IsChain(t, cs) && |cs| - 1 <= MAX_DEPTH && Distinct(Heads(cs[..|cs| - 1]))
    requires k < |cs|
    ensures Expansion(t, [], cs[0]) == Expansion(t, Heads(cs[..k]), cs[k])
  {
    if k == 0 {
      assert Heads(cs[..0]) == [];
    } else {
      ExpansionFollows(t, cs, k - 1);
      NewHead(cs, k - 1);
      ExpansionHop(t, Heads(cs[..k - 1]), cs[k - 1], cs[k]);
    }
  }

  lemma NewHead(cs: seq<Call>, k: nat)
    requires k < |cs| - 1 && Distinct(Heads(cs[..|cs| - 1]))
    ensures cs[k].head !in Heads(cs[..k]) && Heads(cs[..k]) + [cs[k].head] == Heads(cs[..k + 1])
  {
    var seen, names := Heads(cs[..k]), Heads(cs[..|cs| - 1]);
    assert forall i :: 0 <= i < k ==> seen[i] == names[i] && names[i] != names[k];
  }

  /** Some chain explains every outcome. */
  lemma {:induction false} ExpansionHasChain(t: Table, cs: seq<Call>) returns (all: seq<Call>)
    requires IsChain(t, cs) && |cs| - 1 <= MAX_DEPTH && Distinct(Heads(cs[..|cs| - 1]))
    ensures cs <= all && IsChain(t, all)
    ensures HasOutcome(t, all, Expansion(t, Heads(cs[..|cs| - 1]), cs[|cs| - 1]))
    decreases MAX_DEPTH + 1 - |cs|
  {
    var n := |cs| - 1;
    var seen := Heads(cs[..n]);
    var c := cs[n];
    assert Heads(cs) == seen + [c.head];
    if n < MAX_DEPTH && c.head !in seen && HopOf(t, c).Next? {
      var longer := cs + [HopOf(t, c).call];
      assert longer[..n + 1] == cs;
      all := ExpansionHasChain(t, longer);
    } else {
      all := cs;
    }
  }

  /** A chain of calls from `c` accounts for the outcome `r`. */
  ghost predicate Explains(t: Table, c: Call, cs: seq<Call>, r: Result<seq<string>, ExpandError>) {
    IsChain(t, cs) && cs[0] == c && HasOutcome(t, cs, r)
  }

  lemma ExpansionExplained(t: Table, c: Call) returns (cs: seq<Call>)
    ensures Explains(t, c, cs, Expansion(t, [], c))
  {
    assert Heads([c][..0]) == [];
    cs := ExpansionHasChain(t, [c]);
  }

  lemma ExplanationDecides(t: Table, c: Call, cs: seq<Call>, r: Result<seq<string>, ExpandError>)
    requires Explains(t, c, cs, r)
    ensures Expansion(t, [], c) == r
  {
    OutcomeIsBounded(t, cs, r);
    ExpansionFollows(t, cs, |cs| - 1);
    ExpansionEnds(t, cs, r);
  }

  lemma OutcomeIsBounded(t: Table, cs: seq<Call>, r: Result<seq<string>, ExpandError>)
    requires cs != [] && HasOutcome(t, cs, r)
    ensures |cs| - 1 <= MAX_DEPTH
  {
  }

  /**
   The outcome `r` is the expansion exactly when a chain of calls explains it: a command reached
   over distinct aliases in fewer than `MAX_DEPTH` hops, an alias met a second time, an alias
   that cannot be applied, or `MAX_DEPTH` distinct aliases in a row.
   */
  lemma ExpansionMeaning(t: Table, c: Call, r: Result<seq<string>, ExpandError>)
    ensures Expansion(t, [], c) == r <==> exists cs :: Explains(t, c, cs, r)
  {
    var all := ExpansionExplained(t, c);
    if cs :| Explains(t, c, cs, r) {
      ExplanationDecides(t, c, cs, r);
    }
  }

  /** A successful expansion never starts with an alias. */
  lemma ExpansionReachesCommand(t: Table, c: Call)
    requires Expansion(t, [], c).Ok?
    ensures var words := Expansion(t, [], c).value; words != [] && words[0] !in t
  {
    var cs := ExpansionExplained(t, c);
  }

  /** A loop is reported only when the reported chain comes back to an alias it already used. */
  lemma LoopRepeats(t: Table, c: Call, chain: seq<string>)
    requires Expansion(t, [], c) == Err(Loop(chain))
    ensures 2 <= |chain| <= MAX_DEPTH && chain[0] == c.head
    ensures chain[|chain| - 1] in chain[..|chain| - 1]
    ensures forall i :: 0 <= i < |chain| ==> chain[i] in t
  {
    var cs := ExpansionExplained(t, c);
    var n := |cs| - 1;
    assert chain[..n] == Heads(cs[..n]);
    forall i | 0 <= i < |chain| ensures chain[i] in t {
      if i < n {
        assert HopOf(t, cs[i]) == Next(cs[i + 1]);
      } else {
        var j :| 0 <= j < n && cs[j].head == chain[i];
        assert HopOf(t, cs[j]) == Next(cs[j + 1]);
      }
    }
  }

  lemma {:induction false} DistinctFits(names: seq<string>, keys: set<string>)
    requires Distinct(names) && forall i :: 0 <= i < |names| ==> names[i] in keys
    ensures |names| <= |keys|
  {
    if names != [] {
      var n := |names| - 1;
      DistinctFits(names[..n], keys - {names[n]});
    }
  }

  /** With fewer than `MAX_DEPTH` aliases, built-ins included, the depth error cannot happen. */
  lemma TooDeepNeedsManyAliases(t: Table, c: Call)
    requires Expansion(t, [], c) == Err(TooDeep)
    ensures |t| >= MAX_DEPTH
  {
    var cs := ExpansionExplained(t, c);
    var names := Heads(cs[..MAX_DEPTH]);
    forall i | 0 <= i < |names| ensures names[i] in t.Keys {
      assert HopOf(t, cs[i]) == Next(cs[i + 1]);
    }
    DistinctFits(names, t.Keys);
  }

  // --------------------------------------------------------------------- built-ins

  const BUILTIN: seq<(string, string)> := [
    ("pull", "pr"),
    ("labels", "label"),
    ("ms", "milestone"),
    ("login", "auth login"),
    ("whoami", "auth status")
  ]

  /** The first `n` built-ins, the earlier entry winning if a name were listed twice. */
  function BuiltinsUpTo(n: nat): Table
    requires n <= |BUILTIN|
  {
    if n == 0 then map[]
    else
      var before := BuiltinsUpTo(n - 1);
      var (name, expansion) := BUILTIN[n - 1];
      if name in before then before else before[name := expansion]
  }

  /** The user's aliases, with the built-ins underneath. */
  function WithBuiltins(user: Table): Table {
    BuiltinsUpTo(|BUILTIN|) + user
  }

  method MergeBuiltins(user: Table) returns (t: Table)
    ensures t == WithBuiltins(user)
    ensures forall name :: name in user ==> MapGet(t, name) == Some(user[name])
    ensures forall name :: name !in user ==> MapGet(t, name) == MapGet(BuiltinsUpTo(|BUILTIN|), name)
  {
    t := user;
    for i := 0 to |BUILTIN|
      invariant t == BuiltinsUpTo(i) + user
    {
      var (name, expansion) := BUILTIN[i];
      if name !in t {
        t := t[name := expansion];
      }
    }
  }

  predicate IsBuiltinTable(t: Table) {
    t == map[
      "pull" := "pr", "labels" := "label", "ms" := "milestone", "login" := "auth login", "whoami" := "auth status"
    ]
  }

  lemma BuiltinTable()
    ensures IsBuiltinTable(BuiltinsUpTo(|BUILTIN|))
  {
    assert BuiltinsUpTo(0) == map[];
    assert BuiltinsUpTo(1) == map["pull" := "pr"];
    assert BuiltinsUpTo(2) == map["pull" := "pr", "labels" := "label"];
    assert BuiltinsUpTo(3) == map["pull" := "pr", "labels" := "label", "ms" := "milestone"];
    assert BuiltinsUpTo(4) == map["pull" := "pr", "labels" := "label", "ms" := "milestone", "login" := "auth login"];
  }
}
