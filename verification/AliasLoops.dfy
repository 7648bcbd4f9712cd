/**
 Aliases that loop although no check objects: first words are read before placeholders are filled
 in, so a first word that holds one can lead anywhere.
 */
module AliasLoops {
  import opened Wrappers
  import opened Sequences
  import opened Text
  import opened AliasSplit
  import opened AliasSubstitute
  import opened AliasExpand
  import opened AliasGraph
  import opened AliasDepth
  import opened AliasTable

  /**
   Why names must hold no placeholder: `set` accepts an alias called `$1`, then any alias that
   starts with it, and invoking that one with its own name loops.
   */
  lemma PlaceholderNameLoops(commands: set<string>, name: string)
    requires Sensible(commands) && "$1" !in commands && name !in commands
    requires PlainWord(name) && !StartsWithDash(name) && name != "$1"
    ensures Problem(commands, map[], "$1", "pr").None?
    ensures Problem(commands, map["$1" := "pr"], name, "$1").None?
    ensures Expansion(WithBuiltins(map["$1" := "pr"][name := "$1"]), [], Call(name, [name])) == Err(Loop([name, name]))
  {
    BuiltinTable();
    PlaceholderLoop(commands, BuiltinsUpTo(|BUILTIN|), name, "$1", "pr");
  }

  lemma PlaceholderLoop(commands: set<string>, builtins: Table, name: string, middle: string, command: string)
    requires builtins == BuiltinsUpTo(|BUILTIN|) && command !in builtins
    requires command in commands && middle !in commands && name !in commands && name != middle
    requires PlainWord(name) && PlainWord(middle) && PlainWord(command)
    requires !StartsWithDash(name) && !StartsWithDash(middle) && !StartsWithDash(command)
    requires |middle| == 2 && IsRef(middle, 0) && RefIndex(middle, 0) == 0
    ensures Problem(commands, map[], middle, command).None?
    ensures Problem(commands, map[middle := command], name, middle).None?
    ensures Expansion(WithBuiltins(map[middle := command][name := middle]), [], Call(name, [name]))
         == Err(Loop([name, name]))
  {
    TwoStores(commands, builtins, name, middle, command);
    FirstStore(commands, builtins, middle, command);
    SecondStore(commands, builtins, name, middle, command);
    StoredOverBuiltins(map[middle := command], name, middle);
    ReferenceLoops(Candidate(map[middle := command], name, middle), name, middle);
  }

  lemma FirstStore(commands: set<string>, builtins: Table, middle: string, command: string)
    requires builtins == BuiltinsUpTo(|BUILTIN|) && CycleFrom(builtins[middle := command], [middle]).None?
    requires command in commands && middle !in commands && PlainWord(middle) && PlainWord(command)
    requires !StartsWithDash(middle) && !StartsWithDash(command)
    ensures Problem(commands, map[], middle, command).None?
  {
    assert Candidate(map[], middle, command) == builtins[middle := command];
    PlainStore(commands, map[], middle, command);
  }

  lemma SecondStore(commands: set<string>, builtins: Table, name: string, middle: string, command: string)
    requires builtins == BuiltinsUpTo(|BUILTIN|) && name != middle
    requires CycleFrom(builtins[name := middle][middle := command], [name]).None?
    requires name !in commands && PlainWord(name) && PlainWord(middle)
    requires !StartsWithDash(name) && !StartsWithDash(middle)
    ensures Problem(commands, map[middle := command], name, middle).None?
  {
    assert Candidate(map[middle := command], name, middle) == builtins[name := middle][middle := command];
    PlainStore(commands, map[middle := command], name, middle);
  }

  lemma TwoStores(commands: set<string>, t: Table, name: string, middle: string, command: string)
    requires PlainWord(middle) && PlainWord(command) && command != middle && command != name && name != middle
    requires command !in t
    ensures CycleFrom(t[middle := command], [middle]).None?
    ensures CycleFrom(t[name := middle][middle := command], [name]).None?
  {
    WordOf(middle);
    WordOf(command);
    var one, two := t[middle := command], t[name := middle][middle := command];
    assert SettlesVia(one, middle, [middle, command]);
    FindCycleMeaning(one, middle);
    assert SettlesVia(two, name, [name, middle, command]);
    FindCycleMeaning(two, name);
  }

  lemma ReferenceLoops(t: Table, name: string, w: string)
    requires name in t && t[name] == w && PlainWord(w)
    requires |w| == 2 && IsRef(w, 0) && RefIndex(w, 0) == 0
    ensures Expansion(t, [], Call(name, [name])) == Err(Loop([name, name]))
  {
    var c, d := Call(name, [name]), Call(name, []);
    WordOf(w);
    LoneReference(w, [name]);
    assert HopOf(t, c) == Next(d) by {
      assert [name][1..] + [] == [];
    }
    ExpansionEnds(t, [c, d], Err(Loop([name, name])));
    assert Heads([c, d]) == [name, name] && Heads([c, d][..1]) == [name];
    assert IsChain(t, [c, d]);
    ExpansionFollows(t, [c, d], 1);
  }

  predicate LoneRef(w: string) {
    |w| == 2 && IsRef(w, 0)
  }

  function NineTimes(a: string): seq<string> {
    seq(9, i => a)
  }

  /** An alias whose first word is one of `$1`..`$9` loops when every argument is its own name. */
  lemma LoneHeadLoops(t: Table, a: string)
    requires Edge(t, a).Some? && LoneRef(Edge(t, a).value)
    ensures Expansion(t, [], Call(a, NineTimes(a))) == Err(Loop([a, a]))
  {
    var words, args := Words(t[a]).value, NineTimes(a);
    SubstituteFails(words, args);
    RefersBelowNine(words);
    PieceOfRef(words[0], args, 0);
    assert Rendered(words[0], args, 2) == Rendered(words[0], args, 0) + a == a;
    var o := Substituted(words, args).value;
    assert o.words[0] == a;
    var d := Call(a, o.words[1..] + o.leftover);
    ExpansionHop(t, [], Call(a, args), d);
    assert [] + [a] == [a] && [a] + [a] == [a, a];
    assert Expansion(t, [a], d) == Err(Loop([a, a]));
  }

  ghost predicate NeverLoops(t: Table) {
    forall c :: Expansion(t, [], c).Err? ==> !Expansion(t, [], c).error.Loop?
  }

  /** On an acyclic table whose first words are names or single placeholders: no call loops exactly when all are names. */
  lemma PlainOrLoneNeverLoops(t: Table)
    requires Acyclic(t)
    requires forall a :: Edge(t, a).Some? ==> NoRefs(Edge(t, a).value) || LoneRef(Edge(t, a).value)
    ensures NeverLoops(t) <==> PlainHeads(t)
  {
    if PlainHeads(t) {
      forall c ensures Expansion(t, [], c).Err? ==> !Expansion(t, [], c).error.Loop? {
        AcyclicNeverLoops(t, c);
      }
    }
    forall a | Edge(t, a).Some? && LoneRef(Edge(t, a).value) ensures !NeverLoops(t) {
      LoneHeadLoops(t, a);
      assert Expansion(t, [], Call(a, NineTimes(a))).Err?;
    }
  }

  // ------------------------------------------------------- first words that mix both

  /** `args` fill the first word of `a` in so that it spells `b`. */
  ghost predicate SpellsWith(t: Table, a: string, b: string, args: seq<string>) {
    && Edge(t, a).Some?
    && var w := Edge(t, a).value; !Short([w], |args|) && Rendered(w, args, |w|) == b
  }

  ghost predicate Spells(t: Table, a: string, b: string) {
    exists args :: SpellsWith(t, a, b, args)
  }

  ghost predicate IsFilledWalk(t: Table, p: seq<string>) {
    p != [] && forall i :: 0 <= i < |p| - 1 ==> Spells(t, p[i], p[i + 1])
  }

  /** No way of filling first words in leads back to where it started. */
  ghost predicate FilledAcyclic(t: Table) {
    forall p :: IsFilledWalk(t, p) && |p| >= 2 ==> p[0] != p[|p| - 1]
  }

  lemma HopSpells(t: Table, c: Call, d: Call)
    requires HopOf(t, c) == Next(d)
    ensures Spells(t, c.head, d.head)
  {
    var words := Words(t[c.head]).value;
    SubstituteFails(words, c.args);
    assert |Substituted(words, c.args).value.words| == |words|;
    assert !Short([words[0]], |c.args|) by {
      forall i | i >= |c.args| ensures !Refers([words[0]], i) {
        assert !Refers(words, i);
      }
    }
    assert SpellsWith(t, c.head, d.head, c.args);
  }

  lemma FilledSuffix(t: Table, p: seq<string>, k: nat)
    requires IsFilledWalk(t, p) && k < |p|
    ensures IsFilledWalk(t, p[k..]) && p[k..][0] == p[k] && p[k..][|p| - k - 1] == p[|p| - 1]
  {
    var q := p[k..];
    forall i | 0 <= i < |q| - 1 ensures Spells(t, q[i], q[i + 1]) {
      assert Spells(t, p[k + i], p[k + i + 1]);
    }
  }

  // --------------------------------------------------- arguments for a hop and the rest

  /** `front`, then what is wanted at the places in use, and `rest` in between and behind. */
  function Woven(used: seq<bool>, wanted: seq<string>, front: seq<string>, rest: seq<string>): seq<string>
    requires |used| == 9 <= |wanted| && |front| + |rest| >= 9
    decreases 9 - |front|
  {
    if |front| >= 9 then front + rest
    else if used[|front|] then Woven(used, wanted, front + [wanted[|front|]], rest)
    else Woven(used, wanted, front + [rest[0]], rest[1..])
  }

  lemma {:induction false} LeftoversBehind(front: seq<string>, rest: seq<string>, used: seq<bool>)
    requires |used| <= |front|
    ensures Leftovers(front + rest, used) == Leftovers(front, used) + rest
  {
    if rest == [] {
      assert front + rest == front;
    } else {
      var last := |rest| - 1;
      LeftoversBehind(front, rest[..last], used);
      assert (front + rest)[..|front| + last] == front + rest[..last];
      assert rest == rest[..last] + [rest[last]];
    }
  }

  lemma LeftoversOneMore(front: seq<string>, arg: string, used: seq<bool>)
    requires |front| < |used|
    ensures Leftovers(front + [arg], used) == Leftovers(front, used) + if used[|front|] then [] else [arg]
  {
    assert (front + [arg])[..|front|] == front;
  }

  lemma {:induction false} WovenStarts(used: seq<bool>, wanted: seq<string>, front: seq<string>, rest: seq<string>)
    requires |used| == 9 <= |wanted| && |front| + |rest| >= 9
    ensures var args := Woven(used, wanted, front, rest); front <= args && |args| >= 9 && |args| >= |front| + |rest|
    decreases 9 - |front|
  {
    if |front| < 9 {
      var more := front + [if used[|front|] then wanted[|front|] else rest[0]];
      WovenStarts(used, wanted, more, if used[|front|] then rest else rest[1..]);
      assert front <= more;
    }
  }

  lemma {:induction false} WovenFindsWanted(used: seq<bool>, wanted: seq<string>, front: seq<string>, rest: seq<string>, p: nat)
    requires |used| == 9 <= |wanted| && |front| + |rest| >= 9 && |front| <= p < 9 && used[p]
    ensures var args := Woven(used, wanted, front, rest); p < |args| && args[p] == wanted[p]
    decreases 9 - |front|
  {
    var more := front + [if used[|front|] then wanted[|front|] else rest[0]];
    var left := if used[|front|] then rest else rest[1..];
    if p == |front| {
      WovenStarts(used, wanted, more, left);
    } else {
      WovenFindsWanted(used, wanted, more, left, p);
    }
  }

  lemma {:induction false} WovenLeaves(used: seq<bool>, wanted: seq<string>, front: seq<string>, rest: seq<string>)
    requires |used| == 9 <= |wanted| && |front| + |rest| >= 9
    ensures Leftovers(Woven(used, wanted, front, rest), used) == Leftovers(front, used) + rest
    decreases 9 - |front|
  {
    var n := |front|;
    if n >= 9 {
      LeftoversBehind(front, rest, used);
    } else if used[n] {
      LeftoversOneMore(front, wanted[n], used);
      WovenLeaves(used, wanted, front + [wanted[n]], rest);
    } else {
      LeftoversOneMore(front, rest[0], used);
      WovenLeaves(used, wanted, front + [rest[0]], rest[1..]);
      assert [rest[0]] + rest[1..] == rest;
    }
  }

  /** What is wanted is found at its place, and `rest` is left. */
  lemma WovenMeaning(used: seq<bool>, wanted: seq<string>, front: seq<string>, rest: seq<string>)
    requires |used| == 9 <= |wanted| && |front| + |rest| >= 9
    ensures var args := Woven(used, wanted, front, rest);
            && front <= args && |args| >= 9 && |args| >= |front| + |rest|
            && (forall p :: |front| <= p < 9 && used[p] ==> args[p] == wanted[p])
            && Leftovers(args, used) == Leftovers(front, used) + rest
  {
    WovenStarts(used, wanted, front, rest);
    WovenLeaves(used, wanted, front, rest);
    var args := Woven(used, wanted, front, rest);
    forall p | |front| <= p < 9 && used[p] ensures args[p] == wanted[p] {
      WovenFindsWanted(used, wanted, front, rest, p);
    }
  }

  /** A word spells the same with any arguments that agree on those it names. */
  lemma {:induction false} SpellsTheSame(w: string, a: seq<string>, b: seq<string>, n: nat)
    requires n <= |w|
    requires forall i :: RefersBefore(w, |w|, i) ==> i < |a| && i < |b| && a[i] == b[i]
    ensures Rendered(w, a, n) == Rendered(w, b, n)
  {
    if n > 0 {
      SpellsTheSame(w, a, b, n - 1);
      if IsRef(w, n - 1) {
        assert RefersBefore(w, |w|, RefIndex(w, n - 1));
      }
    }
  }

  /** The words name the same in both. */
  ghost predicate Agree(words: seq<string>, a: seq<string>, b: seq<string>) {
    forall i :: Refers(words, i) ==> i < |a| && i < |b| && a[i] == b[i]
  }

  function Behind(words: seq<string>, args: seq<string>): seq<string>
    requires words != []
  {
    seq(|words| - 1, k requires 0 <= k < |words| - 1 => Rendered(words[k + 1], args, |words[k + 1]|))
  }

  lemma AgreeingWord(words: seq<string>, a: seq<string>, b: seq<string>, k: nat)
    requires Agree(words, a, b) && k < |words|
    ensures Rendered(words[k], a, |words[k]|) == Rendered(words[k], b, |words[k]|)
  {
    forall i | RefersBefore(words[k], |words[k]|, i) ensures i < |a| && i < |b| && a[i] == b[i] {
      assert Refers(words, i);
    }
    SpellsTheSame(words[k], a, b, |words[k]|);
  }

  /** With arguments that agree on what the words name, only the leftovers are different. */
  lemma AgreeingHop(words: seq<string>, a: seq<string>, b: seq<string>)
    requires words != [] && Agree(words, a, b)
    ensures Substituted(words, a).Ok?
    ensures var o := Substituted(words, a).value;
            && |o.words| == |words| && o.words[0] == Rendered(words[0], b, |words[0]|)
            && o.words[1..] == Behind(words, b) && o.leftover == Leftovers(a, MarksOf(words))
  {
    SubstituteFails(words, a);
    var o := Substituted(words, a).value;
    forall k | 0 <= k < |words| ensures o.words[k] == Rendered(words[k], b, |words[k]|) {
      AgreeingWord(words, a, b, k);
    }
  }

  /** Called with `args`, alias `a` comes to a call of `b`. */
  ghost predicate LeadsTo(t: Table, a: string, b: string, args: seq<string>) {
    HopOf(t, Call(a, args)).Next? && HopOf(t, Call(a, args)).call.head == b
  }

  /** What a hop with `args` puts in front: the words behind the first, and what they leave of `front`. */
  ghost function FrontAfter(words: seq<string>, args: seq<string>, front: seq<string>): seq<string>
    requires words != []
  {
    Behind(words, args) + Leftovers(front, MarksOf(words))
  }

  /**
   Every hop along `p` can be made with some arguments of its own, given those in `front` that the
   aliases before it have put there.
   */
  ghost predicate FreshWay(t: Table, p: seq<string>, front: seq<string>)
    decreases |p|, 1
  {
    |p| <= 1 || exists args :: FreshWith(t, p, front, args)
  }

  ghost predicate FreshWith(t: Table, p: seq<string>, front: seq<string>, args: seq<string>)
    requires |p| > 1
    decreases |p|, 0
  {
    && front <= args && LeadsTo(t, p[0], p[1], args)
    && FreshWay(t, p[1..], FrontAfter(Words(t[p[0]]).value, args, front))
  }

  lemma LeadsByWords(t: Table, a: string, b: string, args: seq<string>)
    requires LeadsTo(t, a, b, args)
    ensures Edge(t, a).Some?
    ensures var words := Words(t[a]).value;
            && Agree(words, args, args) && Rendered(words[0], args, |words[0]|) == b
            && HopOf(t, Call(a, args)) == Next(Call(b, Behind(words, args) + Leftovers(args, MarksOf(words))))
  {
    var words := Words(t[a]).value;
    SubstituteFails(words, args);
    assert words != [];
    AgreeingHop(words, args, args);
  }

  // ------------------------------------------------- from a loop to the way it has gone

  lemma {:induction false} LeftoversStart(front: seq<string>, args: seq<string>, used: seq<bool>)
    requires front <= args
    ensures Leftovers(front, used) <= Leftovers(args, used)
    decreases |args|
  {
    var last := |args| - 1;
    if front != args {
      LeftoversStart(front, args[..last], used);
    }
  }

  lemma {:induction false} ChainIsFresh(t: Table, cs: seq<Call>, front: seq<string>)
    requires IsChain(t, cs) && front <= cs[0].args
    ensures FreshWay(t, Heads(cs), front)
    decreases |cs|
  {
    if |cs| > 1 {
      var c, args := cs[0], cs[0].args;
      assert HopOf(t, cs[0]) == Next(cs[1]);
      LeadsByWords(t, c.head, cs[1].head, args);
      var words := Words(t[c.head]).value;
      LeftoversStart(front, args, MarksOf(words));
      ChainIsFresh(t, cs[1..], FrontAfter(words, args, front));
      assert Heads(cs)[1..] == Heads(cs[1..]);
      assert FreshWith(t, Heads(cs), front, args);
    }
  }

  /** A way back in fewer than `MAX_DEPTH` hops, each made with arguments of its own. */
  ghost predicate FreshWayBack(t: Table, q: seq<string>) {
    2 <= |q| <= MAX_DEPTH && q[0] == q[|q| - 1] && FreshWay(t, q, [])
  }

  lemma LoopIsFreshWayBack(t: Table, c: Call)
    requires Expansion(t, [], c).Err? && Expansion(t, [], c).error.Loop?
    ensures exists q :: FreshWayBack(t, q)
  {
    var cs := ExpansionExplained(t, c);
    var names := Heads(cs);
    var last := |names| - 1;
    LoopRepeats(t, c, names);
    var k :| 0 <= k < last && names[..last][k] == names[last];
    ChainFrom(t, cs, k);
    ChainIsFresh(t, cs[k..], []);
    assert FreshWayBack(t, names[k..]);
  }

  lemma ChainFrom(t: Table, cs: seq<Call>, k: nat)
    requires IsChain(t, cs) && k < |cs|
    ensures IsChain(t, cs[k..]) && Heads(cs[k..]) == Heads(cs)[k..]
  {
  }

  // ------------------------------------------------------ from a way to a call that goes it

  /** Arguments for the first hop that leave `rest` for those to come. */
  lemma WovenHop(t: Table, a: string, b: string, args: seq<string>, front: seq<string>, rest: seq<string>)
    returns (woven: seq<string>)
    requires LeadsTo(t, a, b, args) && front <= args && |rest| >= 9
    ensures front <= woven && |woven| >= |front| + |rest| && Edge(t, a).Some?
    ensures HopOf(t, Call(a, woven)) == Next(Call(b, FrontAfter(Words(t[a]).value, args, front) + rest))
  {
    LeadsByWords(t, a, b, args);
    var words, wanted := Words(t[a]).value, args + seq(9, i => "");
    woven := Woven(MarksOf(words), wanted, front, rest);
    WovenMeaning(MarksOf(words), wanted, front, rest);
    RefersBelowNine(words);
    assert Agree(words, woven, args);
    AgreeingHop(words, woven, args);
    var o := Substituted(words, woven).value;
    assert o.words[1..] + o.leftover == FrontAfter(words, args, front) + rest;
  }

  /** A call whose hops follow `q`, with `front` in front of at least `more` other arguments. */
  lemma {:induction false} WovenRun(t: Table, q: seq<string>, front: seq<string>, more: nat)
    returns (cs: seq<Call>, tail: seq<string>)
    requires q != [] && FreshWay(t, q, front)
    ensures IsChain(t, cs) && Heads(cs) == q && cs[0] == Call(q[0], front + tail) && |tail| >= more
    decreases |q|
  {
    if |q| == 1 {
      tail := seq(more, i => "");
      cs := [Call(q[0], front + tail)];
    } else {
      var args :| FreshWith(t, q, front, args);
      var later, rest := WovenRun(t, q[1..], FrontAfter(Words(t[q[0]]).value, args, front), more + 9);
      var woven := WovenHop(t, q[0], q[1], args, front, rest);
      tail := woven[|front|..];
      assert front + tail == woven;
      cs := [Call(q[0], woven)] + later;
      ChainInFront(t, Call(q[0], woven), later);
      assert [q[0]] + q[1..] == q;
    }
  }

  lemma ChainInFront(t: Table, c: Call, cs: seq<Call>)
    requires IsChain(t, cs) && HopOf(t, c) == Next(cs[0])
    ensures IsChain(t, [c] + cs) && Heads([c] + cs) == [c.head] + Heads(cs)
  {
    var all := [c] + cs;
    forall i | 0 <= i < |all| - 1 ensures HopOf(t, all[i]) == Next(all[i + 1]) {
      assert i > 0 ==> all[i] == cs[i - 1];
    }
  }

  /** A short chain that meets a name twice is reported as a loop. */
  lemma {:induction false} RepeatingChainLoops(t: Table, cs: seq<Call>)
    requires IsChain(t, cs) && |cs| <= MAX_DEPTH && !Distinct(Heads(cs))
    ensures Expansion(t, [], cs[0]).Err? && Expansion(t, [], cs[0]).error.Loop?
    decreases |cs|
  {
    var n := |cs| - 1;
    assert Heads(cs)[..n] == Heads(cs[..n]);
    if Distinct(Heads(cs[..n])) {
      assert Heads(cs) == Heads(cs[..n]) + [cs[n].head];
      ExplanationDecides(t, cs[0], cs, Err(Loop(Heads(cs))));
    } else {
      assert IsChain(t, cs[..n]);
      RepeatingChainLoops(t, cs[..n]);
    }
  }

  lemma FreshWayBackLoops(t: Table, q: seq<string>)
    requires FreshWayBack(t, q)
    ensures !NeverLoops(t)
  {
    var cs, args := WovenRun(t, q, [], 0);
    assert !Distinct(Heads(cs));
    RepeatingChainLoops(t, cs);
  }

  /**
   No call loops exactly when there is no way back of fewer than `MAX_DEPTH` hops each of which can
   be made with arguments of its own: those of one hop do not stand in the way of the next, but for
   the words that aliases put in front.
   */
  lemma NeverLoopsExactly(t: Table)
    ensures NeverLoops(t) <==> !exists q :: FreshWayBack(t, q)
  {
    if q :| FreshWayBack(t, q) {
      FreshWayBackLoops(t, q);
    }
    forall c | Expansion(t, [], c).Err? && Expansion(t, [], c).error.Loop? ensures exists q :: FreshWayBack(t, q) {
      LoopIsFreshWayBack(t, c);
    }
  }

  // ------------------------------------------------------------ where words do not matter

  /** The word names none of the first `front` arguments. */
  ghost predicate NamesBehind(w: string, front: nat) {
    forall i :: RefersBefore(w, |w|, i) ==> i >= front
  }

  /** Along `p`, no first word names one of the `front` arguments that aliases on the way have put in front. */
  ghost predicate OwnArguments(t: Table, p: seq<string>, front: nat) {
    |p| <= 1
    || (Edge(t, p[0]).Some? && NamesBehind(Edge(t, p[0]).value, front)
        && OwnArguments(t, p[1..], ArgsAfter(Words(t[p[0]]).value, front)))
  }

  lemma FreshHop(t: Table, a: string, b: string, front: seq<string>) returns (args: seq<string>)
    requires Spells(t, a, b) && NamesBehind(Edge(t, a).value, |front|)
    ensures front <= args && LeadsTo(t, a, b, args)
    ensures var words := Words(t[a]).value; |FrontAfter(words, args, front)| == ArgsAfter(words, |front|)
  {
    var few :| SpellsWith(t, a, b, few);
    var words, w := Words(t[a]).value, Edge(t, a).value;
    var wanted := few + seq(9, i => "");
    args := front + if |front| < |wanted| then wanted[|front|..] else [];
    forall i | RefersBefore(w, |w|, i) ensures i < |few| && i < |args| && args[i] == few[i] {
      assert RefersBefore([w][0], |w|, i) && Refers([w], i);
    }
    SpellsTheSame(w, args, few, |w|);
    RefersBelowNine(words);
    AgreeingHop(words, args, args);
    LeftoverCount(words, front, MarksOf(words));
  }

  /** Where every first word names arguments of the call itself, it is enough that each can be filled in. */
  lemma {:induction false} OwnIsFresh(t: Table, p: seq<string>, front: seq<string>)
    requires IsFilledWalk(t, p) && OwnArguments(t, p, |front|)
    ensures FreshWay(t, p, front)
    decreases |p|
  {
    if |p| > 1 {
      assert Spells(t, p[0], p[1]);
      var args := FreshHop(t, p[0], p[1], front);
      FilledSuffix(t, p, 1);
      OwnIsFresh(t, p[1..], FrontAfter(Words(t[p[0]]).value, args, front));
      assert FreshWith(t, p, front, args);
    }
  }

  lemma {:induction false} FreshIsFilled(t: Table, p: seq<string>, front: seq<string>)
    requires FreshWay(t, p, front) && p != []
    ensures IsFilledWalk(t, p)
    decreases |p|
  {
    if |p| > 1 {
      var args :| FreshWith(t, p, front, args);
      HopSpells(t, Call(p[0], args), HopOf(t, Call(p[0], args)).call);
      FreshIsFilled(t, p[1..], FrontAfter(Words(t[p[0]]).value, args, front));
      forall i | 0 <= i < |p| - 1 ensures Spells(t, p[i], p[i + 1]) {
        assert i > 0 ==> Spells(t, p[1..][i - 1], p[1..][i]);
      }
    }
  }

  /** First words filled in lead from a name back to it, in fewer than `MAX_DEPTH` hops. */
  ghost predicate WayBack(t: Table, q: seq<string>) {
    2 <= |q| <= MAX_DEPTH && IsFilledWalk(t, q) && q[0] == q[|q| - 1]
  }

  /** Every way back on which first words name arguments of the call itself can be called so that it loops. */
  lemma OwnWayBackLoops(t: Table, q: seq<string>)
    requires WayBack(t, q) && OwnArguments(t, q, 0)
    ensures !NeverLoops(t)
  {
    OwnIsFresh(t, q, []);
    FreshWayBackLoops(t, q);
  }

  lemma {:induction false} SingleWordsAreOwn(t: Table, p: seq<string>)
    requires forall a :: Edge(t, a).Some? ==> |Words(t[a]).value| == 1
    requires IsFilledWalk(t, p)
    ensures OwnArguments(t, p, 0)
  {
    if |p| > 1 {
      assert Spells(t, p[0], p[1]);
      FilledSuffix(t, p, 1);
      SingleWordsAreOwn(t, p[1..]);
    }
  }

  /** Aliases that are single words put nothing in front, so each hop can be looked at alone. */
  lemma SingleWordsNeverLoop(t: Table)
    requires forall a :: Edge(t, a).Some? ==> |Words(t[a]).value| == 1
    ensures NeverLoops(t) <==> !exists q :: WayBack(t, q)
  {
    forall q ensures FreshWayBack(t, q) <==> WayBack(t, q) {
      if FreshWayBack(t, q) {
        FreshIsFilled(t, q, []);
      }
      if WayBack(t, q) {
        SingleWordsAreOwn(t, q);
        OwnIsFresh(t, q, []);
      }
    }
    NeverLoopsExactly(t);
  }

  /** No call loops when filling first words in never leads back at all: it does not matter which placeholders they hold. */
  lemma FilledAcyclicNeverLoops(t: Table)
    requires FilledAcyclic(t)
    ensures NeverLoops(t)
  {
    forall q ensures !FreshWayBack(t, q) {
      if FreshWayBack(t, q) {
        FreshIsFilled(t, q, []);
      }
    }
    NeverLoopsExactly(t);
  }

  /** First words without placeholders spell what they are, and nothing else. */
  lemma PlainHeadsSpell(t: Table, a: string, b: string)
    requires PlainHeads(t)
    ensures Spells(t, a, b) <==> Edge(t, a) == Some(b)
  {
    if args :| SpellsWith(t, a, b, args) {
      var w := Edge(t, a).value;
      NoRefsVerbatim(w, args, |w|);
      assert w[..|w|] == w;
    }
    if Edge(t, a) == Some(b) {
      NoRefsVerbatim(b, [], |b|);
      assert b[..|b|] == b;
      assert SpellsWith(t, a, b, []);
    }
  }

  /** So on tables of such words the two conditions are one. */
  lemma PlainIsFilledAcyclic(t: Table)
    requires PlainHeads(t)
    ensures FilledAcyclic(t) <==> Acyclic(t)
  {
    forall p ensures IsFilledWalk(t, p) <==> IsWalk(t, p) {
      PlainWalks(t, p);
    }
  }

  lemma PlainWalks(t: Table, p: seq<string>)
    requires PlainHeads(t)
    ensures IsFilledWalk(t, p) <==> IsWalk(t, p)
  {
    forall i | 0 <= i < |p| - 1 ensures Spells(t, p[i], p[i + 1]) <==> Edge(t, p[i]) == Some(p[i + 1]) {
      PlainHeadsSpell(t, p[i], p[i + 1]);
    }
  }
}
