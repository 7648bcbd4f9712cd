/**
 How far an expansion gets: the number of arguments left after every hop depends only on the table
 and on how many there were, and so does what the call comes to.
 */
module AliasDepth {
  import opened Wrappers
  import opened AliasSplit
  import opened AliasSubstitute
  import opened AliasExpand
  import opened AliasGraph

  /** How many of the first `n` arguments the words name. */
  ghost function Named(words: seq<string>, n: nat): (r: nat)
    ensures r <= n
  {
    if n == 0 then 0 else Named(words, n - 1) + if Refers(words, n - 1) then 1 else 0
  }

  lemma {:induction false} AtMostNineNamed(words: seq<string>, n: nat)
    ensures Named(words, n) <= 9
    ensures n >= 9 ==> Named(words, n) == Named(words, 9)
  {
    if n > 9 {
      AtMostNineNamed(words, n - 1);
      RefersBelowNine(words);
    }
  }

  lemma {:induction false} LeftoverCount(words: seq<string>, args: seq<string>, used: seq<bool>)
    requires Marks(used, words)
    ensures |Leftovers(args, used)| == |args| - Named(words, |args|)
  {
    if args != [] {
      var last := |args| - 1;
      LeftoverCount(words, args[..last], used);
      RefersBelowNine(words);
      assert (last < |used| && used[last]) <==> Refers(words, last);
    }
  }

  /** The words name an argument beyond the first `n`. */
  ghost predicate Short(words: seq<string>, n: nat) {
    exists i :: i >= n && Refers(words, i)
  }

  /** How many arguments a call of `n` arguments hands on. */
  ghost function ArgsAfter(words: seq<string>, n: nat): nat
    requires words != []
  {
    |words| - 1 + n - Named(words, n)
  }

  /** Called with `n` arguments, one of the first `hops` aliases on the way from `a` lacks one. */
  ghost predicate RunsShort(t: Table, a: string, n: nat, hops: nat)
    decreases hops
  {
    hops > 0 && Edge(t, a).Some?
    && (Short(Words(t[a]).value, n)
        || RunsShort(t, Edge(t, a).value, ArgsAfter(Words(t[a]).value, n), hops - 1))
  }

  /** One hop, seen from outside: whether it can be made, where to, and with how many arguments. */
  lemma HopCounts(t: Table, c: Call)
    requires Edge(t, c.head).Some? && NoRefs(Edge(t, c.head).value)
    ensures var words := Words(t[c.head]).value;
            if Short(words, |c.args|) then HopOf(t, c).Stuck? && HopOf(t, c).error.TooFewArguments?
            else
              && HopOf(t, c).Next? && HopOf(t, c).call.head == words[0]
              && |HopOf(t, c).call.args| == ArgsAfter(words, |c.args|)
  {
    var words := Words(t[c.head]).value;
    SubstituteFails(words, c.args);
    assert Short(words, |c.args|) <==> Missing(words, c.args);
    if Substituted(words, c.args).Ok? {
      var o := Substituted(words, c.args).value;
      assert |o.words| == |words|;
      HopFollowsEdge(t, c, HopOf(t, c).call);
      LeftoverCount(words, c.args, MarksOf(words));
    }
  }

  /** The hops an expansion makes along `p` before it ends or gives up. */
  function Hops(p: seq<string>, left: nat): nat {
    if |p| == 0 then 0 else if |p| - 1 <= left then |p| - 1 else left
  }

  /** What becomes of a call that gets to the end of its walk. */
  ghost predicate EndsAt(t: Table, r: Result<seq<string>, ExpandError>, last: string) {
    if last in t then r.Err? && (r.error.Unsplittable? || r.error.ExpandsToNothing?)
    else r.Ok? && r.value != [] && r.value[0] == last
  }

  /** The outcome, from the walk and the number of arguments, with `left` rounds to go. */
  ghost predicate ComesTo(t: Table, r: Result<seq<string>, ExpandError>, p: seq<string>, n: nat, left: nat) {
    p != []
    && if RunsShort(t, p[0], n, Hops(p, left)) then r.Err? && r.error.TooFewArguments?
       else if |p| > left then r == Err(TooDeep)
       else EndsAt(t, r, p[|p| - 1])
  }

  lemma EndOfWalk(t: Table, seen: seq<string>, c: Call)
    requires |seen| < MAX_DEPTH && c.head !in seen && Edge(t, c.head).None?
    ensures EndsAt(t, Expansion(t, seen, c), c.head)
  {
    if c.head in t && Words(t[c.head]).Ok? {
      SubstituteFails([], c.args);
      assert !Missing([], c.args);
    }
  }

  /** Along a walk that settles, the outcome is decided by the walk and the number of arguments. */
  lemma {:induction false} ExpansionAlong(t: Table, seen: seq<string>, c: Call, p: seq<string>)
    requires PlainHeads(t) && SettlesVia(t, c.head, p) && |seen| <= MAX_DEPTH
    requires forall i :: 0 <= i < |p| ==> p[i] !in seen
    ensures ComesTo(t, Expansion(t, seen, c), p, |c.args|, MAX_DEPTH - |seen|)
    decreases |p|
  {
    if |seen| < MAX_DEPTH {
      if |p| == 1 {
        EndOfWalk(t, seen, c);
      } else {
        assert Edge(t, p[0]) == Some(p[1]);
        HopCounts(t, c);
        if HopOf(t, c).Next? {
          var d := HopOf(t, c).call;
          NextOnWalk(t, seen, p);
          ExpansionAlong(t, seen + [c.head], d, p[1..]);
          OneHopMore(t, Expansion(t, seen, c), p, |c.args|, MAX_DEPTH - |seen|);
        }
      }
    }
  }

  lemma NextOnWalk(t: Table, seen: seq<string>, p: seq<string>)
    requires |p| > 1 && SettlesVia(t, p[0], p) && forall i :: 0 <= i < |p| ==> p[i] !in seen
    ensures SettlesVia(t, p[1], p[1..])
    ensures forall i :: 0 <= i < |p[1..]| ==> p[1..][i] !in seen + [p[0]]
  {
    SettledIsDistinct(t, p[0], p);
    SuffixIsWalk(t, p, 1);
  }

  lemma OneHopMore(t: Table, r: Result<seq<string>, ExpandError>, p: seq<string>, n: nat, left: nat)
    requires |p| > 1 && Edge(t, p[0]) == Some(p[1]) && left > 0
    requires !Short(Words(t[p[0]]).value, n)
    requires ComesTo(t, r, p[1..], ArgsAfter(Words(t[p[0]]).value, n), left - 1)
    ensures ComesTo(t, r, p, n, left)
  {
    assert Hops(p, left) == Hops(p[1..], left - 1) + 1;
    assert p[1..][|p| - 2] == p[|p| - 1];
  }

  /**
   What a call comes to, from its walk and the number of its arguments: an argument is missing, or
   there are `MAX_DEPTH` aliases in a row, or it gets to the end of the walk.
   */
  lemma CallOutcome(t: Table, c: Call, p: seq<string>)
    requires PlainHeads(t) && SettlesVia(t, c.head, p)
    ensures ComesTo(t, Expansion(t, [], c), p, |c.args|, MAX_DEPTH)
  {
    ExpansionAlong(t, [], c, p);
  }

  /** Nine arguments for every hop are always enough. */
  lemma {:induction false} NineForEveryHop(t: Table, a: string, n: nat, hops: nat)
    requires n >= 9 * hops
    ensures !RunsShort(t, a, n, hops)
    decreases hops
  {
    if hops > 0 && Edge(t, a).Some? {
      var words := Words(t[a]).value;
      RefersBelowNine(words);
      AtMostNineNamed(words, n);
      NineForEveryHop(t, Edge(t, a).value, ArgsAfter(words, n), hops - 1);
    }
  }

  ghost predicate CanBeTooDeep(t: Table, a: string) {
    exists args :: Expansion(t, [], Call(a, args)) == Err(TooDeep)
  }

  /**
   `find_cycle` allows `MAX_DEPTH` hops and `expand_words` fewer than that: some call of an alias is
   too deep exactly when its walk has `MAX_DEPTH` hops or more, whatever its placeholders.
   */
  lemma TooDeepExactly(t: Table, a: string, p: seq<string>)
    requires PlainHeads(t) && SettlesVia(t, a, p)
    ensures CanBeTooDeep(t, a) <==> |p| > MAX_DEPTH
  {
    var args := seq(9 * MAX_DEPTH, i => "");
    NineForEveryHop(t, a, |args|, Hops(p, MAX_DEPTH));
    forall b: seq<string> ensures ComesTo(t, Expansion(t, [], Call(a, b)), p, |b|, MAX_DEPTH) {
      CallOutcome(t, Call(a, b), p);
    }
    assert |p| > MAX_DEPTH ==> Expansion(t, [], Call(a, args)) == Err(TooDeep);
  }
}
