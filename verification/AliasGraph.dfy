/**
 The first-word graph of an alias table: every alias points at the first word of its expansion.
 `find_cycle` walks it before an alias is stored.
 */
module AliasGraph {
  import opened Wrappers
  import opened Sequences
  import opened AliasSplit
  import opened AliasSubstitute
  import opened AliasExpand

  /** The word alias `a` points at; none when `a` is no alias or its expansion has no first word. */
  ghost function Edge(t: Table, a: string): Option<string> {
    if a !in t then None
    else match Words(t[a])
      case Err(_) => None
      case Ok(words) => if words == [] then None else Some(words[0])
  }

  ghost predicate IsWalk(t: Table, p: seq<string>) {
    p != [] && forall i :: 0 <= i < |p| - 1 ==> Edge(t, p[i]) == Some(p[i + 1])
  }

  ghost predicate Acyclic(t: Table) {
    forall p :: IsWalk(t, p) && |p| >= 2 ==> p[0] != p[|p| - 1]
  }

  /** A walk from `a` that cannot be continued. */
  ghost predicate SettlesVia(t: Table, a: string, p: seq<string>) {
    IsWalk(t, p) && p[0] == a && Edge(t, p[|p| - 1]).None?
  }

  lemma {:induction false} WalksAgree(t: Table, p: seq<string>, q: seq<string>)
    requires IsWalk(t, p) && IsWalk(t, q) && p[0] == q[0] && |p| <= |q|
    ensures p <= q
  {
    var n := |p| - 1;
    if n > 0 {
      WalksAgree(t, p[..n], q);
      assert Edge(t, p[n - 1]) == Some(p[n]) && Edge(t, q[n - 1]) == Some(q[n]);
      assert p[..n][n - 1] == q[n - 1];
      assert p == p[..n] + [p[n]];
    }
  }

  /** A walk that settles is the longest one from its start. */
  lemma SettledIsLongest(t: Table, a: string, p: seq<string>, q: seq<string>)
    requires SettlesVia(t, a, p) && IsWalk(t, q) && q[0] == a
    ensures |q| <= |p|
  {
    if |q| > |p| {
      assert Edge(t, q[|p| - 1]) == Some(q[|p|]);
      WalksAgree(t, p, q);
    }
  }

  /** Around a cycle one can walk as far as one likes, from any name on it. */
  lemma {:induction false} CycleWalk(t: Table, q: seq<string>, k: nat, hops: nat) returns (w: seq<string>, j: nat)
    requires IsWalk(t, q) && |q| >= 2 && q[0] == q[|q| - 1] && k < |q| - 1
    ensures IsWalk(t, w) && w[0] == q[k] && |w| == hops + 1
    ensures j < |q| - 1 && w[hops] == q[j]
  {
    if hops == 0 {
      w, j := [q[k]], k;
    } else {
      w, j := CycleWalk(t, q, k, hops - 1);
      w := w + [q[j + 1]];
      j := if j + 1 == |q| - 1 then 0 else j + 1;
    }
  }

  /** A name from which the walk settles lies on no cycle. */
  lemma SettledOffCycle(t: Table, a: string, p: seq<string>, q: seq<string>)
    requires SettlesVia(t, a, p)
    requires IsWalk(t, q) && |q| >= 2 && q[0] == q[|q| - 1]
    ensures a !in q
  {
    if a in q {
      var k :| 0 <= k < |q| && q[k] == a;
      var w, _ := CycleWalk(t, q, if k == |q| - 1 then 0 else k, |p|);
      SettledIsLongest(t, a, p, w);
    }
  }

  lemma SuffixIsWalk(t: Table, p: seq<string>, k: nat)
    requires IsWalk(t, p) && k < |p|
    ensures IsWalk(t, p[k..]) && p[k..][|p| - k - 1] == p[|p| - 1]
  {
  }

  /** A walk that settles never meets a name twice. */
  lemma SettledIsDistinct(t: Table, a: string, p: seq<string>)
    requires SettlesVia(t, a, p)
    ensures Distinct(p)
  {
    forall i, j | 0 <= i < j < |p| ensures p[i] != p[j] {
      if p[i] == p[j] {
        var q := p[i..j + 1];
        assert q[0] == p[i] && p[i] in q;
        SuffixIsWalk(t, p, i);
        SettledOffCycle(t, p[i], p[i..], q);
      }
    }
  }

  /** Redefining one name keeps the graph acyclic when the walk from that name settles. */
  lemma UpdateKeepsAcyclic(t: Table, name: string, expansion: string, p: seq<string>)
    requires Acyclic(t)
    requires SettlesVia(t[name := expansion], name, p)
    ensures Acyclic(t[name := expansion])
  {
    var after := t[name := expansion];
    forall q | IsWalk(after, q) && |q| >= 2 ensures q[0] != q[|q| - 1] {
      if q[0] == q[|q| - 1] {
        SettledOffCycle(after, name, p, q);
        WalkElsewhere(t, name, expansion, q);
      }
    }
  }

  /** Redefining one name keeps the graph acyclic when `find_cycle` finds nothing from that name. */
  lemma CheckedUpdateIsAcyclic(t: Table, name: string, expansion: string)
    requires Acyclic(t) && CycleFrom(t[name := expansion], [name]).None?
    ensures Acyclic(t[name := expansion])
  {
    FindCycleMeaning(t[name := expansion], name);
    var p :| SettlesVia(t[name := expansion], name, p);
    UpdateKeepsAcyclic(t, name, expansion, p);
  }

  lemma WalkElsewhere(t: Table, name: string, expansion: string, q: seq<string>)
    requires IsWalk(t[name := expansion], q) && name !in q
    ensures IsWalk(t, q)
  {
  }

  lemma RemovalKeepsAcyclic(t: Table, name: string)
    requires Acyclic(t)
    ensures Acyclic(t - {name})
  {
    forall q | IsWalk(t - {name}, q) && |q| >= 2 ensures q[0] != q[|q| - 1] {
      assert IsWalk(t, q);
    }
  }

  // -------------------------------------------------------------------- find_cycle

  /** What `find_cycle` reports once it has walked `chain`. */
  ghost function CycleFrom(t: Table, chain: seq<string>): Option<seq<string>>
    requires 1 <= |chain| <= MAX_DEPTH + 2
    decreases MAX_DEPTH + 2 - |chain|
  {
    if |chain| == MAX_DEPTH + 2 then Some(chain)
    else match Edge(t, chain[|chain| - 1])
      case None => None
      case Some(next) =>
        if next in chain then Some(chain + [next]) else CycleFrom(t, chain + [next])
  }

  method FindCycle(start: string, t: Table) returns (r: Option<seq<string>>)
    ensures r == CycleFrom(t, [start])
  {
    var chain := [start];
    var head := start;
    for round := 0 to MAX_DEPTH + 1
      invariant |chain| == round + 1 && chain[round] == head
      invariant CycleFrom(t, chain) == CycleFrom(t, [start])
    {
      if head !in t {
        return None;
      }
      var words := Split(t[head]);
      if words.Err? || words.value == [] {
        return None;
      }
      var next := words.value[0];
      if next in chain {
        return Some(chain + [next]);
      }
      chain := chain + [next];
      head := next;
    }
    return Some(chain);
  }

  /**
   `find_cycle` finds nothing exactly when the walk settles within `MAX_DEPTH` hops. What it
   reports otherwise is a walk that meets a name again, or that is still going after one hop more.
   */
  lemma {:induction false} CycleFromMeaning(t: Table, chain: seq<string>)
    requires IsWalk(t, chain) && |chain| <= MAX_DEPTH + 2 && Distinct(chain)
    ensures match CycleFrom(t, chain)
            case None => exists p :: SettlesVia(t, chain[0], p) && |p| <= MAX_DEPTH + 1
            case Some(c) =>
              && chain <= c && IsWalk(t, c)
              && (|c| == MAX_DEPTH + 2 || c[|c| - 1] in c[..|c| - 1])
    decreases MAX_DEPTH + 2 - |chain|
  {
    if |chain| < MAX_DEPTH + 2 {
      match Edge(t, chain[|chain| - 1])
      case None => assert SettlesVia(t, chain[0], chain);
      case Some(next) =>
        var longer := chain + [next];
        assert longer[..|chain|] == chain;
        assert IsWalk(t, longer);
        if next !in chain {
          CycleFromMeaning(t, longer);
        }
    }
  }

  lemma FindCycleMeaning(t: Table, start: string)
    ensures CycleFrom(t, [start]).None? <==> exists p :: SettlesVia(t, start, p) && |p| <= MAX_DEPTH + 1
  {
    CycleFromMeaning(t, [start]);
    if CycleFrom(t, [start]).Some? {
      var c := CycleFrom(t, [start]).value;
      forall p | SettlesVia(t, start, p) ensures |p| > MAX_DEPTH + 1 {
        SettledIsLongest(t, start, p, c);
        if |p| <= MAX_DEPTH + 1 {
          WalksAgree(t, c, p);
          SettledIsDistinct(t, start, p);
        }
      }
    }
  }

  /** The check and any walk that settles agree. */
  lemma CycleFromWalk(t: Table, start: string, p: seq<string>)
    requires SettlesVia(t, start, p)
    ensures CycleFrom(t, [start]).None? <==> |p| <= MAX_DEPTH + 1
  {
    FindCycleMeaning(t, start);
    forall q | SettlesVia(t, start, q) ensures |q| == |p| {
      SettledIsLongest(t, start, p, q);
      SettledIsLongest(t, start, q, p);
    }
  }

  // -------------------------------------------------- the graph and the run-time chain

  /** No alias points at a word with a placeholder in it. */
  ghost predicate PlainHeads(t: Table) {
    forall a :: Edge(t, a).Some? ==> NoRefs(Edge(t, a).value)
  }

  /** Without a placeholder in the first word, the hop of an expansion follows the edge. */
  lemma HopFollowsEdge(t: Table, c: Call, d: Call)
    requires HopOf(t, c) == Next(d)
    requires Edge(t, c.head).Some? ==> NoRefs(Edge(t, c.head).value)
    ensures Edge(t, c.head) == Some(d.head)
  {
    var words := Words(t[c.head]).value;
    assert words != [] by {
      assert |Substituted(words, c.args).value.words| == |words|;
    }
    assert Edge(t, c.head) == Some(words[0]);
    NoRefsVerbatim(words[0], c.args, |words[0]|);
    assert words[0][..|words[0]|] == words[0];
  }

  lemma ChainIsWalk(t: Table, cs: seq<Call>)
    requires IsChain(t, cs) && PlainHeads(t)
    ensures IsWalk(t, Heads(cs))
  {
    forall i | 0 <= i < |cs| - 1 ensures Edge(t, Heads(cs)[i]) == Some(Heads(cs)[i + 1]) {
      HopFollowsEdge(t, cs[i], cs[i + 1]);
    }
  }

  /** On an acyclic table whose first words hold no placeholder, no expansion reports a loop. */
  lemma AcyclicNeverLoops(t: Table, c: Call)
    requires Acyclic(t) && PlainHeads(t)
    ensures Expansion(t, [], c).Err? ==> !Expansion(t, [], c).error.Loop?
  {
    var cs := ExpansionExplained(t, c);
    NoLoopOnWalk(t, cs, Expansion(t, [], c));
  }

  lemma NoLoopOnWalk(t: Table, cs: seq<Call>, r: Result<seq<string>, ExpandError>)
    requires Acyclic(t) && PlainHeads(t) && IsChain(t, cs) && HasOutcome(t, cs, r)
    ensures r.Err? ==> !r.error.Loop?
  {
    var n := |cs| - 1;
    ChainIsWalk(t, cs);
    WalkIsNew(t, Heads(cs));
    assert Heads(cs)[..n] == Heads(cs[..n]);
  }

  /** On an acyclic table the last name of a walk has not been met before. */
  lemma WalkIsNew(t: Table, p: seq<string>)
    requires Acyclic(t) && IsWalk(t, p)
    ensures p[|p| - 1] !in p[..|p| - 1]
  {
    forall k | 0 <= k < |p| - 1 ensures p[k] != p[|p| - 1] {
      SuffixIsWalk(t, p, k);
    }
  }
}
