/** The generated operation and group tables, and the lookups over them. */
module Lookup {
  import opened Wrappers
  import opened Text

  /** What the tables are keyed by; the rest of an operation does not matter here. */
  datatype Op = Op(group: string, command: string)

  /** A group's run of operations: `len` of them from index `first`. */
  datatype Group = Group(name: string, first: nat, len: nat)

  function OpKey(o: Op): (string, string) {
    (o.group, o.command)
  }

  function OpKeys(ops: seq<Op>): seq<(string, string)> {
    seq(|ops|, i requires 0 <= i < |ops| => OpKey(ops[i]))
  }

  function GroupNames(groups: seq<Group>): seq<string> {
    seq(|groups|, i requires 0 <= i < |groups| => groups[i].name)
  }

  // ----------------------------------------------------------------- binary search

  function BinarySearch<K(==)>(less: (K, K) -> bool, keys: seq<K>, key: K, lo: nat, hi: nat): Option<nat>
    requires lo <= hi <= |keys|
    decreases hi - lo
  {
    if lo == hi then None
    else
      var mid := (lo + hi) / 2;
      if keys[mid] == key then Some(mid)
      else if less(keys[mid], key) then BinarySearch(less, keys, key, mid + 1, hi)
      else BinarySearch(less, keys, key, lo, mid)
  }

  ghost predicate TotalOrder<K(!new)>(less: (K, K) -> bool) {
    && (forall a, b :: less(a, b) ==> a != b && !less(b, a))
    && (forall a, b :: a != b ==> less(a, b) || less(b, a))
    && (forall a, b, c :: less(a, b) && less(b, c) ==> less(a, c))
  }

  /** Every neighbour is strictly smaller than the next, as the tests of the tables check. */
  predicate Ascending<K>(less: (K, K) -> bool, keys: seq<K>) {
    forall i :: 0 <= i < |keys| - 1 ==> less(keys[i], keys[i + 1])
  }

  lemma {:induction false} AscendingMeaning<K(!new)>(less: (K, K) -> bool, keys: seq<K>, i: nat, j: nat)
    requires TotalOrder(less) && Ascending(less, keys)
    requires i < j < |keys|
    ensures less(keys[i], keys[j])
    decreases j
  {
    if i < j - 1 {
      AscendingMeaning(less, keys, i, j - 1);
      assert less(keys[j - 1], keys[j - 1 + 1]);
    }
  }

  /** Which is to say that every element is strictly smaller than all behind it. */
  lemma AscendingExactly<K(!new)>(less: (K, K) -> bool, keys: seq<K>)
    requires TotalOrder(less)
    ensures Ascending(less, keys) <==> forall i, j :: 0 <= i < j < |keys| ==> less(keys[i], keys[j])
  {
    if Ascending(less, keys) {
      forall i, j | 0 <= i < j < |keys| ensures less(keys[i], keys[j]) {
        AscendingMeaning(less, keys, i, j);
      }
    }
  }

  /** Where `key` cannot be, judging by one element. */
  lemma RulesOut<K(!new)>(less: (K, K) -> bool, keys: seq<K>, key: K, mid: nat, i: nat)
    requires TotalOrder(less) && Ascending(less, keys)
    requires mid < |keys| && i < |keys| && keys[mid] != key
    requires if less(keys[mid], key) then i <= mid else mid <= i
    ensures keys[i] != key
  {
    if i < mid {
      AscendingMeaning(less, keys, i, mid);
    } else if mid < i {
      AscendingMeaning(less, keys, mid, i);
    }
  }

  lemma {:induction false} SearchResult<K(!new)>(less: (K, K) -> bool, keys: seq<K>, key: K, lo: nat, hi: nat)
    requires TotalOrder(less) && Ascending(less, keys)
    requires lo <= hi <= |keys|
    ensures match BinarySearch(less, keys, key, lo, hi)
            case Some(i) => i < |keys| && keys[i] == key
            case None => forall i :: lo <= i < hi ==> keys[i] != key
    decreases hi - lo
  {
    if lo < hi {
      var mid := (lo + hi) / 2;
      if keys[mid] != key {
        var below := less(keys[mid], key);
        forall i: nat | if below then lo <= i <= mid else mid <= i < hi ensures keys[i] != key {
          RulesOut(less, keys, key, mid, i);
        }
        if below {
          SearchResult(less, keys, key, mid + 1, hi);
        } else {
          SearchResult(less, keys, key, lo, mid);
        }
      }
    }
  }

  /** Binary search over a strictly ascending table finds a key exactly where it stands. */
  lemma BinarySearchMeaning<K(!new)>(less: (K, K) -> bool, keys: seq<K>, key: K, i: nat)
    requires TotalOrder(less) && Ascending(less, keys)
    ensures BinarySearch(less, keys, key, 0, |keys|) == Some(i) <==> i < |keys| && keys[i] == key
    ensures BinarySearch(less, keys, key, 0, |keys|).None? <==> key !in keys
  {
    SearchResult(less, keys, key, 0, |keys|);
    var r := BinarySearch(less, keys, key, 0, |keys|);
    if i < |keys| && keys[i] == key && r.Some? && r.value != i {
      var j, k := if i < r.value then i else r.value, if i < r.value then r.value else i;
      AscendingMeaning(less, keys, j, k);
    }
  }

  lemma StringOrder()
    ensures TotalOrder(Less)
  {
    forall a, b ensures (Less(a, b) ==> a != b && !Less(b, a)) && (a != b ==> Less(a, b) || Less(b, a)) {
      LessTrichotomy(a, b);
    }
    forall a, b, c | Less(a, b) && Less(b, c) ensures Less(a, c) {
      LessTransitive(a, b, c);
    }
  }

  /** The order of `(group, command)` pairs. */
  function ByPair(): ((string, string), (string, string)) -> bool {
    (a, b) => PairLess(a, b)
  }

  lemma PairOrder()
    ensures TotalOrder(ByPair())
  {
    var less := ByPair();
    forall a, b ensures (less(a, b) ==> a != b && !less(b, a)) && (a != b ==> less(a, b) || less(b, a)) {
      PairTrichotomy(a, b);
    }
    forall a, b, c | less(a, b) && less(b, c) ensures less(a, c) {
      PairTransitive(a, b, c);
    }
  }

  // ----------------------------------------------------------------------- lookups

  /** `lookup::op`, as an index. */
  function FindOp(ops: seq<Op>, group: string, command: string): Option<nat> {
    BinarySearch(ByPair(), OpKeys(ops), (group, command), 0, |ops|)
  }

  /** `lookup::group`, as an index. */
  function FindGroup(groups: seq<Group>, name: string): Option<nat> {
    BinarySearch(Less, GroupNames(groups), name, 0, |groups|)
  }

  function TotalLength(groups: seq<Group>): nat {
    if groups == [] then 0 else groups[0].len + TotalLength(groups[1..])
  }

  predicate InRun(g: Group, i: nat) {
    g.first <= i < g.first + g.len
  }

  /** What the generated tables promise. */
  predicate WellFormed(ops: seq<Op>, groups: seq<Group>) {
    && Ascending(ByPair(), OpKeys(ops))
    && Ascending(Less, GroupNames(groups))
    && TotalLength(groups) == |ops|
    && forall g :: g in groups ==> OwnRun(ops, g)
  }

  /** A group's run lies within the table and holds only operations of the group. */
  predicate OwnRun(ops: seq<Op>, g: Group) {
    g.first + g.len <= |ops| && forall i: nat :: i < |ops| && InRun(g, i) ==> ops[i].group == g.name
  }

  lemma FindGroupMeaning(groups: seq<Group>, name: string, k: nat)
    requires Ascending(Less, GroupNames(groups))
    ensures FindGroup(groups, name) == Some(k) <==> k < |groups| && groups[k].name == name
    ensures FindGroup(groups, name).Some? ==> FindGroup(groups, name).value < |groups|
  {
    StringOrder();
    BinarySearchMeaning(Less, GroupNames(groups), name, k);
    SearchResult(Less, GroupNames(groups), name, 0, |groups|);
  }

  lemma FindOpMeaning(ops: seq<Op>, group: string, command: string, i: nat)
    requires Ascending(ByPair(), OpKeys(ops))
    ensures FindOp(ops, group, command) == Some(i) <==> i < |ops| && ops[i] == Op(group, command)
    ensures FindOp(ops, group, command).Some? <==> Op(group, command) in ops
    ensures FindOp(ops, group, command).Some? ==> FindOp(ops, group, command).value < |ops|
  {
    PairOrder();
    var keys, key := OpKeys(ops), (group, command);
    BinarySearchMeaning(ByPair(), keys, key, i);
    SearchResult(ByPair(), keys, key, 0, |ops|);
    if Op(group, command) in ops {
      var n: nat :| n < |ops| && ops[n] == Op(group, command);
      assert keys[n] == key;
    }
  }

  // --------------------------------------------------------------- the runs partition

  function Indices(first: nat, len: nat): (r: set<nat>)
    ensures forall i: nat :: i in r <==> first <= i < first + len
    ensures |r| == len
  {
    if len == 0 then {} else Indices(first, len - 1) + {first + len - 1}
  }

  function Covered(groups: seq<Group>): set<nat> {
    if groups == [] then {} else Indices(groups[0].first, groups[0].len) + Covered(groups[1..])
  }

  lemma {:induction false} CoveredOrigin(groups: seq<Group>, i: nat)
    ensures i in Covered(groups) <==> exists k: nat :: k < |groups| && InRun(groups[k], i)
  {
    if groups != [] {
      CoveredOrigin(groups[1..], i);
      if i in Covered(groups[1..]) {
        var k: nat :| k < |groups[1..]| && InRun(groups[1..][k], i);
        assert InRun(groups[k + 1], i);
      }
      if k: nat :| k < |groups| && InRun(groups[k], i) {
        assert k > 0 ==> InRun(groups[1..][k - 1], i);
      }
    }
  }

  ghost predicate RunsDisjoint(groups: seq<Group>) {
    forall j, k, i: nat :: 0 <= j < k < |groups| && InRun(groups[j], i) ==> !InRun(groups[k], i)
  }

  lemma {:induction false} CoveredSize(groups: seq<Group>)
    requires RunsDisjoint(groups)
    ensures |Covered(groups)| == TotalLength(groups)
  {
    if groups != [] {
      var head, rest := Indices(groups[0].first, groups[0].len), groups[1..];
      assert RunsDisjoint(rest) by {
        forall j, k, i: nat | 0 <= j < k < |rest| && InRun(rest[j], i) ensures !InRun(rest[k], i) {
          assert rest[j] == groups[j + 1] && rest[k] == groups[k + 1];
        }
      }
      CoveredSize(rest);
      forall i: nat | i in Covered(rest) ensures i !in head {
        CoveredOrigin(rest, i);
        var k: nat :| k < |rest| && InRun(rest[k], i);
        assert InRun(groups[k + 1], i);
        assert !InRun(groups[0], i);
      }
      assert head !! Covered(rest);
    }
  }

  lemma RunsAreDisjoint(ops: seq<Op>, groups: seq<Group>)
    requires WellFormed(ops, groups)
    ensures RunsDisjoint(groups)
  {
    StringOrder();
    var names := GroupNames(groups);
    forall j, k, i: nat | 0 <= j < k < |groups| && InRun(groups[j], i) ensures !InRun(groups[k], i) {
      AscendingMeaning(Less, names, j, k);
      assert groups[j] in groups && groups[k] in groups;
      assert names[j] == groups[j].name && names[k] == groups[k].name;
      assert OwnRun(ops, groups[j]) && OwnRun(ops, groups[k]);
      assert ops[i].group == groups[j].name;
    }
  }

  lemma SameSize<T>(a: set<T>, b: set<T>)
    requires a <= b && |a| == |b|
    ensures a == b
  {
    assert b == a + (b - a);
  }

  /** Every operation lies in the run of exactly one group, the one it names. */
  lemma RunsPartition(ops: seq<Op>, groups: seq<Group>, i: nat)
    requires WellFormed(ops, groups) && i < |ops|
    ensures exists k: nat :: k < |groups| && InRun(groups[k], i) && groups[k].name == ops[i].group
    ensures forall j: nat, k: nat :: j < |groups| && k < |groups| && InRun(groups[j], i) && InRun(groups[k], i) ==> j == k
  {
    RunsAreDisjoint(ops, groups);
    CoveredSize(groups);
    forall n: nat | n in Covered(groups) ensures n in Indices(0, |ops|) {
      CoveredOrigin(groups, n);
      var k: nat :| k < |groups| && InRun(groups[k], n);
      assert OwnRun(ops, groups[k]);
    }
    SameSize(Covered(groups), Indices(0, |ops|));
    CoveredOrigin(groups, i);
    var k: nat :| k < |groups| && InRun(groups[k], i);
    assert OwnRun(ops, groups[k]);
  }

  /** The run of a group is all of its operations, and only those. */
  lemma RunIsWholeGroup(ops: seq<Op>, groups: seq<Group>, k: nat, i: nat)
    requires WellFormed(ops, groups) && k < |groups| && i < |ops|
    ensures InRun(groups[k], i) <==> ops[i].group == groups[k].name
  {
    assert OwnRun(ops, groups[k]);
    RunsPartition(ops, groups, i);
    var j: nat :| j < |groups| && InRun(groups[j], i) && groups[j].name == ops[i].group;
    if groups[j].name == groups[k].name {
      FindGroupMeaning(groups, groups[k].name, j);
      FindGroupMeaning(groups, groups[k].name, k);
    }
  }

  // ------------------------------------------------------------------ the command tree

  /** `ops_in`: the operations of a group, as a slice. */
  function OpsIn(ops: seq<Op>, g: Group): seq<Op>
    requires g.first + g.len <= |ops|
  {
    ops[g.first..g.first + g.len]
  }

  /** The `(group, command)` pairs of a slice of the table. */
  function Leaves(g: Group, ops: seq<Op>): seq<(string, string)> {
    seq(|ops|, i requires 0 <= i < |ops| => (g.name, ops[i].command))
  }

  /** What a group's tree parses: the one leaf when it was named, and the whole group otherwise. */
  function GroupTree(ops: seq<Op>, g: Group, leaf: Option<string>): seq<(string, string)>
    requires OwnRun(ops, g)
  {
    var found := if leaf.None? then None else FindOp(ops, g.name, leaf.value);
    if found.Some? then [(g.name, leaf.value)] else Leaves(g, OpsIn(ops, g))
  }

  /** The pairs a built tree parses: none while the group is unknown, the group's otherwise. */
  function Offered(ops: seq<Op>, groups: seq<Group>, group: Option<string>, leaf: Option<string>): seq<(string, string)>
    requires WellFormed(ops, groups)
  {
    var k := if group.None? then None else FindGroup(groups, group.value);
    if k.Some? && k.value < |groups| then GroupTree(ops, groups[k.value], leaf) else []
  }

  lemma GroupTreeIsFound(ops: seq<Op>, g: Group, leaf: Option<string>, pair: (string, string))
    requires Ascending(ByPair(), OpKeys(ops)) && OwnRun(ops, g)
    requires pair in GroupTree(ops, g, leaf)
    ensures pair.0 == g.name && Op(pair.0, pair.1) in ops
  {
    if leaf.Some? && FindOp(ops, g.name, leaf.value).Some? {
      FindOpMeaning(ops, g.name, leaf.value, 0);
    } else {
      var slice := OpsIn(ops, g);
      var n: nat :| n < |slice| && pair == (g.name, slice[n].command);
      assert InRun(g, g.first + n) && ops[g.first + n] == slice[n];
    }
  }

  /** The lookup that follows parsing always succeeds, with the operation of exactly that name. */
  lemma ParsedIsFound(ops: seq<Op>, groups: seq<Group>, group: Option<string>, leaf: Option<string>, pair: (string, string))
    requires WellFormed(ops, groups) && pair in Offered(ops, groups, group, leaf)
    ensures exists i: nat :: FindOp(ops, pair.0, pair.1) == Some(i) && i < |ops| && ops[i] == Op(pair.0, pair.1)
  {
    FindGroupMeaning(groups, group.value, 0);
    var g := groups[FindGroup(groups, group.value).value];
    GroupTreeIsFound(ops, g, leaf, pair);
    var i: nat :| i < |ops| && ops[i] == Op(pair.0, pair.1);
    FindOpMeaning(ops, pair.0, pair.1, i);
  }

  lemma RunIsOffered(ops: seq<Op>, g: Group, i: nat, leaf: Option<string>)
    requires Ascending(ByPair(), OpKeys(ops)) && OwnRun(ops, g)
    requires i < |ops| && InRun(g, i) && leaf in {None, Some(ops[i].command)}
    ensures (g.name, ops[i].command) in GroupTree(ops, g, leaf)
  {
    FindOpMeaning(ops, g.name, ops[i].command, i);
    assert Leaves(g, OpsIn(ops, g))[i - g.first] == (g.name, ops[i].command);
  }

  /**
   A tree offers the operations of the group that was named, and of these the one that was named
   alone, if the table holds it.
   */
  lemma OfferedExactly(ops: seq<Op>, groups: seq<Group>, group: Option<string>, leaf: Option<string>, pair: (string, string))
    requires WellFormed(ops, groups)
    ensures pair in Offered(ops, groups, group, leaf) <==>
            && group == Some(pair.0) && Op(pair.0, pair.1) in ops
            && (leaf.Some? && Op(pair.0, leaf.value) in ops ==> pair.1 == leaf.value)
  {
    if leaf.Some? {
      FindOpMeaning(ops, pair.0, leaf.value, 0);
    }
    if pair in Offered(ops, groups, group, leaf) {
      FindGroupMeaning(groups, group.value, 0);
      var k := FindGroup(groups, group.value).value;
      FindGroupMeaning(groups, group.value, k);
      GroupTreeIsFound(ops, groups[k], leaf, pair);
    } else if group == Some(pair.0) && Op(pair.0, pair.1) in ops {
      TreeIsComplete(ops, groups, pair.0, pair.1, None);
      TreeIsComplete(ops, groups, pair.0, pair.1, Some(pair.1));
    }
  }

  /**
   A tree accepts the pair it was built for, pruned to it or to its group, exactly when the full
   table holds it.
   */
  lemma TreeIsComplete(ops: seq<Op>, groups: seq<Group>, group: string, command: string, leaf: Option<string>)
    requires WellFormed(ops, groups) && leaf in {None, Some(command)}
    ensures (group, command) in Offered(ops, groups, Some(group), leaf) <==> Op(group, command) in ops
  {
    if (group, command) in Offered(ops, groups, Some(group), leaf) {
      ParsedIsFound(ops, groups, Some(group), leaf, (group, command));
    }
    if Op(group, command) in ops {
      var i: nat :| i < |ops| && ops[i] == Op(group, command);
      RunsPartition(ops, groups, i);
      var k: nat :| k < |groups| && InRun(groups[k], i) && groups[k].name == group;
      FindGroupMeaning(groups, group, k);
      assert OwnRun(ops, groups[k]);
      RunIsOffered(ops, groups[k], i, leaf);
    }
  }
}
