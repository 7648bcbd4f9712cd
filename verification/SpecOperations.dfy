/** The operations of a specification, and what becomes of changes to them in a report. */
module SpecOperations {
  import opened Wrappers
  import opened Text
  import opened Json
  import opened SpecDiff

  const METHODS: seq<string> := ["get", "post", "put", "patch", "delete", "head", "options"]

  function UpperChar(c: char): char {
    if 'a' <= c <= 'z' then 'A' + (c - 'a') else c
  }

  function Upper(s: string): string {
    seq(|s|, i requires 0 <= i < |s| => UpperChar(s[i]))
  }

  /** The methods as requests name them. */
  lemma MethodNames(i: nat)
    requires i < |METHODS|
    ensures Upper(METHODS[i]) == ["GET", "POST", "PUT", "PATCH", "DELETE", "HEAD", "OPTIONS"][i]
  {
  }

  /** An operation, with the name it goes by in the report. */
  datatype Operation = Operation(display: string, op: Json)

  type Operations = map<string, Operation>

  /** `METHOD /path`. */
  function KeyOf(m: string, path: string): string {
    Upper(m) + " " + path
  }

  /** `METHOD /path (operationId)`. */
  function Display(key: string, op: Json): string {
    key + " (" + StrOf(op, "operationId") + ")"
  }

  // ------------------------------------------------------------- collecting operations

  function Paths(spec: Json): Table {
    Entries(Member(spec, "paths"))
  }

  predicate HasOp(paths: Table, m: string, path: string) {
    m in METHODS && path in paths && Member(paths[path], m).Some?
  }

  function OpAt(paths: Table, m: string, path: string): Operation
    requires HasOp(paths, m, path)
  {
    var op := Member(paths[path], m).value;
    Operation(Display(KeyOf(m, path), op), op)
  }

  /** What a table of operations must be: one entry for each method of each path, and nothing else. */
  ghost predicate Lists(ops: Operations, paths: Table, pairs: set<(string, string)>) {
    && (forall m, path :: (m, path) in pairs && HasOp(paths, m, path) ==>
          KeyOf(m, path) in ops && ops[KeyOf(m, path)] == OpAt(paths, m, path))
    && (forall k :: k in ops ==> exists m, path :: (m, path) in pairs && HasOp(paths, m, path) && k == KeyOf(m, path))
  }

  lemma MethodShape(m: string)
    requires m in METHODS
    ensures forall i :: 0 <= i < |m| ==> 'a' <= m[i] <= 'z'
  {
  }

  lemma KeyShape(m: string, path: string)
    requires forall i :: 0 <= i < |m| ==> 'a' <= m[i] <= 'z'
    ensures KeyOf(m, path)[|m|] == ' ' && forall i :: 0 <= i < |m| ==> KeyOf(m, path)[i] != ' '
  {
    assert forall i :: 0 <= i < |m| ==> KeyOf(m, path)[i] == UpperChar(m[i]);
  }

  /** A key tells its method and its path apart. */
  lemma KeysAreInjective(m: string, path: string, n: string, other: string)
    requires m in METHODS && n in METHODS && KeyOf(m, path) == KeyOf(n, other)
    ensures m == n && path == other
  {
    MethodShape(m);
    MethodShape(n);
    KeyShape(m, path);
    KeyShape(n, other);
    var a, b := KeyOf(m, path), KeyOf(n, other);
    assert |m| == |n|;
    forall i | 0 <= i < |m| ensures m[i] == n[i] {
      assert a[i] == UpperChar(m[i]) && b[i] == UpperChar(n[i]);
    }
    assert a[|m| + 1..] == path && b[|n| + 1..] == other;
  }

  lemma ListsOneMore(ops: Operations, paths: Table, pairs: set<(string, string)>, m: string, path: string)
    requires Lists(ops, paths, pairs) && m in METHODS && path in paths
    ensures HasOp(paths, m, path) ==> Lists(ops[KeyOf(m, path) := OpAt(paths, m, path)], paths, pairs + {(m, path)})
    ensures !HasOp(paths, m, path) ==> Lists(ops, paths, pairs + {(m, path)})
  {
    if HasOp(paths, m, path) {
      var key := KeyOf(m, path);
      var more := ops[key := OpAt(paths, m, path)];
      forall n, other | (n, other) in pairs + {(m, path)} && HasOp(paths, n, other)
        ensures KeyOf(n, other) in more && more[KeyOf(n, other)] == OpAt(paths, n, other)
      {
        if KeyOf(n, other) == key {
          KeysAreInjective(m, path, n, other);
        }
      }
      forall k | k in more
        ensures exists n, other :: (n, other) in pairs + {(m, path)} && HasOp(paths, n, other) && k == KeyOf(n, other)
      {
        if k != key {
          var n, other :| (n, other) in pairs && HasOp(paths, n, other) && k == KeyOf(n, other);
          assert (n, other) in pairs + {(m, path)};
        } else {
          assert (m, path) in pairs + {(m, path)};
        }
      }
    }
  }

  lemma ListsIsDetermined(a: Operations, b: Operations, paths: Table, pairs: set<(string, string)>)
    requires Lists(a, paths, pairs) && Lists(b, paths, pairs)
    ensures a == b
  {
    forall k | k in a || k in b ensures k in a && k in b && a[k] == b[k] {
      var m, path :| (m, path) in pairs && HasOp(paths, m, path) && k == KeyOf(m, path);
    }
  }

  function AllPairs(paths: Table): set<(string, string)> {
    set m, path | m in METHODS && path in paths :: (m, path)
  }

  /** The operations of a specification, one for each method of each path. */
  ghost predicate OperationsOf(ops: Operations, spec: Json) {
    Lists(ops, Paths(spec), AllPairs(Paths(spec)))
  }

  /** What has been looked at once the first `n` methods of `path` have been. */
  ghost predicate SeenAlso(seen: set<(string, string)>, before: set<(string, string)>, path: string, n: nat)
    requires n <= |METHODS|
  {
    forall m, p :: (m, p) in seen <==> (m, p) in before || (m in METHODS[..n] && p == path)
  }

  lemma OneMethodMore(seen: set<(string, string)>, before: set<(string, string)>, path: string, n: nat)
    requires n < |METHODS| && SeenAlso(seen, before, path, n)
    ensures METHODS[n] in METHODS && SeenAlso(seen + {(METHODS[n], path)}, before, path, n + 1)
  {
    assert METHODS[..n + 1] == METHODS[..n] + [METHODS[n]];
  }

  /** The inner loop: the operations of one path. */
  method CollectPath(paths: Table, path: string, ops: Operations, ghost before: set<(string, string)>)
    returns (all: Operations, ghost seen: set<(string, string)>)
    requires path in paths && Lists(ops, paths, before)
    ensures Lists(all, paths, seen) && SeenAlso(seen, before, path, |METHODS|)
  {
    all, seen := ops, before;
    for j := 0 to |METHODS|
      invariant SeenAlso(seen, before, path, j)
      invariant Lists(all, paths, seen)
    {
      OneMethodMore(seen, before, path, j);
      ListsOneMore(all, paths, seen, METHODS[j], path);
      if HasOp(paths, METHODS[j], path) {
        all := all[KeyOf(METHODS[j], path) := OpAt(paths, METHODS[j], path)];
      }
      seen := seen + {(METHODS[j], path)};
    }
  }

  ghost predicate SeenPaths(seen: set<(string, string)>, names: seq<string>) {
    forall m, p :: (m, p) in seen <==> m in METHODS && p in names
  }

  lemma OnePathMore(seen: set<(string, string)>, before: set<(string, string)>, keys: seq<string>, i: nat)
    requires i < |keys| && SeenPaths(before, keys[..i]) && SeenAlso(seen, before, keys[i], |METHODS|)
    ensures SeenPaths(seen, keys[..i + 1])
  {
    assert METHODS[..|METHODS|] == METHODS;
    assert keys[..i + 1] == keys[..i] + [keys[i]];
  }

  lemma AllSeen(seen: set<(string, string)>, paths: Table, keys: seq<string>)
    requires SeenPaths(seen, keys) && forall p :: p in keys <==> p in paths
    ensures seen == AllPairs(paths)
  {
    forall p ensures p in seen <==> p in AllPairs(paths) {
      assert p == (p.0, p.1);
    }
  }

  method CollectOperations(spec: Json) returns (ops: Operations)
    ensures OperationsOf(ops, spec)
  {
    var paths := Paths(spec);
    var keys := InOrder(paths.Keys);
    ops := map[];
    ghost var seen: set<(string, string)> := {};
    for i := 0 to |keys|
      invariant SeenPaths(seen, keys[..i])
      invariant Lists(ops, paths, seen)
    {
      ghost var before := seen;
      ops, seen := CollectPath(paths, keys[i], ops, seen);
      OnePathMore(seen, before, keys, i);
    }
    assert keys[..|keys|] == keys;
    AllSeen(seen, paths, keys);
  }

  // ------------------------------------------------------------ changes of operations

  function Displays(ops: Operations, keys: seq<string>): seq<string>
    requires forall k :: k in keys ==> k in ops
  {
    seq(|keys|, i requires 0 <= i < |keys| => ops[keys[i]].display)
  }

  predicate OpChanged(prior: Operations, next: Operations, k: string) {
    k in prior && k in next && prior[k].op != next[k].op
  }

  /** Changes are recorded under the new display name, in key order. */
  function ChangedOps(prior: Operations, next: Operations, keys: seq<string>, describe: DescribeOp): map<string, seq<Line>> {
    if keys == [] then map[]
    else
      var k := keys[|keys| - 1];
      var before := ChangedOps(prior, next, keys[..|keys| - 1], describe);
      if OpChanged(prior, next, k) then before[next[k].display := describe(prior[k].op, next[k].op)] else before
  }

  type DescribeOp = (Json, Json) -> seq<Line>

  function OpsSection(prior: Operations, next: Operations): Section {
    Section(Displays(next, InOrder(next.Keys - prior.Keys)), Displays(prior, InOrder(prior.Keys - next.Keys)),
            ChangedOps(prior, next, InOrder(prior.Keys), OperationLines))
  }

  method ChangedOperations(prior: Operations, next: Operations, keys: seq<string>) returns (changed: map<string, seq<Line>>)
    ensures changed == ChangedOps(prior, next, keys, OperationLines)
  {
    changed := map[];
    for i := 0 to |keys|
      invariant changed == ChangedOps(prior, next, keys[..i], OperationLines)
    {
      assert keys[..i + 1][..i] == keys[..i];
      var k := keys[i];
      if OpChanged(prior, next, k) {
        var lines := DiffOperation(prior[k].op, next[k].op);
        OperationLinesMeaning(prior[k].op, next[k].op);
        if lines != [] {
          changed := changed[next[k].display := lines];
        }
      }
    }
    assert keys[..|keys|] == keys;
  }

  method DiffOperations(prior: Operations, next: Operations) returns (s: Section)
    ensures s == OpsSection(prior, next)
  {
    var removed := OnlyIn(prior, next);
    var changed := ChangedOperations(prior, next, InOrder(prior.Keys));
    var added := OnlyIn(next, prior);
    s := Section(Displays(next, added), Displays(prior, removed), changed);
  }

  /** `keys` are, in order, those that the one table has and the other lacks. */
  ghost predicate OnlyThere(keys: seq<string>, there: Operations, here: Operations) {
    Increasing(keys) && forall k :: k in keys <==> k in there && k !in here
  }

  ghost predicate AreNamed(names: seq<string>, keys: seq<string>, ops: Operations)
    requires forall k :: k in keys ==> k in ops
  {
    |names| == |keys| && forall i :: 0 <= i < |keys| ==> names[i] == ops[keys[i]].display
  }

  /** Added are those of the new side alone, removed those of the old side alone, each under its display name and in key order. */
  lemma AddedAndRemoved(prior: Operations, next: Operations) returns (added: seq<string>, gone: seq<string>)
    ensures OnlyThere(added, next, prior) && AreNamed(OpsSection(prior, next).added, added, next)
    ensures OnlyThere(gone, prior, next) && AreNamed(OpsSection(prior, next).removed, gone, prior)
  {
    added, gone := InOrder(next.Keys - prior.Keys), InOrder(prior.Keys - next.Keys);
  }

  lemma {:induction false} ChangedOpsOrigin(prior: Operations, next: Operations, keys: seq<string>, describe: DescribeOp,
                                            d: string)
    ensures d in ChangedOps(prior, next, keys, describe) <==>
            exists k :: k in keys && OpChanged(prior, next, k) && next[k].display == d
    decreases |keys|
  {
    if keys != [] {
      var n := |keys| - 1;
      ChangedOpsOrigin(prior, next, keys[..n], describe, d);
      assert keys == keys[..n] + [keys[n]];
    }
  }

  /**
   The lines reported under a name are those of the changed operation with the greatest key that
   goes by it: all of them are kept apart where names differ, and others are lost where they do not.
   */
  lemma {:induction false} ChangedOpsMeaning(prior: Operations, next: Operations, keys: seq<string>, describe: DescribeOp,
                                             k: string)
    requires Increasing(keys) && k in keys && OpChanged(prior, next, k)
    requires forall j :: j in keys && OpChanged(prior, next, j) && next[j].display == next[k].display ==> !Less(k, j)
    ensures next[k].display in ChangedOps(prior, next, keys, describe)
    ensures ChangedOps(prior, next, keys, describe)[next[k].display] == describe(prior[k].op, next[k].op)
    decreases |keys|
  {
    var n := |keys| - 1;
    assert keys == keys[..n] + [keys[n]];
    if keys[n] != k {
      var i :| 0 <= i < |keys| && keys[i] == k;
      assert Less(keys[i], keys[n]);
      ChangedOpsMeaning(prior, next, keys[..n], describe, k);
    }
  }

  function ChangedSet(prior: Operations, next: Operations): set<string> {
    set k | k in prior && OpChanged(prior, next, k)
  }

  ghost predicate ApartByName(next: Operations, keys: set<string>)
    requires keys <= next.Keys
  {
    forall j, k :: j in keys && k in keys && next[j].display == next[k].display ==> j == k
  }

  function NamesOf(next: Operations, keys: set<string>): set<string>
    requires keys <= next.Keys
  {
    set k | k in keys :: next[k].display
  }

  /** There are as many names as keys exactly when no two keys share a name. */
  lemma {:induction false} NamesCount(next: Operations, keys: set<string>)
    requires keys <= next.Keys
    ensures |NamesOf(next, keys)| <= |keys|
    ensures |NamesOf(next, keys)| == |keys| <==> ApartByName(next, keys)
    decreases keys
  {
    if keys != {} {
      var k :| k in keys;
      var rest := keys - {k};
      NamesCount(next, rest);
      var names := NamesOf(next, rest);
      assert NamesOf(next, keys) == names + {next[k].display};
      assert |keys| == |rest| + 1;
      if next[k].display in names {
        var j :| j in rest && next[j].display == next[k].display;
        assert NamesOf(next, keys) == names;
      } else {
        assert |NamesOf(next, keys)| == |names| + 1;
        assert ApartByName(next, rest) ==> ApartByName(next, keys);
      }
    }
  }

  lemma ChangedNames(prior: Operations, next: Operations, describe: DescribeOp)
    ensures ChangedOps(prior, next, InOrder(prior.Keys), describe).Keys == NamesOf(next, ChangedSet(prior, next))
  {
    var changed := ChangedOps(prior, next, InOrder(prior.Keys), describe);
    forall d ensures d in changed <==> d in NamesOf(next, ChangedSet(prior, next)) {
      ChangedOpsOrigin(prior, next, InOrder(prior.Keys), describe, d);
    }
  }

  lemma SizeOfKeys<K, V>(m: map<K, V>)
    ensures |m| == |m.Keys|
  {
  }

  /** Every changed operation keeps an account of its own exactly when no two of them go by one new name. */
  lemma NothingLostExactly(prior: Operations, next: Operations, describe: DescribeOp)
    ensures |ChangedOps(prior, next, InOrder(prior.Keys), describe)| == |ChangedSet(prior, next)| <==>
            ApartByName(next, ChangedSet(prior, next))
  {
    ChangedNames(prior, next, describe);
    NamesCount(next, ChangedSet(prior, next));
    SizeOfKeys(ChangedOps(prior, next, InOrder(prior.Keys), describe));
  }

  /** Names can be shared: the parentheses that set off the identifier can be part of a path. */
  lemma NamesCanCollide()
    ensures Display(KeyOf("get", "/a"), Obj(map["operationId" := Str("b) (c")])) ==
            Display(KeyOf("get", "/a (b)"), Obj(map["operationId" := Str("c")]))
  {
    TwoSpellings(Obj(map["operationId" := Str("b) (c")]), Obj(map["operationId" := Str("c")]));
  }

  lemma TwoSpellings(x: Json, y: Json)
    requires StrOf(x, "operationId") == "b) (c" && StrOf(y, "operationId") == "c"
    ensures Display(KeyOf("get", "/a"), x) == Display(KeyOf("get", "/a (b)"), y)
    ensures KeyOf("get", "/a") != KeyOf("get", "/a (b)")
  {
    assert Upper("get") == "GET";
    assert Display(KeyOf("get", "/a"), x) == "GET /a (b) (c)";
    assert Display(KeyOf("get", "/a (b)"), y) == "GET /a (b) (c)";
    assert |KeyOf("get", "/a")| < |KeyOf("get", "/a (b)")|;
  }

  function IdentifiedOp(id: string, summary: Json): Json {
    Obj(map["operationId" := Str(id), "summary" := summary])
  }

  /** A specification with two operations that go by one name. */
  function TwoOfAName(summary: Json): Json {
    Obj(map["paths" := Obj(map[
      "/a" := Obj(map["get" := IdentifiedOp("b) (c", summary)]),
      "/a (b)" := Obj(map["get" := IdentifiedOp("c", summary)])])])
  }

  lemma TwoOfANamePaths(summary: Json)
    ensures var paths := Paths(TwoOfAName(summary));
            && HasOp(paths, "get", "/a") && Member(paths["/a"], "get") == Some(IdentifiedOp("b) (c", summary))
            && HasOp(paths, "get", "/a (b)") && Member(paths["/a (b)"], "get") == Some(IdentifiedOp("c", summary))
    ensures forall m, path :: HasOp(Paths(TwoOfAName(summary)), m, path) ==> m == "get" && path in {"/a", "/a (b)"}
  {
    assert METHODS[0] == "get";
    var paths := Paths(TwoOfAName(summary));
    assert paths.Keys == {"/a", "/a (b)"};
    assert paths["/a"] == Obj(map["get" := IdentifiedOp("b) (c", summary)]);
    assert paths["/a (b)"] == Obj(map["get" := IdentifiedOp("c", summary)]);
  }

  lemma TwoOfANameOps(summary: Json, ops: Operations)
    requires OperationsOf(ops, TwoOfAName(summary))
    ensures var j, k := KeyOf("get", "/a"), KeyOf("get", "/a (b)");
            && j != k && ops.Keys == {j, k} && ops[j].display == ops[k].display
            && ops[j].op == IdentifiedOp("b) (c", summary) && ops[k].op == IdentifiedOp("c", summary)
  {
    var paths := Paths(TwoOfAName(summary));
    TwoOfANamePaths(summary);
    assert ("get", "/a") in AllPairs(paths) && ("get", "/a (b)") in AllPairs(paths);
    TwoSpellings(IdentifiedOp("b) (c", summary), IdentifiedOp("c", summary));
  }

  /** Two operations of such a specification change, and the report accounts for one. */
  lemma AnAccountIsLost(x: Json, y: Json, was: Operations, now: Operations)
    requires x != y && OperationsOf(was, TwoOfAName(x)) && OperationsOf(now, TwoOfAName(y))
    ensures |ChangedSet(was, now)| == 2 && |ChangedOps(was, now, InOrder(was.Keys), OperationLines)| == 1
  {
    TwoOfANameOps(x, was);
    TwoOfANameOps(y, now);
    SummariesDiffer("b) (c", x, y);
    SummariesDiffer("c", x, y);
    TwoChangesOneName(was, now, KeyOf("get", "/a"), KeyOf("get", "/a (b)"), OperationLines);
  }

  lemma TwoChangesOneName(was: Operations, now: Operations, j: string, k: string, describe: DescribeOp)
    requires j != k && was.Keys == {j, k} && now.Keys == {j, k}
    requires was[j].op != now[j].op && was[k].op != now[k].op && now[j].display == now[k].display
    ensures |ChangedSet(was, now)| == 2 && |ChangedOps(was, now, InOrder(was.Keys), describe)| == 1
  {
    BothChanged(was, now, j, k);
    ChangedNames(was, now, describe);
    SizeOfKeys(ChangedOps(was, now, InOrder(was.Keys), describe));
  }

  lemma BothChanged(was: Operations, now: Operations, j: string, k: string)
    requires j != k && was.Keys == {j, k} && now.Keys == {j, k}
    requires was[j].op != now[j].op && was[k].op != now[k].op && now[j].display == now[k].display
    ensures ChangedSet(was, now) == {j, k} && |ChangedSet(was, now)| == 2
    ensures NamesOf(now, ChangedSet(was, now)) == {now[j].display}
  {
  }

  lemma SummariesDiffer(id: string, x: Json, y: Json)
    requires x != y
    ensures IdentifiedOp(id, x) != IdentifiedOp(id, y)
  {
    assert IdentifiedOp(id, x).entries["summary"] != IdentifiedOp(id, y).entries["summary"];
  }

  /** The first place where the identifier can begin is where it does, in a name without " (" in its key. */
  lemma IdentifierStart(key: string, rest: string)
    requires !Contains(key, " (")
    ensures OccursAt(key + " (" + rest, " (", |key|)
    ensures forall i: nat :: i < |key| ==> !OccursAt(key + " (" + rest, " (", i)
  {
    var s := key + " (" + rest;
    assert s[|key|..|key| + 2] == " (";
    forall i: nat | i < |key| ensures !OccursAt(s, " (", i) {
      assert !OccursAt(key, " (", i);
      assert i + 1 < |key| ==> s[i..i + 2] == key[i..i + 2];
      assert i + 1 == |key| ==> s[i..i + 2][1] == ' ';
    }
  }

  /** Keys without " (" have different display names. */
  lemma PlainNamesDoNotCollide(j: string, k: string, a: Json, b: Json)
    requires !Contains(j, " (") && !Contains(k, " (")
    requires Display(j, a) == Display(k, b)
    ensures j == k
  {
    var x, y := StrOf(a, "operationId") + ")", StrOf(b, "operationId") + ")";
    assert Display(j, a) == j + " (" + x && Display(k, b) == k + " (" + y;
    IdentifierStart(j, x);
    IdentifierStart(k, y);
    assert |j| == |k|;
    assert Display(j, a)[..|j|] == j && Display(k, b)[..|k|] == k;
  }

  /** The display name of an operation follows from its key. */
  ghost predicate Displayed(ops: Operations) {
    forall k :: k in ops ==> ops[k].display == Display(k, ops[k].op)
  }

  lemma CollectedAreDisplayed(ops: Operations, spec: Json)
    requires OperationsOf(ops, spec)
    ensures Displayed(ops)
  {
    forall k | k in ops ensures ops[k].display == Display(k, ops[k].op) {
      var m, path :| (m, path) in AllPairs(Paths(spec)) && HasOp(Paths(spec), m, path) && k == KeyOf(m, path);
    }
  }

  lemma OpsDrift(was: Operations, now: Operations)
    requires Displayed(was) && Displayed(now)
    ensures OpsSection(was, now) == NOTHING <==> was == now
  {
    var s, keys := OpsSection(was, now), InOrder(was.Keys);
    if s == NOTHING {
      assert InOrder(now.Keys - was.Keys) == [] && InOrder(was.Keys - now.Keys) == [] by {
        assert |s.added| == |InOrder(now.Keys - was.Keys)| && |s.removed| == |InOrder(was.Keys - now.Keys)|;
      }
      assert now.Keys - was.Keys == {} && was.Keys - now.Keys == {} by {
        assert forall k :: k in now.Keys - was.Keys ==> k in InOrder(now.Keys - was.Keys);
        assert forall k :: k in was.Keys - now.Keys ==> k in InOrder(was.Keys - now.Keys);
      }
      forall k | k in was ensures was[k] == now[k] {
        assert k in keys;
        if was[k].op != now[k].op {
          ChangedOpsOrigin(was, now, keys, OperationLines, now[k].display);
        }
      }
    }
    if was == now && s.changed != map[] {
      var d :| d in s.changed;
      ChangedOpsOrigin(was, now, keys, OperationLines, d);
    }
  }
}
