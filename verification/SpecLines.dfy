/** What the lines of a report say: each is true of the two sides, and everything true is said, once. */
module SpecLines {
  import opened Wrappers
  import opened Text
  import opened Json
  import opened SpecDiff

  // ------------------------------------------------------------------------- truth

  /** A line about a parameter holds of the two sides. */
  ghost predicate TrueOfParams(line: Line, prior: Table, next: Table) {
    match line
    case ParamRemoved(k) => k in prior && k !in next
    case ParamAdded(k, ty) => k !in prior && k in next && ty == DescribeParam(next[k])
    case ParamChanged(k, required, types) =>
      && k in prior && k in next && prior[k] != next[k]
      && TellsChange(required, IsRequired(prior[k]), IsRequired(next[k]))
      && TellsChange(types, DescribeParam(prior[k]), DescribeParam(next[k]))
    case _ => false
  }

  /** Nothing is told where both sides agree, and otherwise the old value and then the new one. */
  ghost predicate TellsChange<T>(told: Option<(T, T)>, was: T, becomes: T) {
    if told.Some? then told.value.0 == was && told.value.1 == becomes && was != becomes else was == becomes
  }

  ghost predicate TrueOfResponses(line: Line, prior: Table, next: Table) {
    match line
    case ResponseRemoved(k, ty) => k in prior && k !in next && ty == DescribeResponse(prior[k])
    case ResponseAdded(k, ty) => k !in prior && k in next && ty == DescribeResponse(next[k])
    case ResponseType(k, was, becomes) =>
      && k in prior && k in next && was != becomes
      && was == DescribeResponse(prior[k]) && becomes == DescribeResponse(next[k])
    case ResponseOther(k) =>
      k in prior && k in next && prior[k] != next[k] && DescribeResponse(prior[k]) == DescribeResponse(next[k])
    case _ => false
  }

  ghost predicate TrueOfProperties(line: Line, prior: Table, next: Table) {
    match line
    case PropertyRemoved(k) => k in prior && k !in next
    case PropertyAdded(k, ty) => k !in prior && k in next && ty == DescribeSchema(next[k])
    case PropertyType(k, was, becomes) =>
      && k in prior && k in next && was != becomes
      && was == DescribeSchema(prior[k]) && becomes == DescribeSchema(next[k])
    case PropertyOther(k) =>
      k in prior && k in next && prior[k] != next[k] && DescribeSchema(prior[k]) == DescribeSchema(next[k])
    case _ => false
  }

  /** The key a line is about. */
  function About(line: Line): Option<string> {
    match line
    case ParamRemoved(k) => Some(k)
    case ParamAdded(k, _) => Some(k)
    case ParamChanged(k, _, _) => Some(k)
    case ResponseRemoved(k, _) => Some(k)
    case ResponseAdded(k, _) => Some(k)
    case ResponseType(k, _, _) => Some(k)
    case ResponseOther(k) => Some(k)
    case PropertyRemoved(k) => Some(k)
    case PropertyAdded(k, _) => Some(k)
    case PropertyType(k, _, _) => Some(k)
    case PropertyOther(k) => Some(k)
    case _ => None
  }

  /** Of every key `describe` says what is true and about it, and that in one line. */
  ghost predicate Honest(describe: Describe, prior: Table, next: Table, truth: Line -> bool) {
    && (forall k, line :: line in describe(k, MapGet(prior, k), MapGet(next, k)) <==> About(line) == Some(k) && truth(line))
    && (forall k :: |describe(k, MapGet(prior, k), MapGet(next, k))| <= 1)
    && (forall line :: truth(line) ==> About(line).Some? && About(line).value in prior.Keys + next.Keys)
  }

  /** The lines are in the order of what they are about, which differs. */
  ghost predicate InOrderOfKeys(lines: seq<Line>) {
    && (forall i :: 0 <= i < |lines| ==> About(lines[i]).Some?)
    && (forall i, j :: 0 <= i < j < |lines| ==> Less(About(lines[i]).value, About(lines[j]).value))
  }

  lemma ComparedIsTrue(prior: Table, next: Table, describe: Describe, truth: Line -> bool)
    requires Honest(describe, prior, next, truth)
    ensures forall line :: line in Compared(prior, next, describe) <==> truth(line)
    ensures InOrderOfKeys(Compared(prior, next, describe))
  {
    forall line ensures line in Compared(prior, next, describe) <==> truth(line) {
      OneLineIsTrue(prior, next, describe, truth, line);
    }
    KeysInOrder(prior, next, InOrder(prior.Keys + next.Keys), describe, truth);
  }

  lemma OneLineIsTrue(prior: Table, next: Table, describe: Describe, truth: Line -> bool, line: Line)
    requires Honest(describe, prior, next, truth)
    ensures line in Compared(prior, next, describe) <==> truth(line)
  {
    var keys := InOrder(prior.Keys + next.Keys);
    CompareKeysOrigin(prior, next, keys, describe, line);
    SaidOfItsKey(prior, next, describe, truth, line);
    if truth(line) {
      assert About(line).value in keys;
    }
  }

  lemma SaidOfItsKey(prior: Table, next: Table, describe: Describe, truth: Line -> bool, line: Line)
    requires Honest(describe, prior, next, truth)
    ensures forall k :: line in describe(k, MapGet(prior, k), MapGet(next, k)) <==> About(line) == Some(k) && truth(line)
    ensures truth(line) ==> About(line).Some? && About(line).value in prior.Keys + next.Keys
  {
  }

  lemma {:induction false} KeysInOrder(prior: Table, next: Table, keys: seq<string>, describe: Describe, truth: Line -> bool)
    requires Honest(describe, prior, next, truth) && Increasing(keys)
    ensures InOrderOfKeys(CompareKeys(prior, next, keys, describe))
    decreases |keys|
  {
    if keys != [] {
      var n := |keys| - 1;
      var before := CompareKeys(prior, next, keys[..n], describe);
      var last := describe(keys[n], MapGet(prior, keys[n]), MapGet(next, keys[n]));
      KeysInOrder(prior, next, keys[..n], describe, truth);
      forall line | line in before ensures About(line).Some? && Less(About(line).value, keys[n]) {
        CompareKeysOrigin(prior, next, keys[..n], describe, line);
        var k :| k in keys[..n] && line in describe(k, MapGet(prior, k), MapGet(next, k));
        var i :| 0 <= i < n && keys[i] == k;
        assert Less(keys[i], keys[n]);
      }
      forall line | line in last ensures About(line) == Some(keys[n]) {
      }
      assert forall i :: 0 <= i < |before| ==> before[i] in before;
    }
  }

  lemma ChangedTells<T>(was: T, becomes: T, told: Option<(T, T)>)
    ensures told == Changed(was, becomes) <==> TellsChange(told, was, becomes)
  {
  }

  // ------------------------------------------------------------- three kinds of lines

  lemma ParamLineIsTrue(k: string, prior: Table, next: Table, line: Line)
    ensures line in ParamLine(k, MapGet(prior, k), MapGet(next, k)) <==>
            About(line) == Some(k) && TrueOfParams(line, prior, next)
  {
    if line.ParamChanged? && k in prior && k in next {
      ChangedTells(IsRequired(prior[k]), IsRequired(next[k]), line.required);
      ChangedTells(DescribeParam(prior[k]), DescribeParam(next[k]), line.types);
    }
  }

  ghost function ParamsTruth(prior: Table, next: Table): Line -> bool {
    (line: Line) => TrueOfParams(line, prior, next)
  }

  lemma ParamsAreHonest(prior: Table, next: Table)
    ensures Honest(ParamLine, prior, next, ParamsTruth(prior, next))
  {
    forall k, line ensures line in ParamLine(k, MapGet(prior, k), MapGet(next, k)) <==>
                           About(line) == Some(k) && TrueOfParams(line, prior, next)
    {
      ParamLineIsTrue(k, prior, next, line);
    }
  }

  /** Parameters: what is reported is what has changed, in the order of the parameters. */
  lemma ParamLinesSay(prior: Table, next: Table)
    ensures forall line :: line in Compared(prior, next, ParamLine) <==> TrueOfParams(line, prior, next)
    ensures InOrderOfKeys(Compared(prior, next, ParamLine))
  {
    ParamsAreHonest(prior, next);
    ComparedIsTrue(prior, next, ParamLine, ParamsTruth(prior, next));
  }

  lemma ResponseLineIsTrue(k: string, prior: Table, next: Table, line: Line)
    ensures line in ResponseLine(k, MapGet(prior, k), MapGet(next, k)) <==>
            About(line) == Some(k) && TrueOfResponses(line, prior, next)
  {
  }

  ghost function ResponsesTruth(prior: Table, next: Table): Line -> bool {
    (line: Line) => TrueOfResponses(line, prior, next)
  }

  lemma ResponsesAreHonest(prior: Table, next: Table)
    ensures Honest(ResponseLine, prior, next, ResponsesTruth(prior, next))
  {
    forall k, line ensures line in ResponseLine(k, MapGet(prior, k), MapGet(next, k)) <==>
                           About(line) == Some(k) && TrueOfResponses(line, prior, next)
    {
      ResponseLineIsTrue(k, prior, next, line);
    }
  }

  /** Responses likewise. */
  lemma ResponseLinesSay(prior: Table, next: Table)
    ensures forall line :: line in Compared(prior, next, ResponseLine) <==> TrueOfResponses(line, prior, next)
    ensures InOrderOfKeys(Compared(prior, next, ResponseLine))
  {
    ResponsesAreHonest(prior, next);
    ComparedIsTrue(prior, next, ResponseLine, ResponsesTruth(prior, next));
  }

  lemma PropertyLineIsTrue(k: string, prior: Table, next: Table, line: Line)
    ensures line in PropertyLine(k, MapGet(prior, k), MapGet(next, k)) <==>
            About(line) == Some(k) && TrueOfProperties(line, prior, next)
  {
  }

  ghost function PropertiesTruth(prior: Table, next: Table): Line -> bool {
    (line: Line) => TrueOfProperties(line, prior, next)
  }

  lemma PropertiesAreHonest(prior: Table, next: Table)
    ensures Honest(PropertyLine, prior, next, PropertiesTruth(prior, next))
  {
    forall k, line ensures line in PropertyLine(k, MapGet(prior, k), MapGet(next, k)) <==>
                           About(line) == Some(k) && TrueOfProperties(line, prior, next)
    {
      PropertyLineIsTrue(k, prior, next, line);
    }
  }

  /** And properties. */
  lemma PropertyLinesSay(prior: Table, next: Table)
    ensures forall line :: line in Compared(prior, next, PropertyLine) <==> TrueOfProperties(line, prior, next)
    ensures InOrderOfKeys(Compared(prior, next, PropertyLine))
  {
    PropertiesAreHonest(prior, next);
    ComparedIsTrue(prior, next, PropertyLine, PropertiesTruth(prior, next));
  }

  // ------------------------------------------------------ operations and definitions

  ghost predicate TrueOfOperation(line: Line, prior: Json, next: Json) {
    match line
    case OperationId(was, becomes) =>
      was == StrOf(prior, "operationId") && becomes == StrOf(next, "operationId") && was != becomes
    case MetadataOnly =>
      && StrOf(prior, "operationId") == StrOf(next, "operationId")
      && Params(prior) == Params(next) && Responses(prior) == Responses(next)
    case _ => TrueOfParams(line, Params(prior), Params(next)) || TrueOfResponses(line, Responses(prior), Responses(next))
  }

  lemma InOneOfThree(line: Line, a: seq<Line>, b: seq<Line>, c: seq<Line>)
    requires MetadataOnly !in a && MetadataOnly !in b && MetadataOnly !in c
    ensures line in OrMetadata(a + b + c) <==>
            if line.MetadataOnly? then a == [] && b == [] && c == [] else line in a || line in b || line in c
  {
    assert MetadataOnly !in a + b + c;
    assert a + b + c == [] <==> a == [] && b == [] && c == [];
  }

  lemma PartsSay(prior: Json, next: Json, params: seq<Line>, responses: seq<Line>, line: Line)
    requires forall l :: l in params <==> TrueOfParams(l, Params(prior), Params(next))
    requires forall l :: l in responses <==> TrueOfResponses(l, Responses(prior), Responses(next))
    requires params == [] <==> Params(prior) == Params(next)
    requires responses == [] <==> Responses(prior) == Responses(next)
    ensures line in OrMetadata(IdLine(prior, next) + params + responses) <==> TrueOfOperation(line, prior, next)
  {
    InOneOfThree(line, IdLine(prior, next), params, responses);
  }

  /** Everything true of a changed operation is reported, and nothing else. */
  lemma OperationLinesSay(prior: Json, next: Json, line: Line)
    ensures line in OperationLines(prior, next) <==> TrueOfOperation(line, prior, next)
  {
    TableLines(Params(prior), Params(next), Responses(prior), Responses(next));
    PartsSay(prior, next, Compared(Params(prior), Params(next), ParamLine),
             Compared(Responses(prior), Responses(next), ResponseLine), line);
  }

  lemma TableLines(p: Table, q: Table, r: Table, s: Table)
    ensures forall l :: l in Compared(p, q, ParamLine) <==> TrueOfParams(l, p, q)
    ensures forall l :: l in Compared(r, s, ResponseLine) <==> TrueOfResponses(l, r, s)
    ensures Compared(p, q, ParamLine) == [] <==> p == q
    ensures Compared(r, s, ResponseLine) == [] <==> r == s
  {
    ParamLinesSay(p, q);
    ResponseLinesSay(r, s);
    LinesAreFaithful();
    ComparedIsComplete(p, q, ParamLine);
    ComparedIsComplete(r, s, ResponseLine);
  }

  ghost predicate TrueOfDefinition(line: Line, prior: Json, next: Json) {
    match line
    case RequiredNames(was, becomes) => was == RequiredList(prior) && becomes == RequiredList(next) && was != becomes
    case SchemaType(was, becomes) =>
      && Properties(prior) == Properties(next) && RequiredList(prior) == RequiredList(next)
      && was == DescribeSchema(prior) && becomes == DescribeSchema(next) && was != becomes
    case MetadataOnly =>
      && Properties(prior) == Properties(next) && RequiredList(prior) == RequiredList(next)
      && DescribeSchema(prior) == DescribeSchema(next)
    case _ => TrueOfProperties(line, Properties(prior), Properties(next))
  }

  lemma DefinitionPartsSay(prior: Json, next: Json, properties: seq<Line>, line: Line)
    requires forall l :: l in properties <==> TrueOfProperties(l, Properties(prior), Properties(next))
    requires properties == [] <==> Properties(prior) == Properties(next)
    ensures var lines := properties + RequiredLine(prior, next);
            var was, becomes := DescribeSchema(prior), DescribeSchema(next);
            line in (if lines == [] && was != becomes then [SchemaType(was, becomes)] else OrMetadata(lines))
            <==> TrueOfDefinition(line, prior, next)
  {
    InOneOfThree(line, properties, RequiredLine(prior, next), []);
    TwoParts(properties, RequiredLine(prior, next));
  }

  lemma TwoParts(a: seq<Line>, b: seq<Line>)
    ensures a + b + [] == a + b
    ensures a + b == [] <==> a == [] && b == []
  {
  }

  lemma PropertyTableLines(p: Table, q: Table)
    ensures forall l :: l in Compared(p, q, PropertyLine) <==> TrueOfProperties(l, p, q)
    ensures Compared(p, q, PropertyLine) == [] <==> p == q
  {
    PropertyLinesSay(p, q);
    LinesAreFaithful();
    ComparedIsComplete(p, q, PropertyLine);
  }

  /** Of a changed definition likewise; its type is only told when nothing else has changed. */
  lemma DefinitionLinesSay(name: string, prior: Json, next: Json, line: Line)
    ensures line in DefinitionLines(name, prior, next) <==> TrueOfDefinition(line, prior, next)
  {
    PropertyTableLines(Properties(prior), Properties(next));
    DefinitionPartsSay(prior, next, Compared(Properties(prior), Properties(next), PropertyLine), line);
  }

  ghost predicate TrueOfSharedResponse(line: Line, prior: Json, next: Json) {
    match line
    case SchemaType(was, becomes) => was == DescribeResponse(prior) && becomes == DescribeResponse(next) && was != becomes
    case MetadataOnly => DescribeResponse(prior) == DescribeResponse(next)
    case _ => false
  }

  lemma SharedResponseLinesSay(name: string, prior: Json, next: Json, line: Line)
    ensures line in SharedResponseLines(name, prior, next) <==> TrueOfSharedResponse(line, prior, next)
  {
  }

  // ------------------------------------------------------------------ their order

  /** The identifier comes first, then parameters or properties, then responses or required names. */
  function Rank(line: Line): nat {
    match line
    case OperationId(_, _) => 0
    case ResponseRemoved(_, _) => 2
    case ResponseAdded(_, _) => 2
    case ResponseType(_, _, _) => 2
    case ResponseOther(_) => 2
    case RequiredNames(_, _) => 2
    case _ => 1
  }

  predicate Precedes(a: Line, b: Line) {
    || Rank(a) < Rank(b)
    || (Rank(a) == Rank(b) && About(a).Some? && About(b).Some? && Less(About(a).value, About(b).value))
  }

  ghost predicate Sorted(lines: seq<Line>) {
    forall i, j :: 0 <= i < j < |lines| ==> Precedes(lines[i], lines[j])
  }

  lemma SortedJoin(a: seq<Line>, b: seq<Line>, rank: nat)
    requires Sorted(a) && Sorted(b)
    requires (forall i :: 0 <= i < |a| ==> Rank(a[i]) < rank) && (forall i :: 0 <= i < |b| ==> Rank(b[i]) == rank)
    ensures Sorted(a + b)
  {
  }

  lemma KeysAreSorted(lines: seq<Line>, rank: nat)
    requires InOrderOfKeys(lines) && forall i :: 0 <= i < |lines| ==> Rank(lines[i]) == rank
    ensures Sorted(lines)
  {
  }

  lemma TrueRanks(p: Table, q: Table, lines: seq<Line>, rank: nat)
    requires InOrderOfKeys(lines)
    requires (rank == 1 && forall l :: l in lines ==> TrueOfParams(l, p, q))
          || (rank == 1 && forall l :: l in lines ==> TrueOfProperties(l, p, q))
          || (rank == 2 && forall l :: l in lines ==> TrueOfResponses(l, p, q))
    ensures Sorted(lines) && forall i :: 0 <= i < |lines| ==> Rank(lines[i]) == rank
  {
    forall i | 0 <= i < |lines| ensures Rank(lines[i]) == rank {
      assert lines[i] in lines;
    }
    KeysAreSorted(lines, rank);
  }

  /** So there is one report on an operation: what is true of it, in this order. */
  lemma OperationLinesInOrder(prior: Json, next: Json)
    ensures Sorted(OperationLines(prior, next))
  {
    var id := IdLine(prior, next);
    var params := Compared(Params(prior), Params(next), ParamLine);
    var responses := Compared(Responses(prior), Responses(next), ResponseLine);
    ParamLinesSay(Params(prior), Params(next));
    ResponseLinesSay(Responses(prior), Responses(next));
    TrueRanks(Params(prior), Params(next), params, 1);
    TrueRanks(Responses(prior), Responses(next), responses, 2);
    ThreeSorted(id, params, responses);
  }

  lemma ThreeSorted(a: seq<Line>, b: seq<Line>, c: seq<Line>)
    requires |a| <= 1 && (a != [] ==> Rank(a[0]) == 0) && Sorted(b) && Sorted(c)
    requires (forall i :: 0 <= i < |b| ==> Rank(b[i]) == 1) && (forall i :: 0 <= i < |c| ==> Rank(c[i]) == 2)
    ensures Sorted(OrMetadata(a + b + c))
  {
    SortedJoin(a, b, 1);
    SortedJoin(a + b, c, 2);
  }

  lemma DefinitionLinesInOrder(name: string, prior: Json, next: Json)
    ensures Sorted(DefinitionLines(name, prior, next))
  {
    var properties := Compared(Properties(prior), Properties(next), PropertyLine);
    PropertyLinesSay(Properties(prior), Properties(next));
    TrueRanks(Properties(prior), Properties(next), properties, 1);
    TwoSorted(properties, RequiredLine(prior, next), DescribeSchema(prior), DescribeSchema(next));
  }

  lemma TwoSorted(a: seq<Line>, b: seq<Line>, was: string, becomes: string)
    requires Sorted(a) && (forall i :: 0 <= i < |a| ==> Rank(a[i]) == 1)
    requires |b| <= 1 && (b != [] ==> Rank(b[0]) == 2)
    ensures Sorted(if a + b == [] && was != becomes then [SchemaType(was, becomes)] else OrMetadata(a + b))
  {
    SortedJoin(a, b, 2);
  }

  /** A list in that order is determined by what is in it. */
  lemma {:induction false} SortedIsDetermined(a: seq<Line>, b: seq<Line>)
    requires Sorted(a) && Sorted(b) && forall l :: l in a <==> l in b
    ensures a == b
  {
    SameEmptiness(a, b);
    if a != [] {
      assert a[0] in b && b[0] in a;
      NotBoth(a[0], b[0]);
      assert a[0] == b[0];
      SortedTail(a);
      SortedTail(b);
      SortedIsDetermined(a[1..], b[1..]);
    }
  }

  lemma NotBoth(a: Line, b: Line)
    ensures !(Precedes(a, b) && Precedes(b, a)) && !Precedes(a, a)
  {
    if About(a).Some? && About(b).Some? {
      LessTrichotomy(About(a).value, About(b).value);
      LessTrichotomy(About(a).value, About(a).value);
    } else if About(a).Some? {
      LessTrichotomy(About(a).value, About(a).value);
    }
  }

  lemma SortedTail(a: seq<Line>)
    requires a != [] && Sorted(a)
    ensures forall l :: l in a[1..] <==> l in a && l != a[0]
  {
    NotBoth(a[0], a[0]);
    assert forall j :: 1 <= j < |a| ==> a[1..][j - 1] == a[j] && Precedes(a[0], a[j]);
  }
}
