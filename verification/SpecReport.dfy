/** The whole report on two specifications. */
module SpecReport {
  import opened Wrappers
  import opened Text
  import opened Json
  import opened SpecDiff
  import opened SpecOperations

  // ------------------------------------------------------ who uses a shared response

  const SHARED := "#/responses/"

  /** The shared response a response refers to. */
  function SharedName(response: Json): Option<string> {
    var r := StrOf(response, "$ref");
    if SHARED <= r then Some(r[|SHARED|..]) else None
  }

  /** The shared responses that those under `statuses` refer to. */
  function SharedNames(responses: Table, statuses: seq<string>): set<string>
    requires forall s :: s in statuses ==> s in responses
  {
    if statuses == [] then {}
    else
      var name := SharedName(responses[statuses[|statuses| - 1]]);
      SharedNames(responses, statuses[..|statuses| - 1]) + if name.Some? then {name.value} else {}
  }

  lemma {:induction false} SharedNamesMeaning(responses: Table, statuses: seq<string>, name: string)
    requires forall s :: s in statuses ==> s in responses
    ensures name in SharedNames(responses, statuses) <==> exists s :: s in statuses && SharedName(responses[s]) == Some(name)
  {
    if statuses != [] {
      var n := |statuses| - 1;
      SharedNamesMeaning(responses, statuses[..n], name);
      assert statuses == statuses[..n] + [statuses[n]];
    }
  }

  predicate Refers(op: Json, name: string) {
    exists s :: s in Responses(op) && SharedName(Responses(op)[s]) == Some(name)
  }

  function InKeyOrder(ops: Operations): seq<Operation> {
    var keys := InOrder(ops.Keys);
    seq(|keys|, i requires 0 <= i < |keys| => ops[keys[i]])
  }

  /** Every operation of either side, the old ones first. */
  function BothSides(was: Operations, now: Operations): seq<Operation> {
    InKeyOrder(was) + InKeyOrder(now)
  }

  function AddUser(users: seq<string>, display: string, refers: bool): seq<string> {
    if refers && display !in users then users + [display] else users
  }

  /** The operations that refer to the shared response `name`, each named once. */
  function Users(ops: seq<Operation>, name: string): seq<string> {
    if ops == [] then []
    else
      var last := ops[|ops| - 1];
      AddUser(Users(ops[..|ops| - 1], name), last.display, Refers(last.op, name))
  }

  lemma {:induction false} UsersMeaning(ops: seq<Operation>, name: string)
    ensures forall d :: d in Users(ops, name) <==> exists i :: 0 <= i < |ops| && ops[i].display == d && Refers(ops[i].op, name)
    ensures forall i, j :: 0 <= i < j < |Users(ops, name)| ==> Users(ops, name)[i] != Users(ops, name)[j]
  {
    if ops != [] {
      var n := |ops| - 1;
      UsersMeaning(ops[..n], name);
    }
  }

  ghost predicate TellsOf(users: map<string, seq<string>>, name: string, list: seq<string>) {
    (if name in users then users[name] else []) == list && (name in users ==> list != [])
  }

  /** `users` lists the users of every shared response that has any. */
  ghost predicate Tells(users: map<string, seq<string>>, ops: seq<Operation>) {
    forall name :: TellsOf(users, name, Users(ops, name))
  }

  /** The users among `ops`, and `display` if `name` is in `names`. */
  ghost function UsersAnd(ops: seq<Operation>, display: string, names: set<string>, name: string): seq<string> {
    AddUser(Users(ops, name), display, name in names)
  }

  /** The same with one operation more, of whose responses those in `names` have been looked at. */
  ghost predicate TellsMore(users: map<string, seq<string>>, ops: seq<Operation>, display: string, names: set<string>) {
    forall name :: TellsOf(users, name, UsersAnd(ops, display, names, name))
  }

  /** `entry(name).or_default()`, and a push unless the name is there already. */
  function Noted(users: map<string, seq<string>>, name: string, display: string): map<string, seq<string>> {
    var before := if name in users then users[name] else [];
    if display in before then users else users[name := before + [display]]
  }

  lemma OneReferenceMore(users: map<string, seq<string>>, ops: seq<Operation>, display: string, names: set<string>, name: string)
    requires TellsMore(users, ops, display, names)
    ensures TellsMore(Noted(users, name, display), ops, display, names + {name})
  {
    forall other ensures TellsOf(Noted(users, name, display), other, UsersAnd(ops, display, names + {name}, other)) {
      assert TellsOf(users, other, UsersAnd(ops, display, names, other));
    }
  }

  lemma NoReferenceYet(users: map<string, seq<string>>, ops: seq<Operation>, display: string)
    requires Tells(users, ops)
    ensures TellsMore(users, ops, display, {})
  {
    forall name ensures TellsOf(users, name, UsersAnd(ops, display, {}, name)) {
      assert TellsOf(users, name, Users(ops, name));
    }
  }

  method AddUsers(users: map<string, seq<string>>, ghost ops: seq<Operation>, display: string, responses: Table,
                  statuses: seq<string>)
    returns (all: map<string, seq<string>>)
    requires Tells(users, ops) && forall s :: s in statuses ==> s in responses
    ensures TellsMore(all, ops, display, SharedNames(responses, statuses))
  {
    all := users;
    NoReferenceYet(users, ops, display);
    for i := 0 to |statuses|
      invariant TellsMore(all, ops, display, SharedNames(responses, statuses[..i]))
    {
      ghost var names := SharedNames(responses, statuses[..i]);
      assert statuses[..i + 1][..i] == statuses[..i];
      var name := SharedName(responses[statuses[i]]);
      if name.Some? {
        OneReferenceMore(all, ops, display, names, name.value);
        all := Noted(all, name.value, display);
      } else {
        assert names + {} == names;
      }
    }
    assert statuses[..|statuses|] == statuses;
  }

  lemma ReferencesSeen(op: Json, name: string)
    ensures name in SharedNames(Responses(op), InOrder(Responses(op).Keys)) <==> Refers(op, name)
  {
    SharedNamesMeaning(Responses(op), InOrder(Responses(op).Keys), name);
  }

  lemma OneOperationMore(users: map<string, seq<string>>, ops: seq<Operation>, n: nat)
    requires n < |ops|
    requires var responses := Responses(ops[n].op);
             TellsMore(users, ops[..n], ops[n].display, SharedNames(responses, InOrder(responses.Keys)))
    ensures Tells(users, ops[..n + 1])
  {
    var more := ops[..n + 1];
    var names := SharedNames(Responses(ops[n].op), InOrder(Responses(ops[n].op).Keys));
    assert more[..n] == ops[..n];
    forall name ensures TellsOf(users, name, Users(more, name)) {
      ReferencesSeen(ops[n].op, name);
      assert TellsOf(users, name, UsersAnd(ops[..n], ops[n].display, names, name));
    }
  }

  method ResponseUsers(was: Operations, now: Operations) returns (users: map<string, seq<string>>)
    ensures Tells(users, BothSides(was, now))
  {
    var ops := BothSides(was, now);
    users := map[];
    for i := 0 to |ops|
      invariant Tells(users, ops[..i])
    {
      var responses := Responses(ops[i].op);
      users := AddUsers(users, ops[..i], ops[i].display, responses, InOrder(responses.Keys));
      OneOperationMore(users, ops, i);
    }
    assert ops[..|ops|] == ops;
  }

  /** A change of a shared response is told once, with the operations it concerns. */
  function SharedLines(ops: seq<Operation>): DescribePair {
    (name, prior, next) =>
      SharedResponseLines(name, prior, next) + if Users(ops, name) == [] then [] else [UsedBy(Users(ops, name))]
  }

  /** What is said of a shared response: how it has changed, and then which operations use it, if any do. */
  lemma SharedLinesSay(ops: seq<Operation>, name: string, prior: Json, next: Json)
    ensures var lines, was, becomes := SharedLines(ops)(name, prior, next), DescribeResponse(prior), DescribeResponse(next);
            && lines != [] && lines[0] == (if was != becomes then SchemaType(was, becomes) else MetadataOnly)
            && (UsedBy(Users(ops, name)) in lines <==> exists i :: 0 <= i < |ops| && Refers(ops[i].op, name))
            && |lines| == if UsedBy(Users(ops, name)) in lines then 2 else 1
  {
    var users := Users(ops, name);
    UsersMeaning(ops, name);
    if users != [] {
      assert users[0] in users;
      assert SharedLines(ops)(name, prior, next)[1] == UsedBy(users);
    }
    if i :| 0 <= i < |ops| && Refers(ops[i].op, name) {
      assert ops[i].display in users;
    }
  }

  // ------------------------------------------------------------------- the whole report

  datatype Report = Report(ops: Section, responses: Section, definitions: Section, warnings: seq<string>)

  const NO_DRIFT: Report := Report(NOTHING, NOTHING, NOTHING, [])

  predicate HasDrift(r: Report) {
    r != NO_DRIFT
  }

  function Definitions(spec: Json): Table {
    Entries(Member(spec, "definitions"))
  }

  function ObjectAt(entries: Table, key: string): Table {
    if key in entries && entries[key].Obj? then entries[key].entries else map[]
  }

  /** Where a specification keeps what is compared. */
  lemma SectionsMeaning(entries: Table)
    ensures Paths(Obj(entries)) == ObjectAt(entries, "paths")
    ensures Responses(Obj(entries)) == ObjectAt(entries, "responses")
    ensures Definitions(Obj(entries)) == ObjectAt(entries, "definitions")
    ensures Properties(Obj(entries)) == ObjectAt(entries, "properties")
  {
  }

  /** The report on two specifications whose operations are `was` and `now`. */
  function DiffOf(prior: Json, next: Json, was: Operations, now: Operations, warnings: seq<string>): Report {
    Report(OpsSection(was, now),
           NamedSection(Responses(prior), Responses(next), SharedLines(BothSides(was, now))),
           NamedSection(Definitions(prior), Definitions(next), DefinitionLines),
           warnings)
  }

  /** `r` is the report on the two documents, given the warnings of the generator about the second. */
  ghost predicate IsReport(r: Report, prior: Json, next: Json, warnings: seq<string>) {
    exists was, now :: OperationsOf(was, prior) && OperationsOf(now, next) && r == DiffOf(prior, next, was, now, warnings)
  }

  method DiffResponses(prior: Table, next: Table, was: Operations, now: Operations) returns (s: Section)
    ensures s == NamedSection(prior, next, SharedLines(BothSides(was, now)))
  {
    var users := ResponseUsers(was, now);
    var describe := (name, o, n) =>
      SharedResponseLines(name, o, n) + if name in users then [UsedBy(users[name])] else [];
    s := DiffNamed(prior, next, describe);
    forall k, o, n ensures describe(k, o, n) == SharedLines(BothSides(was, now))(k, o, n) {
      assert TellsOf(users, k, Users(BothSides(was, now), k));
    }
    SameDescription(prior, next, describe, SharedLines(BothSides(was, now)));
  }

  method Diff(prior: Json, next: Json, warnings: seq<string>) returns (r: Report)
    ensures IsReport(r, prior, next, warnings)
  {
    var was := CollectOperations(prior);
    var now := CollectOperations(next);
    var ops := DiffOperations(was, now);
    var responses := DiffResponses(Responses(prior), Responses(next), was, now);
    var definitions := DiffNamed(Definitions(prior), Definitions(next), DefinitionLines);
    r := Report(ops, responses, definitions, warnings);
    assert r == DiffOf(prior, next, was, now, warnings);
  }

  lemma SameDescription(prior: Table, next: Table, f: DescribePair, g: DescribePair)
    requires forall k, o, n :: f(k, o, n) == g(k, o, n)
    ensures NamedSection(prior, next, f) == NamedSection(prior, next, g)
  {
    assert ChangedAmong(prior, next, prior.Keys, f) == ChangedAmong(prior, next, prior.Keys, g);
  }

  /** The report is the one on the operations of the two documents. */
  lemma ReportIs(r: Report, prior: Json, next: Json, was: Operations, now: Operations, warnings: seq<string>)
    requires IsReport(r, prior, next, warnings) && OperationsOf(was, prior) && OperationsOf(now, next)
    ensures r == DiffOf(prior, next, was, now, warnings)
  {
    var a, b :| OperationsOf(a, prior) && OperationsOf(b, next) && r == DiffOf(prior, next, a, b, warnings);
    ListsIsDetermined(a, was, Paths(prior), AllPairs(Paths(prior)));
    ListsIsDetermined(b, now, Paths(next), AllPairs(Paths(next)));
  }

  lemma SharedLinesSpeak(ops: seq<Operation>)
    ensures forall k, o, n :: SharedLines(ops)(k, o, n) != []
  {
  }

  lemma DefinitionLinesSpeak()
    ensures forall k, o, n :: DefinitionLines(k, o, n) != []
  {
    forall k, o, n ensures DefinitionLines(k, o, n) != [] {
      DefinitionLinesMeaning(k, o, n);
    }
  }

  /** Each part of a report is empty exactly when the parts of the documents agree. */
  lemma OpsPart(r: Report, prior: Json, next: Json, was: Operations, now: Operations, warnings: seq<string>)
    requires IsReport(r, prior, next, warnings) && OperationsOf(was, prior) && OperationsOf(now, next)
    ensures r.ops == NOTHING <==> was == now
    ensures r.warnings == warnings
  {
    ReportIs(r, prior, next, was, now, warnings);
    CollectedAreDisplayed(was, prior);
    CollectedAreDisplayed(now, next);
    OpsDrift(was, now);
  }

  lemma SharedPart(r: Report, prior: Json, next: Json, warnings: seq<string>)
    requires IsReport(r, prior, next, warnings)
    ensures r.responses == NOTHING <==> Responses(prior) == Responses(next)
    ensures r.definitions == NOTHING <==> Definitions(prior) == Definitions(next)
  {
    var was, now :| OperationsOf(was, prior) && OperationsOf(now, next) && r == DiffOf(prior, next, was, now, warnings);
    SharedLinesSpeak(BothSides(was, now));
    DefinitionLinesSpeak();
    NamedDrift(Responses(prior), Responses(next), SharedLines(BothSides(was, now)));
    NamedDrift(Definitions(prior), Definitions(next), DefinitionLines);
  }

  /** There is drift exactly when operations, shared responses or definitions differ, or the generator objects. */
  lemma DriftMeaning(r: Report, prior: Json, next: Json, was: Operations, now: Operations, warnings: seq<string>)
    requires IsReport(r, prior, next, warnings) && OperationsOf(was, prior) && OperationsOf(now, next)
    ensures HasDrift(r) <==>
            || was != now
            || Responses(prior) != Responses(next)
            || Definitions(prior) != Definitions(next)
            || warnings != []
  {
    OpsPart(r, prior, next, was, now, warnings);
    SharedPart(r, prior, next, warnings);
  }

  ghost predicate MirrorImages(there: Section, back: Section) {
    there.added == back.removed && there.removed == back.added
  }

  lemma OpsAreMirrored(was: Operations, now: Operations)
    ensures MirrorImages(OpsSection(was, now), OpsSection(now, was))
  {
  }

  /** Looking the other way, what was added has been removed, and the same names have changed. */
  lemma DiffIsMirrored(prior: Json, next: Json, there: Report, back: Report, v: seq<string>, w: seq<string>)
    requires IsReport(there, prior, next, v) && IsReport(back, next, prior, w)
    ensures MirrorImages(there.ops, back.ops)
    ensures MirrorImages(there.responses, back.responses) && there.responses.changed.Keys == back.responses.changed.Keys
    ensures MirrorImages(there.definitions, back.definitions) && there.definitions.changed.Keys == back.definitions.changed.Keys
  {
    var was, now :| OperationsOf(was, prior) && OperationsOf(now, next) && there == DiffOf(prior, next, was, now, v);
    ReportIs(back, next, prior, now, was, w);
    OpsAreMirrored(was, now);
    SharedLinesSpeak(BothSides(was, now));
    SharedLinesSpeak(BothSides(now, was));
    DefinitionLinesSpeak();
    NamedIsMirrored(Responses(prior), Responses(next), SharedLines(BothSides(was, now)), SharedLines(BothSides(now, was)));
    NamedIsMirrored(Definitions(prior), Definitions(next), DefinitionLines, DefinitionLines);
  }

  /** A report lists the new names of what changed, and accounts for all of it exactly when no two share one. */
  lemma AccountsForAllExactly(r: Report, prior: Json, next: Json, was: Operations, now: Operations, warnings: seq<string>)
    requires IsReport(r, prior, next, warnings) && OperationsOf(was, prior) && OperationsOf(now, next)
    ensures r.ops.changed.Keys == NamesOf(now, ChangedSet(was, now))
    ensures |r.ops.changed| == |ChangedSet(was, now)| <==> ApartByName(now, ChangedSet(was, now))
  {
    ReportIs(r, prior, next, was, now, warnings);
    ChangedNames(was, now, OperationLines);
    NothingLostExactly(was, now, OperationLines);
  }

  lemma ChangedSetIsMirrored(was: Operations, now: Operations)
    ensures ChangedSet(was, now) == ChangedSet(now, was)
  {
  }

  /**
   The same operations have changed, each side naming them as they are on its new side; so both count
   the same where neither names two alike.
   */
  lemma ChangedOpsAreMirrored(prior: Json, next: Json, there: Report, back: Report, v: seq<string>, w: seq<string>,
                              was: Operations, now: Operations)
    requires IsReport(there, prior, next, v) && IsReport(back, next, prior, w)
    requires OperationsOf(was, prior) && OperationsOf(now, next)
    ensures ChangedSet(was, now) == ChangedSet(now, was)
    ensures there.ops.changed.Keys == NamesOf(now, ChangedSet(was, now))
    ensures back.ops.changed.Keys == NamesOf(was, ChangedSet(was, now))
    ensures ApartByName(now, ChangedSet(was, now)) && ApartByName(was, ChangedSet(was, now)) ==>
              |there.ops.changed| == |back.ops.changed|
  {
    ChangedSetIsMirrored(was, now);
    AccountsForAllExactly(there, prior, next, was, now, v);
    AccountsForAllExactly(back, next, prior, now, was, w);
  }

  lemma NamedIsMirrored(prior: Table, next: Table, f: DescribePair, g: DescribePair)
    requires forall k, o, n :: f(k, o, n) != [] && g(k, n, o) != []
    ensures var there, back := NamedSection(prior, next, f), NamedSection(next, prior, g);
            MirrorImages(there, back) && there.changed.Keys == back.changed.Keys
  {
  }

  /** Two documents whose report does not: two operations changed, and one account. */
  lemma ReportLosesAnAccount(r: Report, x: Json, y: Json, warnings: seq<string>, was: Operations, now: Operations)
    requires x != y && IsReport(r, TwoOfAName(x), TwoOfAName(y), warnings)
    requires OperationsOf(was, TwoOfAName(x)) && OperationsOf(now, TwoOfAName(y))
    ensures |ChangedSet(was, now)| == 2 && |r.ops.changed| == 1
  {
    ReportIs(r, TwoOfAName(x), TwoOfAName(y), was, now, warnings);
    AnAccountIsLost(x, y, was, now);
  }

  /** Every changed name appears, with a non-empty account of the change; unchanged ones do not. */
  lemma NamedIsExact(prior: Table, next: Table, describe: DescribePair, k: string)
    requires forall k, o, n :: describe(k, o, n) != []
    ensures var s := NamedSection(prior, next, describe);
            && (k in s.added <==> k in next && k !in prior)
            && (k in s.removed <==> k in prior && k !in next)
            && (k in s.changed <==> k in prior && k in next && prior[k] != next[k])
            && (k in s.changed ==> s.changed[k] == describe(k, prior[k], next[k]) && s.changed[k] != [])
  {
    assert k in next.Keys - prior.Keys <==> k in InOrder(next.Keys - prior.Keys);
    assert k in prior.Keys - next.Keys <==> k in InOrder(prior.Keys - next.Keys);
  }
}
