/** What changed between two canonical API specifications. */
module SpecDiff {
  import opened Wrappers
  import opened Text
  import opened Sequences
  import opened Json

  type Table = map<string, Json>

  // ---------------------------------------------------------------------- reading JSON

  /** `Value::get` with a key: only objects have members. */
  function Member(v: Json, key: string): (r: Option<Json>)
    ensures r.Some? ==> r.value < v
  {
    match v
    case Obj(entries) => if key in entries then Some(entries[key]) else None
    case _ => None
  }

  function Entries(v: Option<Json>): Table {
    if v.Some? && v.value.Obj? then v.value.entries else map[]
  }

  function StrOf(v: Json, key: string): string {
    var m := Member(v, key);
    if m.Some? && m.value.Str? then m.value.s else ""
  }

  function DescribeSchema(schema: Json): string {
    var r, ty, format := Member(schema, "$ref"), StrOf(schema, "type"), StrOf(schema, "format");
    if r.Some? && r.value.Str? then r.value.s
    else if ty == "array" then
      var items := Member(schema, "items");
      "array of " + if items.Some? then DescribeSchema(items.value) else "(none)"
    else if ty == "" then "(none)"
    else if format == "" then ty
    else ty + "/" + format
  }

  function DescribeSchemaOr(schema: Option<Json>): string {
    if schema.Some? then DescribeSchema(schema.value) else "(none)"
  }

  function DescribeResponse(response: Json): string {
    var r := Member(response, "$ref");
    if r.Some? && r.value.Str? then r.value.s else DescribeSchemaOr(Member(response, "schema"))
  }

  function DescribeParam(param: Json): string {
    var schema := Member(param, "schema");
    if schema.Some? then DescribeSchema(schema.value) else DescribeSchema(param)
  }

  function IsRequired(param: Json): bool {
    Member(param, "required") == Some(Bool(true))
  }

  function Strings(items: seq<Json>): seq<string> {
    if items == [] then []
    else if items[0].Str? then [items[0].s] + Strings(items[1..])
    else Strings(items[1..])
  }

  function RequiredList(def: Json): seq<string> {
    var m := Member(def, "required");
    if m.Some? && m.value.Arr? then Strings(m.value.items) else []
  }

  function TextAt(entries: Table, key: string): string {
    if key in entries && entries[key].Str? then entries[key].s else ""
  }

  /** What a schema is described as: what it refers to, else its type with its format, else what it is an array of. */
  lemma DescribeMeaning(entries: Table)
    ensures var ty, format := TextAt(entries, "type"), TextAt(entries, "format");
            DescribeSchema(Obj(entries)) ==
            if "$ref" in entries && entries["$ref"].Str? then entries["$ref"].s
            else if ty == "" then "(none)"
            else if ty == "array" then "array of " + (if "items" in entries then DescribeSchema(entries["items"]) else "(none)")
            else if format == "" then ty
            else ty + "/" + format
    ensures DescribeParam(Obj(entries)) ==
            if "schema" in entries then DescribeSchema(entries["schema"]) else DescribeSchema(Obj(entries))
    ensures DescribeResponse(Obj(entries)) ==
            if "$ref" in entries && entries["$ref"].Str? then entries["$ref"].s
            else if "schema" in entries then DescribeSchema(entries["schema"]) else "(none)"
    ensures IsRequired(Obj(entries)) <==> "required" in entries && entries["required"] == Bool(true)
  {
  }

  function IsText(): Json -> bool {
    (v: Json) => v.Str?
  }

  /** The required names are the strings of the list, in its order. */
  lemma {:induction false} StringsMeaning(items: seq<Json>)
    ensures |Strings(items)| == |Filter(items, IsText())|
    ensures forall i :: 0 <= i < |Strings(items)| ==> Filter(items, IsText())[i] == Str(Strings(items)[i])
  {
    if items != [] {
      StringsMeaning(items[1..]);
    }
  }

  /** Where they are read from. */
  lemma RequiredListMeaning(entries: Table)
    ensures RequiredList(Obj(entries)) ==
            if "required" in entries && entries["required"].Arr? then Strings(entries["required"].items) else []
  {
  }

  // ------------------------------------------------------------------- lines of a report

  datatype Line =
    | OperationId(before: string, after: string)
    | ParamRemoved(key: string)
    | ParamAdded(key: string, ty: string)
    | ParamChanged(key: string, required: Option<(bool, bool)>, types: Option<(string, string)>)
    | ResponseRemoved(status: string, ty: string)
    | ResponseAdded(status: string, ty: string)
    | ResponseType(status: string, before: string, after: string)
    | ResponseOther(status: string)
    | PropertyRemoved(name: string)
    | PropertyAdded(name: string, ty: string)
    | PropertyType(name: string, before: string, after: string)
    | PropertyOther(name: string)
    | RequiredNames(namesBefore: seq<string>, namesAfter: seq<string>)
    | SchemaType(before: string, after: string)
    | UsedBy(operations: seq<string>)
    | MetadataOnly

  /** What to say of one key, given what each side holds under it. */
  type Describe = (string, Option<Json>, Option<Json>) -> seq<Line>

  function Changed<T(==)>(before: T, after: T): Option<(T, T)> {
    if before == after then None else Some((before, after))
  }

  function ParamLine(key: string, before: Option<Json>, after: Option<Json>): seq<Line> {
    match (before, after)
    case (Some(_), None) => [ParamRemoved(key)]
    case (None, Some(n)) => [ParamAdded(key, DescribeParam(n))]
    case (Some(o), Some(n)) =>
      if o == n then []
      else [ParamChanged(key, Changed(IsRequired(o), IsRequired(n)), Changed(DescribeParam(o), DescribeParam(n)))]
    case _ => []
  }

  function ResponseLine(status: string, before: Option<Json>, after: Option<Json>): seq<Line> {
    match (before, after)
    case (Some(o), None) => [ResponseRemoved(status, DescribeResponse(o))]
    case (None, Some(n)) => [ResponseAdded(status, DescribeResponse(n))]
    case (Some(o), Some(n)) =>
      if o == n then []
      else if DescribeResponse(o) != DescribeResponse(n) then [ResponseType(status, DescribeResponse(o), DescribeResponse(n))]
      else [ResponseOther(status)]
    case _ => []
  }

  function PropertyLine(name: string, before: Option<Json>, after: Option<Json>): seq<Line> {
    match (before, after)
    case (Some(_), None) => [PropertyRemoved(name)]
    case (None, Some(n)) => [PropertyAdded(name, DescribeSchema(n))]
    case (Some(o), Some(n)) =>
      if o == n then []
      else if DescribeSchema(o) != DescribeSchema(n) then [PropertyType(name, DescribeSchema(o), DescribeSchema(n))]
      else [PropertyOther(name)]
    case _ => []
  }

  function CompareKeys(prior: Table, next: Table, keys: seq<string>, describe: Describe): seq<Line> {
    if keys == [] then []
    else
      var k := keys[|keys| - 1];
      CompareKeys(prior, next, keys[..|keys| - 1], describe) + describe(k, MapGet(prior, k), MapGet(next, k))
  }

  /** The lines for every key of either side, in key order. */
  function Compared(prior: Table, next: Table, describe: Describe): seq<Line> {
    CompareKeys(prior, next, InOrder(prior.Keys + next.Keys), describe)
  }

  /** The loop that parameters, responses and properties share. */
  method Compare(prior: Table, next: Table, describe: Describe) returns (lines: seq<Line>)
    ensures lines == Compared(prior, next, describe)
  {
    var keys := InOrder(prior.Keys + next.Keys);
    lines := [];
    for i := 0 to |keys|
      invariant lines == CompareKeys(prior, next, keys[..i], describe)
    {
      assert keys[..i + 1][..i] == keys[..i];
      lines := lines + describe(keys[i], MapGet(prior, keys[i]), MapGet(next, keys[i]));
    }
    assert keys[..|keys|] == keys;
  }

  lemma {:induction false} CompareKeysOrigin(prior: Table, next: Table, keys: seq<string>, describe: Describe, line: Line)
    ensures line in CompareKeys(prior, next, keys, describe) <==>
            exists k :: k in keys && line in describe(k, MapGet(prior, k), MapGet(next, k))
    decreases |keys|
  {
    if keys != [] {
      var n := |keys| - 1;
      CompareKeysOrigin(prior, next, keys[..n], describe, line);
      assert keys == keys[..n] + [keys[n]];
    }
  }

  /** `describe` has something to say exactly when the two sides differ. */
  ghost predicate Faithful(describe: Describe) {
    forall k, before, after :: describe(k, before, after) == [] <==> before == after
  }

  /** No difference goes unreported, and nothing is reported without one. */
  lemma ComparedIsComplete(prior: Table, next: Table, describe: Describe)
    requires Faithful(describe)
    ensures Compared(prior, next, describe) == [] <==> prior == next
  {
    var keys, lines := InOrder(prior.Keys + next.Keys), Compared(prior, next, describe);
    if lines == [] {
      forall k | k in keys ensures MapGet(prior, k) == MapGet(next, k) {
        var said := describe(k, MapGet(prior, k), MapGet(next, k));
        if said != [] {
          CompareKeysOrigin(prior, next, keys, describe, said[0]);
        }
      }
      SameTables(prior, next);
    }
    if prior == next && lines != [] {
      CompareKeysOrigin(prior, next, keys, describe, lines[0]);
    }
  }

  lemma SameTables(prior: Table, next: Table)
    requires forall k :: k in prior.Keys + next.Keys ==> MapGet(prior, k) == MapGet(next, k)
    ensures prior == next
  {
    forall k ensures k in prior <==> k in next {
      if k in prior || k in next {
        assert MapGet(prior, k) == MapGet(next, k);
      }
    }
    assert forall k :: k in prior ==> MapGet(prior, k) == MapGet(next, k);
    assert prior.Keys == next.Keys;
  }

  /** `describe` never falls back on the line that stands for nothing visible. */
  ghost predicate Specific(describe: Describe) {
    forall k, before, after :: MetadataOnly !in describe(k, before, after)
  }

  lemma LinesAreFaithful()
    ensures Faithful(ParamLine) && Faithful(ResponseLine) && Faithful(PropertyLine)
    ensures Specific(ParamLine) && Specific(ResponseLine) && Specific(PropertyLine)
  {
  }

  lemma ComparedSaysMore(prior: Table, next: Table, describe: Describe)
    requires Specific(describe)
    ensures MetadataOnly !in Compared(prior, next, describe)
  {
    CompareKeysOrigin(prior, next, InOrder(prior.Keys + next.Keys), describe, MetadataOnly);
  }

  // ----------------------------------------------------------------- one operation

  function ParamKey(p: Json): string {
    StrOf(p, "name") + " (" + StrOf(p, "in") + ")"
  }

  /** Collected by key, a later parameter of the same key replacing an earlier one. */
  function ByKey(params: seq<Json>): Table {
    if params == [] then map[]
    else ByKey(params[..|params| - 1])[ParamKey(params[|params| - 1]) := params[|params| - 1]]
  }

  function Params(op: Json): Table {
    var m := Member(op, "parameters");
    if m.Some? && m.value.Arr? then ByKey(m.value.items) else map[]
  }

  /** Parameters are kept under their name and where they travel. */
  lemma ParamsMeaning(entries: Table)
    ensures Params(Obj(entries)) ==
            if "parameters" in entries && entries["parameters"].Arr? then ByKey(entries["parameters"].items) else map[]
    ensures ParamKey(Obj(entries)) == TextAt(entries, "name") + " (" + TextAt(entries, "in") + ")"
  {
  }

  ghost predicate LastByKey(params: seq<Json>, i: nat) {
    i < |params| && forall j :: i < j < |params| ==> ParamKey(params[j]) != ParamKey(params[i])
  }

  /** Under every key is the last parameter that has it, and there are no other keys. */
  lemma {:induction false} ByKeyMeaning(params: seq<Json>, k: string)
    ensures k in ByKey(params) <==> exists i :: 0 <= i < |params| && ParamKey(params[i]) == k
    ensures k in ByKey(params) ==>
              exists i: nat :: LastByKey(params, i) && ParamKey(params[i]) == k && ByKey(params)[k] == params[i]
    decreases |params|
  {
    if params != [] {
      var n := |params| - 1;
      var init := params[..n];
      ByKeyMeaning(init, k);
      assert forall i :: 0 <= i < n ==> init[i] == params[i];
      if ParamKey(params[n]) == k {
        assert LastByKey(params, n);
      } else if k in ByKey(init) {
        var i: nat :| LastByKey(init, i) && ParamKey(init[i]) == k && ByKey(init)[k] == init[i];
        assert LastByKey(params, i) && ParamKey(params[i]) == k;
      }
    }
  }

  function Responses(v: Json): Table {
    Entries(Member(v, "responses"))
  }

  function IdLine(prior: Json, next: Json): seq<Line> {
    var before, after := StrOf(prior, "operationId"), StrOf(next, "operationId");
    if before == after then [] else [OperationId(before, after)]
  }

  function OrMetadata(lines: seq<Line>): seq<Line> {
    if lines == [] then [MetadataOnly] else lines
  }

  function OperationLines(prior: Json, next: Json): seq<Line> {
    OrMetadata(IdLine(prior, next)
               + Compared(Params(prior), Params(next), ParamLine)
               + Compared(Responses(prior), Responses(next), ResponseLine))
  }

  method DiffOperation(prior: Json, next: Json) returns (lines: seq<Line>)
    ensures lines == OperationLines(prior, next)
  {
    lines := IdLine(prior, next);
    var params := Compare(Params(prior), Params(next), ParamLine);
    lines := lines + params;
    var responses := Compare(Responses(prior), Responses(next), ResponseLine);
    lines := lines + responses;
    if lines == [] {
      lines := [MetadataOnly];
    }
  }

  lemma OnlyMetadata(a: seq<Line>, b: seq<Line>, c: seq<Line>)
    requires MetadataOnly !in a && MetadataOnly !in b && MetadataOnly !in c
    ensures OrMetadata(a + b + c) != []
    ensures OrMetadata(a + b + c) == [MetadataOnly] <==> a == [] && b == [] && c == []
  {
    assert MetadataOnly !in a + b + c;
    assert a + b + c == [] <==> a == [] && b == [] && c == [];
  }

  /** A changed operation always has something said of it, and only metadata when nothing a caller sees differs. */
  lemma OperationLinesMeaning(prior: Json, next: Json)
    ensures OperationLines(prior, next) != []
    ensures OperationLines(prior, next) == [MetadataOnly] <==>
            && StrOf(prior, "operationId") == StrOf(next, "operationId")
            && Params(prior) == Params(next)
            && Responses(prior) == Responses(next)
  {
    LinesAreFaithful();
    ComparedIsComplete(Params(prior), Params(next), ParamLine);
    ComparedIsComplete(Responses(prior), Responses(next), ResponseLine);
    ComparedSaysMore(Params(prior), Params(next), ParamLine);
    ComparedSaysMore(Responses(prior), Responses(next), ResponseLine);
    OnlyMetadata(IdLine(prior, next), Compared(Params(prior), Params(next), ParamLine),
                 Compared(Responses(prior), Responses(next), ResponseLine));
  }

  // ------------------------------------------------- shared responses and definitions

  function SharedResponseLines(name: string, prior: Json, next: Json): seq<Line> {
    if DescribeResponse(prior) != DescribeResponse(next) then [SchemaType(DescribeResponse(prior), DescribeResponse(next))]
    else [MetadataOnly]
  }

  function Properties(def: Json): Table {
    Entries(Member(def, "properties"))
  }

  function RequiredLine(prior: Json, next: Json): seq<Line> {
    if RequiredList(prior) == RequiredList(next) then [] else [RequiredNames(RequiredList(prior), RequiredList(next))]
  }

  function DefinitionLines(name: string, prior: Json, next: Json): seq<Line> {
    var lines := Compared(Properties(prior), Properties(next), PropertyLine) + RequiredLine(prior, next);
    var before, after := DescribeSchema(prior), DescribeSchema(next);
    if lines == [] && before != after then [SchemaType(before, after)] else OrMetadata(lines)
  }

  lemma DefinitionLinesMeaning(name: string, prior: Json, next: Json)
    ensures DefinitionLines(name, prior, next) != []
    ensures DefinitionLines(name, prior, next) == [MetadataOnly] <==>
            && Properties(prior) == Properties(next)
            && RequiredList(prior) == RequiredList(next)
            && DescribeSchema(prior) == DescribeSchema(next)
  {
    var properties := Compared(Properties(prior), Properties(next), PropertyLine);
    LinesAreFaithful();
    ComparedIsComplete(Properties(prior), Properties(next), PropertyLine);
    ComparedSaysMore(Properties(prior), Properties(next), PropertyLine);
    OnlyMetadata(properties, RequiredLine(prior, next), []);
    assert properties + RequiredLine(prior, next) + [] == properties + RequiredLine(prior, next);
  }

  // ------------------------------------------------------------------- two named tables

  /** Names only the new side has, names only the old side has, and what changed in the others. */
  datatype Section = Section(added: seq<string>, removed: seq<string>, changed: map<string, seq<Line>>)

  const NOTHING: Section := Section([], [], map[])

  type DescribePair = (string, Json, Json) -> seq<Line>

  /** The lines about the names among `names` that both sides have and that have changed. */
  function ChangedAmong(prior: Table, next: Table, names: set<string>, describe: DescribePair): map<string, seq<Line>> {
    map k | k in names && IsChange(prior, next, k, describe) :: describe(k, prior[k], next[k])
  }

  function NamedSection(prior: Table, next: Table, describe: DescribePair): Section {
    Section(InOrder(next.Keys - prior.Keys), InOrder(prior.Keys - next.Keys), ChangedAmong(prior, next, prior.Keys, describe))
  }

  function Outside(s: set<string>): string -> bool {
    k => k !in s
  }

  lemma {:induction false} FilterIncreasing(keys: seq<string>, keep: string -> bool)
    requires Increasing(keys)
    ensures Increasing(Filter(keys, keep))
    ensures forall k :: k in Filter(keys, keep) <==> k in keys && keep(k)
  {
    if keys != [] {
      FilterIncreasing(keys[1..], keep);
      var rest := Filter(keys[1..], keep);
      forall j | 0 <= j < |rest| ensures Less(keys[0], rest[j]) {
        assert rest[j] in keys[1..];
        var i :| 0 <= i < |keys[1..]| && keys[1..][i] == rest[j];
        assert keys[i + 1] == rest[j];
      }
    }
  }

  /** The names of `a` that `b` lacks, found by walking `a` in order. */
  method OnlyIn<V>(a: map<string, V>, b: map<string, V>) returns (names: seq<string>)
    ensures names == InOrder(a.Keys - b.Keys)
  {
    var keys := InOrder(a.Keys);
    names := [];
    for i := 0 to |keys|
      invariant names == Filter(keys[..i], Outside(b.Keys))
    {
      FilterSnoc(keys[..i], keys[i], Outside(b.Keys));
      assert keys[..i + 1] == keys[..i] + [keys[i]];
      if keys[i] !in b {
        names := names + [keys[i]];
      }
    }
    assert keys[..|keys|] == keys;
    FilterIncreasing(keys, Outside(b.Keys));
    IncreasingIsDetermined(names, InOrder(a.Keys - b.Keys));
  }

  predicate IsChange(prior: Table, next: Table, k: string, describe: DescribePair) {
    k in prior && k in next && prior[k] != next[k] && describe(k, prior[k], next[k]) != []
  }

  /** What the walk over `keys` records. */
  function ChangedKeys(prior: Table, next: Table, keys: seq<string>, describe: DescribePair): map<string, seq<Line>> {
    if keys == [] then map[]
    else
      var k := keys[|keys| - 1];
      var before := ChangedKeys(prior, next, keys[..|keys| - 1], describe);
      if IsChange(prior, next, k, describe) then before[k := describe(k, prior[k], next[k])] else before
  }

  lemma ChangedAmongOneMore(prior: Table, next: Table, names: set<string>, k: string, describe: DescribePair)
    ensures ChangedAmong(prior, next, names + {k}, describe) ==
            if IsChange(prior, next, k, describe)
            then ChangedAmong(prior, next, names, describe)[k := describe(k, prior[k], next[k])]
            else ChangedAmong(prior, next, names, describe)
  {
  }

  lemma {:induction false} ChangedKeysMeaning(prior: Table, next: Table, keys: seq<string>, describe: DescribePair,
                                              names: set<string>)
    requires forall k :: k in keys <==> k in names
    ensures ChangedKeys(prior, next, keys, describe) == ChangedAmong(prior, next, names, describe)
    decreases |keys|
  {
    if keys == [] {
      assert names == {};
    } else {
      var init, last := keys[..|keys| - 1], keys[|keys| - 1];
      var some := set k | k in init;
      ChangedKeysMeaning(prior, next, init, describe, some);
      assert keys == init + [last];
      assert names == some + {last};
      ChangedAmongOneMore(prior, next, some, last, describe);
    }
  }

  lemma ChangedKeysStep(prior: Table, next: Table, keys: seq<string>, i: nat, describe: DescribePair)
    requires i < |keys|
    ensures ChangedKeys(prior, next, keys[..i + 1], describe) ==
            if IsChange(prior, next, keys[i], describe)
            then ChangedKeys(prior, next, keys[..i], describe)[keys[i] := describe(keys[i], prior[keys[i]], next[keys[i]])]
            else ChangedKeys(prior, next, keys[..i], describe)
  {
    assert keys[..i + 1][..i] == keys[..i];
  }

  method ChangedIn(prior: Table, next: Table, describe: DescribePair) returns (changed: map<string, seq<Line>>)
    ensures changed == ChangedAmong(prior, next, prior.Keys, describe)
  {
    var keys := InOrder(prior.Keys);
    changed := map[];
    for i := 0 to |keys|
      invariant changed == ChangedKeys(prior, next, keys[..i], describe)
    {
      ChangedKeysStep(prior, next, keys, i, describe);
      var k := keys[i];
      if k in next && prior[k] != next[k] {
        var lines := describe(k, prior[k], next[k]);
        if lines != [] {
          changed := changed[k := lines];
        }
      }
    }
    assert keys[..|keys|] == keys;
    ChangedKeysMeaning(prior, next, keys, describe, prior.Keys);
  }

  method DiffNamed(prior: Table, next: Table, describe: DescribePair) returns (s: Section)
    ensures s == NamedSection(prior, next, describe)
  {
    var removed := OnlyIn(prior, next);
    var changed := ChangedIn(prior, next, describe);
    var added := OnlyIn(next, prior);
    s := Section(added, removed, changed);
  }

  /** Nothing is reported exactly when the tables agree, as long as a difference always has a description. */
  lemma NamedDrift(prior: Table, next: Table, describe: DescribePair)
    requires forall k, o, n :: describe(k, o, n) != []
    ensures NamedSection(prior, next, describe) == NOTHING <==> prior == next
  {
    var s := NamedSection(prior, next, describe);
    if s == NOTHING {
      forall k | k in prior.Keys + next.Keys ensures MapGet(prior, k) == MapGet(next, k) {
        assert k in next.Keys - prior.Keys ==> k in s.added;
        assert k in prior.Keys - next.Keys ==> k in s.removed;
        assert k in prior.Keys * next.Keys && prior[k] != next[k] ==> k in s.changed;
      }
      SameTables(prior, next);
    }
  }
}
