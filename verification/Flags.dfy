/**
 The long flags of one generated command. Every generated name goes through one allocator that
 shares a set of names with the reserved ones, so that no two flags can be spelled alike.
 */
module Flags {
  import opened Wrappers
  import opened Text
  import opened Sequences

  // --------------------------------------------------------------------- commands

  datatype Arg = Arg(id: string, long: Option<string>, short: Option<char>, aliases: seq<string>)

  datatype Command = Command(name: string, args: seq<Arg>, subs: seq<Command>)

  /** The names an argument answers to: longs bare, a short with its dash. */
  function Names(a: Arg): seq<string> {
    (if a.long.Some? then [a.long.value] else [])
    + a.aliases
    + (if a.short.Some? then [['-', a.short.value]] else [])
  }

  function AllNames(args: seq<Arg>): seq<string> {
    Flat(seq(|args|, i requires 0 <= i < |args| => Names(args[i])))
  }

  function Ids(args: seq<Arg>): seq<string> {
    seq(|args|, i requires 0 <= i < |args| => args[i].id)
  }

  /** A set that is only ever added to. */
  class NameSet {
    var names: set<string>

    constructor ()
      ensures names == {}
    {
      names := {};
    }

    method Insert(s: string) returns (added: bool)
      modifies this
      ensures added == (s !in old(names))
      ensures names == old(names) + {s}
    {
      added := s !in names;
      names := names + {s};
    }
  }

  // -------------------------------------------------------------------- allocation

  datatype Kind = Path | Query | Form | Body

  /** A generated parameter or body field that wants the flag `--{flag}`. */
  datatype Want = Want(kind: Kind, flag: string)

  function KindWord(k: Kind): string {
    match k
    case Path => "param"
    case Query => "query"
    case Form => "form"
    case Body => "body"
  }

  /** The names tried first, in order. */
  function FirstChoices(w: Want): seq<string> {
    [w.flag] + (if w.flag == "limit" then ["per-page"] else []) + [KindWord(w.kind) + "-" + w.flag]
  }

  function Numbered(flag: string, n: nat): string {
    flag + "-" + Decimal(n)
  }

  /** The `i`-th name tried: the first choices, then `flag-2`, `flag-3`, … without end. */
  function Choice(w: Want, i: nat): string {
    var first := FirstChoices(w);
    if i < |first| then first[i] else Numbered(w.flag, i - |first| + 2)
  }

  ghost predicate FirstFree(used: set<string>, w: Want, i: nat) {
    Choice(w, i) !in used && forall j: nat :: j < i ==> Choice(w, j) in used
  }

  /** `name` is the earliest choice nobody has taken. */
  ghost predicate Picked(used: set<string>, w: Want, name: string) {
    exists i: nat :: FirstFree(used, w, i) && name == Choice(w, i)
  }

  lemma PickedIsUnique(used: set<string>, w: Want, a: string, b: string)
    requires Picked(used, w, a) && Picked(used, w, b)
    ensures a == b
  {
    var i: nat :| FirstFree(used, w, i) && a == Choice(w, i);
    var j: nat :| FirstFree(used, w, j) && b == Choice(w, j);
    assert i == j;
  }

  lemma NumberedIsInjective(flag: string, m: nat, n: nat)
    requires Numbered(flag, m) == Numbered(flag, n)
    ensures m == n
  {
    assert Numbered(flag, m)[|flag| + 1..] == Decimal(m);
    assert Numbered(flag, n)[|flag| + 1..] == Decimal(n);
    DecimalIsInjective(m, n);
  }

  /** Numbers already taken are distinct members of a finite set, so the search for a free one ends. */
  lemma {:induction false} NumbersRunOut(used: set<string>, flag: string, n: nat)
    requires n >= 2
    requires forall k: nat :: 2 <= k < n ==> Numbered(flag, k) in used
    ensures n - 2 <= |used|
    decreases n
  {
    if n > 2 {
      var last := Numbered(flag, n - 1);
      forall k: nat | 2 <= k < n - 1 ensures Numbered(flag, k) in used - {last} {
        if Numbered(flag, k) == last {
          NumberedIsInjective(flag, k, n - 1);
        }
      }
      assert last in used;
      NumbersRunOut(used - {last}, flag, n - 1);
      assert |used - {last}| == |used| - 1;
    }
  }

  method UniqueLong(used: NameSet, w: Want) returns (name: string)
    modifies used
    ensures Picked(old(used.names), w, name)
    ensures name !in old(used.names)
    ensures used.names == old(used.names) + {name}
  {
    var candidates := [w.flag];
    if w.flag == "limit" {
      candidates := candidates + ["per-page"];
    }
    candidates := candidates + [KindWord(w.kind) + "-" + w.flag];
    ghost var before := used.names;
    assert candidates == FirstChoices(w);
    for i := 0 to |candidates|
      invariant used.names == before
      invariant forall j: nat :: j < i ==> Choice(w, j) in before
    {
      var added := used.Insert(candidates[i]);
      if added {
        assert FirstFree(before, w, i) && candidates[i] == Choice(w, i);
        return candidates[i];
      }
      assert used.names == before;
    }
    ghost var first := |candidates|;
    var n := 2;
    while true
      invariant n >= 2 && used.names == before
      invariant forall j: nat :: j < first + n - 2 ==> Choice(w, j) in before
      decreases |before| + 2 - n
    {
      ghost var i := first + n - 2;
      var c := w.flag + "-" + Decimal(n);
      assert c == Choice(w, i);
      var added := used.Insert(c);
      if added {
        assert FirstFree(before, w, i);
        return c;
      }
      assert used.names == before;
      forall k: nat | 2 <= k < n + 1 ensures Numbered(w.flag, k) in before {
        assert Numbered(w.flag, k) == Choice(w, first + k - 2);
      }
      NumbersRunOut(before, w.flag, n + 1);
      n := n + 1;
    }
  }

  ghost predicate GivenAt(reserved: set<string>, wants: seq<Want>, names: seq<string>, i: nat)
    requires i < |wants| == |names|
  {
    Picked(reserved + Range(names[..i]), wants[i], names[i])
  }

  /** `names` is what the allocator gives `wants`, one after another. */
  ghost predicate Allocation(reserved: set<string>, wants: seq<Want>, names: seq<string>) {
    |names| == |wants|
    && forall i: nat :: i < |wants| ==> GivenAt(reserved, wants, names, i)
  }

  lemma AllocationExtends(reserved: set<string>, wants: seq<Want>, names: seq<string>, w: Want, name: string)
    requires Allocation(reserved, wants, names)
    requires Picked(reserved + Range(names), w, name)
    ensures Allocation(reserved, wants + [w], names + [name])
  {
    forall i: nat | i < |wants| + 1 ensures GivenAt(reserved, wants + [w], names + [name], i) {
      assert (names + [name])[..i] == names[..i];
      assert names[..|names|] == names;
      assert i < |wants| ==> GivenAt(reserved, wants, names, i);
    }
  }

  /** The allocator leaves nothing open. */
  lemma {:induction false} AllocationIsUnique(reserved: set<string>, wants: seq<Want>, a: seq<string>, b: seq<string>)
    requires Allocation(reserved, wants, a) && Allocation(reserved, wants, b)
    ensures a == b
    decreases |wants|
  {
    if wants != [] {
      var n := |wants| - 1;
      AllocationShrinks(reserved, wants, a);
      AllocationShrinks(reserved, wants, b);
      AllocationIsUnique(reserved, wants[..n], a[..n], b[..n]);
      assert GivenAt(reserved, wants, a, n) && GivenAt(reserved, wants, b, n);
      PickedIsUnique(reserved + Range(a[..n]), wants[n], a[n], b[n]);
      assert a == a[..n] + [a[n]] && b == b[..n] + [b[n]];
    }
  }

  lemma AllocationShrinks(reserved: set<string>, wants: seq<Want>, names: seq<string>)
    requires wants != [] && Allocation(reserved, wants, names)
    ensures Allocation(reserved, wants[..|wants| - 1], names[..|names| - 1])
  {
    var n := |wants| - 1;
    forall i: nat | i < n ensures GivenAt(reserved, wants[..n], names[..n], i) {
      assert names[..n][..i] == names[..i];
      assert GivenAt(reserved, wants, names, i);
    }
  }

  /** No two allocated names are alike, and none is a reserved one. */
  lemma AllocatedNamesAreDistinct(reserved: set<string>, wants: seq<Want>, names: seq<string>)
    requires Allocation(reserved, wants, names)
    ensures Distinct(names)
    ensures forall i :: 0 <= i < |names| ==> names[i] !in reserved
  {
    forall i | 0 <= i < |names| ensures names[i] !in reserved && forall j :: 0 <= j < i ==> names[j] != names[i] {
      assert GivenAt(reserved, wants, names, i);
      forall j | 0 <= j < i ensures names[j] != names[i] {
        assert names[..i][j] in Range(names[..i]);
      }
    }
  }

  /** A flag is spelled as the API spells it exactly when that name is neither reserved nor already given out. */
  lemma KeptVerbatim(reserved: set<string>, wants: seq<Want>, names: seq<string>, i: nat)
    requires Allocation(reserved, wants, names) && i < |wants|
    ensures names[i] == wants[i].flag <==> wants[i].flag !in reserved && wants[i].flag !in names[..i]
  {
    var used := reserved + Range(names[..i]);
    assert GivenAt(reserved, wants, names, i);
    assert Choice(wants[i], 0) == wants[i].flag;
    if wants[i].flag !in used {
      assert FirstFree(used, wants[i], 0);
      PickedIsUnique(used, wants[i], names[i], wants[i].flag);
    }
  }

  /** Wishes that neither repeat nor hit a reserved name are all granted. */
  lemma {:induction false} DistinctWishesAreGranted(reserved: set<string>, wants: seq<Want>, names: seq<string>, i: nat)
    requires Allocation(reserved, wants, names) && i < |wants|
    requires forall j, k :: 0 <= j < k <= i ==> wants[j].flag != wants[k].flag
    requires forall j :: 0 <= j <= i ==> wants[j].flag !in reserved
    ensures names[i] == wants[i].flag
    decreases i
  {
    forall j | 0 <= j < i ensures names[j] == wants[j].flag {
      DistinctWishesAreGranted(reserved, wants, names, j);
    }
    KeptVerbatim(reserved, wants, names, i);
  }

  /** Where `--limit` is reserved, the first per-page `limit` becomes `--per-page`. */
  lemma LimitBecomesPerPage(reserved: set<string>, wants: seq<Want>, names: seq<string>, i: nat)
    requires Allocation(reserved, wants, names) && i < |wants|
    requires wants[i].flag == "limit" && "limit" in reserved
    ensures names[i] == "per-page" <==> "per-page" !in reserved && "per-page" !in names[..i]
  {
    var w, used := wants[i], reserved + Range(names[..i]);
    assert GivenAt(reserved, wants, names, i);
    assert Choice(w, 0) == "limit" && Choice(w, 1) == "per-page";
    if "per-page" !in used {
      assert FirstFree(used, w, 1);
      PickedIsUnique(used, w, names[i], "per-page");
    }
  }

  /** What stands in front of a flag whose own name is gone. */
  function Prefix(k: Kind): string {
    match k case Path => "param-" case Query => "query-" case Form => "form-" case Body => "body-"
  }

  /** A flag that cannot keep its name gets one that says where the parameter travels, exactly when that is free. */
  lemma TakenNameIsPrefixed(reserved: set<string>, wants: seq<Want>, names: seq<string>, i: nat)
    requires Allocation(reserved, wants, names) && i < |wants|
    requires var w := wants[i]; w.flag != "limit" && w.flag in reserved + Range(names[..i])
    ensures var name := Prefix(wants[i].kind) + wants[i].flag;
            (names[i] == name <==> name !in reserved && name !in names[..i])
  {
    var w, used := wants[i], reserved + Range(names[..i]);
    var name := Prefix(w.kind) + w.flag;
    assert GivenAt(reserved, wants, names, i);
    assert Choice(w, 0) == w.flag;
    assert Choice(w, 1) == KindWord(w.kind) + "-" + w.flag == name;
    if name !in used {
      assert FirstFree(used, w, 1);
      PickedIsUnique(used, w, names[i], name);
    }
  }

  /** The ids under which values are read back later. */
  lemma IdsByLocation(flag: string)
    ensures IdOf(Want(Path, flag)) == "path:" + flag && IdOf(Want(Query, flag)) == "query:" + flag
    ensures IdOf(Want(Form, flag)) == "form:" + flag && IdOf(Want(Body, flag)) == "body:" + flag
    ensures Positional(flag).id == "pos:" + flag
  {
  }

  // ------------------------------------------------------------------- one command

  /** Where a parameter travels. */
  datatype In = InPath | InQuery | InFormData

  datatype Param = Param(flag: string, location: In)

  /** The metadata of one operation, as far as its flags go. `body` lists the flags of its fields. */
  datatype Operation = Operation(command: string, params: seq<Param>, body: Option<seq<string>>, paged: bool)

  function ParamsIn(params: seq<Param>, location: In, kind: Kind): seq<Want> {
    if params == [] then []
    else if params[0].location == location then [Want(kind, params[0].flag)] + ParamsIn(params[1..], location, kind)
    else ParamsIn(params[1..], location, kind)
  }

  function BodyWants(op: Operation): seq<Want> {
    if op.body.None? then [] else seq(|op.body.value|, i requires 0 <= i < |op.body.value| => Want(Body, op.body.value[i]))
  }

  /** Everything that asks the allocator for a name, in the order in which it asks. */
  function Wants(op: Operation): seq<Want> {
    ParamsIn(op.params, InPath, Path) + ParamsIn(op.params, InQuery, Query) + ParamsIn(op.params, InFormData, Form)
    + BodyWants(op)
  }

  function EngineFlags(op: Operation): seq<string> {
    ["body-file", "dry-run"] + if op.paged then ["paginate", "limit"] else []
  }

  function Flag(id: string, long: string): Arg {
    Arg(id, Some(long), None, [])
  }

  function Positional(flag: string): Arg {
    Arg("pos:" + flag, None, None, [])
  }

  function IdOf(w: Want): string {
    (match w.kind case Path => "path:" case Query => "query:" case Form => "form:" case Body => "body:") + w.flag
  }

  /** A path parameter is accepted by position and as a flag, everything else only as a flag. */
  function ArgsOf(w: Want, long: string): seq<Arg> {
    if w.kind == Path then [Positional(w.flag), Flag(IdOf(w), long)] else [Flag(IdOf(w), long)]
  }

  function ParamArgs(wants: seq<Want>, names: seq<string>): seq<Arg>
    requires |wants| == |names|
  {
    var n: nat := |wants|;
    if n == 0 then [] else ParamArgs(wants[..n - 1], names[..n - 1]) + ArgsOf(wants[n - 1], names[n - 1])
  }

  function EngineArgs(op: Operation): seq<Arg> {
    [Flag("fjo:body-file", "body-file"), Flag("fjo:dry-run", "dry-run")]
    + if op.paged then [Flag("fjo:paginate", "paginate"), Flag("fjo:limit", "limit")] else []
  }

  function LeafArgs(op: Operation, names: seq<string>): seq<Arg>
    requires |names| == |Wants(op)|
  {
    ParamArgs(Wants(op), names) + EngineArgs(op)
  }

  // ------------------------------------------------------ what a command accepts, and where

  function Located(location: In): Param -> bool {
    (p: Param) => p.location == location
  }

  function WantOf(kind: Kind): Param -> Want {
    (p: Param) => Want(kind, p.flag)
  }

  /** The parameters of one location, in the order in which the operation lists them. */
  lemma {:induction false} ParamsInMeaning(params: seq<Param>, location: In, kind: Kind)
    ensures ParamsIn(params, location, kind) == Mapped(Filter(params, Located(location)), WantOf(kind))
  {
    if params != [] {
      ParamsInMeaning(params[1..], location, kind);
    }
  }

  function TakesPlace(): Arg -> bool {
    (a: Arg) => a.long.None? && a.short.None?
  }

  function PlaceOf(): Param -> Arg {
    (p: Param) => Positional(p.flag)
  }

  lemma PlacesOfOne(w: Want, long: string)
    ensures Filter(ArgsOf(w, long), TakesPlace()) == if w.kind == Path then [Positional(w.flag)] else []
  {
    var flag := Flag(IdOf(w), long);
    assert [flag][1..] == [] && Filter([flag], TakesPlace()) == [];
    if w.kind == Path {
      assert ArgsOf(w, long)[1..] == [flag];
    }
  }

  function IsPath(): Want -> bool {
    (w: Want) => w.kind == Path
  }

  function PlaceOfWant(): Want -> Arg {
    (w: Want) => Positional(w.flag)
  }

  lemma {:induction false} PlacesOfWants(wants: seq<Want>, names: seq<string>)
    requires |wants| == |names|
    ensures Filter(ParamArgs(wants, names), TakesPlace()) == Mapped(Filter(wants, IsPath()), PlaceOfWant())
    decreases |wants|
  {
    if wants != [] {
      var n := |wants| - 1;
      PlacesOfWants(wants[..n], names[..n]);
      FilterConcat(ParamArgs(wants[..n], names[..n]), ArgsOf(wants[n], names[n]), TakesPlace());
      PlacesOfOne(wants[n], names[n]);
      FilterSnoc(wants[..n], wants[n], IsPath());
      assert wants == wants[..n] + [wants[n]];
    }
  }

  lemma PathWants(op: Operation)
    ensures Filter(Wants(op), IsPath()) == ParamsIn(op.params, InPath, Path)
  {
    var a, b := ParamsIn(op.params, InPath, Path), ParamsIn(op.params, InQuery, Query);
    var c, d := ParamsIn(op.params, InFormData, Form), BodyWants(op);
    ParamsInMeaning(op.params, InPath, Path);
    ParamsInMeaning(op.params, InQuery, Query);
    ParamsInMeaning(op.params, InFormData, Form);
    FilterAll(a, IsPath(), true);
    FilterAll(b, IsPath(), false);
    FilterAll(c, IsPath(), false);
    FilterAll(d, IsPath(), false);
    FilterConcat(a + b + c, d, IsPath());
    FilterConcat(a + b, c, IsPath());
    FilterConcat(a, b, IsPath());
  }

  /** By position a command takes its path parameters and nothing else, in the order in which the operation lists them. */
  lemma PositionalsMeaning(op: Operation, names: seq<string>)
    requires |names| == |Wants(op)|
    ensures Filter(LeafArgs(op, names), TakesPlace()) == Mapped(Filter(op.params, Located(InPath)), PlaceOf())
  {
    var params := Filter(op.params, Located(InPath));
    FilterConcat(ParamArgs(Wants(op), names), EngineArgs(op), TakesPlace());
    PlacesOfWants(Wants(op), names);
    PathWants(op);
    ParamsInMeaning(op.params, InPath, Path);
    FilterAll(EngineArgs(op), TakesPlace(), false);
    assert Mapped(Mapped(params, WantOf(Path)), PlaceOfWant()) == Mapped(params, PlaceOf());
  }

  /** Every parameter and every body field has its own flag, under the name handed out for it. */
  lemma {:induction false} EveryWantHasItsFlag(wants: seq<Want>, names: seq<string>, i: nat)
    requires |wants| == |names| && i < |wants|
    ensures Flag(IdOf(wants[i]), names[i]) in ParamArgs(wants, names)
    decreases |wants|
  {
    var n := |wants| - 1;
    if i < n {
      EveryWantHasItsFlag(wants[..n], names[..n], i);
    } else {
      assert Flag(IdOf(wants[n]), names[n]) in ArgsOf(wants[n], names[n]);
    }
  }

  function KindOf(location: In): Kind {
    match location case InPath => Path case InQuery => Query case InFormData => Form
  }

  /** What asks for a name: every parameter, as what it is, and every field of the body. */
  lemma WantsMeaning(op: Operation, w: Want)
    ensures w in Wants(op) <==>
            || (exists p :: p in op.params && w == Want(KindOf(p.location), p.flag))
            || (w.kind == Body && op.body.Some? && w.flag in op.body.value)
  {
    InOneLocation(op.params, InPath, w);
    InOneLocation(op.params, InQuery, w);
    InOneLocation(op.params, InFormData, w);
    BodyWantsMeaning(op, w);
    SomeLocation(op.params, w);
    assert w in Wants(op) <==>
           || w in ParamsIn(op.params, InPath, Path) || w in ParamsIn(op.params, InQuery, Query)
           || w in ParamsIn(op.params, InFormData, Form) || w in BodyWants(op);
  }

  lemma BodyWantsMeaning(op: Operation, w: Want)
    ensures w in BodyWants(op) <==> w.kind == Body && op.body.Some? && w.flag in op.body.value
  {
    if w.kind == Body && op.body.Some? && w.flag in op.body.value {
      var i :| 0 <= i < |op.body.value| && op.body.value[i] == w.flag;
      assert BodyWants(op)[i] == w;
    }
  }

  predicate WantedIn(params: seq<Param>, location: In, w: Want) {
    w.kind == KindOf(location) && exists p :: p in params && p.location == location && w.flag == p.flag
  }

  lemma SomeLocation(params: seq<Param>, w: Want)
    ensures WantedIn(params, InPath, w) || WantedIn(params, InQuery, w) || WantedIn(params, InFormData, w) <==>
            exists p :: p in params && w == Want(KindOf(p.location), p.flag)
  {
    if p :| p in params && w == Want(KindOf(p.location), p.flag) {
      assert WantedIn(params, p.location, w);
    }
  }

  lemma {:induction false} InOneLocation(params: seq<Param>, location: In, w: Want)
    ensures w in ParamsIn(params, location, KindOf(location)) <==> WantedIn(params, location, w)
  {
    if params != [] {
      InOneLocation(params[1..], location, w);
      assert params == [params[0]] + params[1..];
    }
  }

  /** `wants` have been given `names`, which are claimed, and their arguments are `args`. */
  ghost predicate Served(reserved: set<string>, wants: seq<Want>, names: seq<string>, args: seq<Arg>, used: set<string>) {
    Allocation(reserved, wants, names) && args == ParamArgs(wants, names) && used == reserved + Range(names)
  }

  lemma OneMore(reserved: set<string>, wants: seq<Want>, names: seq<string>, args: seq<Arg>, used: set<string>,
                w: Want, long: string)
    requires Served(reserved, wants, names, args, used) && Picked(used, w, long)
    ensures Served(reserved, wants + [w], names + [long], args + ArgsOf(w, long), used + {long})
  {
    AllocationExtends(reserved, wants, names, w, long);
    var n := |wants|;
    assert (wants + [w])[..n] == wants && (names + [long])[..n] == names;
    assert Range(names + [long]) == Range(names) + {long};
  }

  /** The body of each loop of `leaf_command`: name one parameter and add its arguments. */
  method AddFlag(longs: NameSet, args: seq<Arg>, w: Want, ghost reserved: set<string>,
                 ghost wants: seq<Want>, ghost names: seq<string>)
    returns (all: seq<Arg>, ghost given: seq<string>)
    requires Served(reserved, wants, names, args, longs.names)
    modifies longs
    ensures Served(reserved, wants + [w], given, all, longs.names)
  {
    var long := UniqueLong(longs, w);
    OneMore(reserved, wants, names, args, old(longs.names), w, long);
    all, given := args + ArgsOf(w, long), names + [long];
  }

  /** One of those loops: the parameters `more` of one location. */
  method AddFlags(longs: NameSet, args: seq<Arg>, more: seq<Want>, ghost reserved: set<string>,
                  ghost done: seq<Want>, ghost names: seq<string>)
    returns (all: seq<Arg>, ghost given: seq<string>)
    requires Served(reserved, done, names, args, longs.names)
    modifies longs
    ensures Served(reserved, done + more, given, all, longs.names)
  {
    all, given := args, names;
    assert done + more[..0] == done;
    for i := 0 to |more|
      invariant Served(reserved, done + more[..i], given, all, longs.names)
    {
      all, given := AddFlag(longs, all, more[i], reserved, done + more[..i], given);
      assert done + more[..i] + [more[i]] == done + more[..i + 1];
    }
    assert more[..|more|] == more;
  }

  /** The names claimed before any generated one. */
  method Reserve(op: Operation) returns (longs: NameSet)
    ensures fresh(longs) && longs.names == Range(EngineFlags(op))
  {
    longs := new NameSet();
    var _ := longs.Insert("body-file");
    var _ := longs.Insert("dry-run");
    if op.paged {
      var _ := longs.Insert("paginate");
      var _ := longs.Insert("limit");
    }
  }

  /** `cmd` has the arguments of `op`, under the names the allocator gives them after the reserved ones. */
  ghost predicate IsLeaf(cmd: Command, op: Operation) {
    exists names :: Allocation(Range(EngineFlags(op)), Wants(op), names) && cmd == Command(op.command, LeafArgs(op, names), [])
  }

  method LeafCommand(op: Operation) returns (cmd: Command)
    ensures IsLeaf(cmd, op)
  {
    var longs := Reserve(op);
    ghost var reserved := longs.names;
    var path, query := ParamsIn(op.params, InPath, Path), ParamsIn(op.params, InQuery, Query);
    var form, body := ParamsIn(op.params, InFormData, Form), BodyWants(op);
    assert [] + path == path && Range<string>([]) == {};
    var args;
    ghost var names;
    args, names := AddFlags(longs, [], path, reserved, [], []);
    args, names := AddFlags(longs, args, query, reserved, path, names);
    args, names := AddFlags(longs, args, form, reserved, path + query, names);
    args, names := AddFlags(longs, args, body, reserved, path + query + form, names);
    assert path + query + form + body == Wants(op);
    assert Served(reserved, Wants(op), names, args, longs.names);
    cmd := Command(op.command, args + EngineArgs(op), []);
    assert cmd == Command(op.command, LeafArgs(op, names), []);
  }

  // -------------------------------------------------------- a command cannot crash clap

  lemma AllNamesConcat(a: seq<Arg>, b: seq<Arg>)
    ensures AllNames(a + b) == AllNames(a) + AllNames(b)
  {
    var x := seq(|a|, i requires 0 <= i < |a| => Names(a[i]));
    var y := seq(|b|, i requires 0 <= i < |b| => Names(b[i]));
    var ab := a + b;
    assert seq(|ab|, i requires 0 <= i < |ab| => Names(ab[i])) == x + y;
    FlatConcat(x, y);
  }

  lemma AllNamesSnoc(args: seq<Arg>, a: Arg)
    ensures AllNames(args + [a]) == AllNames(args) + Names(a)
  {
    AllNamesConcat(args, [a]);
    FlatOne(Names(a));
    assert seq(1, i requires 0 <= i < 1 => Names([a][i])) == [Names(a)];
  }

  lemma NamesOfArgs(w: Want, long: string)
    ensures AllNames(ArgsOf(w, long)) == [long]
  {
    var flag := Flag(IdOf(w), long);
    AllNamesSnoc([], flag);
    if w.kind == Path {
      AllNamesSnoc([], Positional(w.flag));
      AllNamesSnoc([Positional(w.flag)], flag);
      assert [] + [Positional(w.flag)] == [Positional(w.flag)];
      assert ArgsOf(w, long) == [Positional(w.flag)] + [flag];
    } else {
      assert ArgsOf(w, long) == [] + [flag];
    }
  }

  lemma {:induction false} NamesOfParams(wants: seq<Want>, names: seq<string>)
    requires |wants| == |names|
    ensures AllNames(ParamArgs(wants, names)) == names
    decreases |wants|
  {
    if wants != [] {
      var n := |wants| - 1;
      var rest, last := ParamArgs(wants[..n], names[..n]), ArgsOf(wants[n], names[n]);
      NamesOfParams(wants[..n], names[..n]);
      NamesOfArgs(wants[n], names[n]);
      AllNamesConcat(rest, last);
      assert ParamArgs(wants, names) == rest + last;
      assert names == names[..n] + [names[n]];
    }
  }

  lemma NamesOfEngine(op: Operation)
    ensures AllNames(EngineArgs(op)) == EngineFlags(op)
  {
    var a, b := Flag("fjo:body-file", "body-file"), Flag("fjo:dry-run", "dry-run");
    AllNamesPair(a, b);
    if op.paged {
      var c, d := Flag("fjo:paginate", "paginate"), Flag("fjo:limit", "limit");
      AllNamesPair(c, d);
      AllNamesConcat([a, b], [c, d]);
      assert EngineArgs(op) == [a, b] + [c, d];
    } else {
      assert EngineArgs(op) == [a, b];
    }
  }

  lemma AllNamesPair(a: Arg, b: Arg)
    ensures AllNames([a, b]) == Names(a) + Names(b)
  {
    AllNamesSnoc([], a);
    AllNamesSnoc([a], b);
    assert [] + [a] == [a] && [a] + [b] == [a, b];
  }

  lemma EngineFlagsAreDistinct(op: Operation)
    ensures Distinct(EngineFlags(op))
  {
    assert "body-file" != "dry-run" && "body-file" != "paginate" && "body-file" != "limit";
    assert "dry-run" != "paginate" && "dry-run" != "limit" && "paginate" != "limit";
  }

  /** Whatever the tables hold, a generated command spells no two of its flags alike. */
  lemma LeafNamesAreDistinct(op: Operation, names: seq<string>)
    requires Allocation(Range(EngineFlags(op)), Wants(op), names)
    ensures AllNames(LeafArgs(op, names)) == names + EngineFlags(op)
    ensures Distinct(AllNames(LeafArgs(op, names)))
  {
    AllNamesConcat(ParamArgs(Wants(op), names), EngineArgs(op));
    NamesOfParams(Wants(op), names);
    NamesOfEngine(op);
    AllocatedNamesAreDistinct(Range(EngineFlags(op)), Wants(op), names);
    EngineFlagsAreDistinct(op);
    DistinctConcat(names, EngineFlags(op));
  }

  // ------------------------------------------------------------- argument identities

  function IdsOf(w: Want): seq<string> {
    if w.kind == Path then ["pos:" + w.flag, IdOf(w)] else [IdOf(w)]
  }

  function WantIds(wants: seq<Want>): seq<string> {
    var n: nat := |wants|;
    if n == 0 then [] else WantIds(wants[..n - 1]) + IdsOf(wants[n - 1])
  }

  lemma {:induction false} IdsOfParams(wants: seq<Want>, names: seq<string>)
    requires |wants| == |names|
    ensures Ids(ParamArgs(wants, names)) == WantIds(wants)
    decreases |wants|
  {
    if wants != [] {
      var n := |wants| - 1;
      IdsOfParams(wants[..n], names[..n]);
      assert Ids(ArgsOf(wants[n], names[n])) == IdsOf(wants[n]);
    }
  }

  lemma {:induction false} WantIdsOrigin(wants: seq<Want>, id: string)
    ensures id in WantIds(wants) <==> exists w :: w in wants && id in IdsOf(w)
    decreases |wants|
  {
    if wants != [] {
      var n := |wants| - 1;
      WantIdsOrigin(wants[..n], id);
      assert wants == wants[..n] + [wants[n]];
    }
  }

  /** An id tells which location and which flag it stands for. */
  lemma IdsIdentify(v: Want, w: Want, id: string)
    requires id in IdsOf(v) && id in IdsOf(w)
    ensures v == w
  {
    IdTells(v, id);
    IdTells(w, id);
  }

  lemma IdTells(w: Want, id: string)
    requires id in IdsOf(w)
    ensures |id| >= 6 || (|id| >= 4 && id[0] != 'q')
    ensures id[0] == match w.kind case Path => 'p' case Query => 'q' case Form => 'f' case Body => 'b'
    ensures w.flag == id[if id[0] == 'q' then 6 else if id[0] == 'p' && id[1] == 'o' then 4 else 5..]
  {
    if w.kind == Path {
      assert id == "pos:" + w.flag || id == "path:" + w.flag;
    }
  }

  lemma {:induction false} WantIdsAreDistinct(wants: seq<Want>)
    ensures Distinct(WantIds(wants)) <==> Distinct(wants)
    decreases |wants|
  {
    if wants != [] {
      var n := |wants| - 1;
      var w := wants[n];
      WantIdsAreDistinct(wants[..n]);
      DistinctConcat(wants[..n], [w]);
      DistinctConcat(WantIds(wants[..n]), IdsOf(w));
      assert wants == wants[..n] + [w];
      assert Distinct(IdsOf(w)) by { assert "pos:"[1] != "path:"[1]; }
      LastIdsApart(wants[..n], w);
    }
  }

  lemma LastIdsApart(wants: seq<Want>, w: Want)
    ensures Range(WantIds(wants)) !! Range(IdsOf(w)) <==> w !in wants
  {
    if w in wants {
      WantIdsOrigin(wants, IdsOf(w)[0]);
      assert IdsOf(w)[0] in Range(WantIds(wants)) && IdsOf(w)[0] in Range(IdsOf(w));
    } else {
      forall id | id in WantIds(wants) ensures id !in IdsOf(w) {
        WantIdsOrigin(wants, id);
        var v :| v in wants && id in IdsOf(v);
        if id in IdsOf(w) {
          IdsIdentify(v, w, id);
        }
      }
    }
  }

  /** Engine ids are all `fjo:` something, and differ in length. */
  lemma EngineIdsShape(op: Operation)
    ensures var ids := Ids(EngineArgs(op));
            && (forall i :: 0 <= i < |ids| ==> |ids[i]| >= 2 && ids[i][0] == 'f' && ids[i][1] == 'j')
            && (forall i, j :: 0 <= i < j < |ids| ==> |ids[i]| != |ids[j]|)
  {
    var ids := Ids(EngineArgs(op));
    assert ids[0] == "fjo:body-file" && ids[1] == "fjo:dry-run";
    assert op.paged ==> |ids| == 4 && ids[2] == "fjo:paginate" && ids[3] == "fjo:limit";
  }

  lemma GeneratedIdShape(w: Want, id: string)
    requires id in IdsOf(w)
    ensures |id| >= 2 && (id[0] == 'f' ==> id[1] == 'o')
  {
  }

  lemma EngineIdsApart(op: Operation, wants: seq<Want>)
    ensures Distinct(Ids(EngineArgs(op)))
    ensures Range(WantIds(wants)) !! Range(Ids(EngineArgs(op)))
  {
    EngineIdsShape(op);
    forall id | id in WantIds(wants) ensures |id| >= 2 && (id[0] == 'f' ==> id[1] == 'o') {
      WantIdsOrigin(wants, id);
      var w :| w in wants && id in IdsOf(w);
      GeneratedIdShape(w, id);
    }
  }

  lemma IdsConcat(a: seq<Arg>, b: seq<Arg>)
    ensures Ids(a + b) == Ids(a) + Ids(b)
  {
  }

  /**
   Ids are namespaced by location and not by the allocator, so they are all different exactly when
   no location lists the same flag twice.
   */
  lemma LeafIdsAreDistinct(op: Operation, names: seq<string>)
    requires |names| == |Wants(op)|
    ensures Distinct(Ids(LeafArgs(op, names))) <==> Distinct(Wants(op))
  {
    var wants := Wants(op);
    IdsConcat(ParamArgs(wants, names), EngineArgs(op));
    IdsOfParams(wants, names);
    DistinctConcat(WantIds(wants), Ids(EngineArgs(op)));
    EngineIdsApart(op, wants);
    WantIdsAreDistinct(wants);
  }

  /** So an operation that lists one query parameter twice gets two flags with one id, whatever their names. */
  lemma RepeatedQueryFlag(op: Operation, names: seq<string>, flag: string)
    requires op.params == [Param(flag, InQuery), Param(flag, InQuery)] && op.body.None?
    requires Allocation(Range(EngineFlags(op)), Wants(op), names)
    ensures Distinct(AllNames(LeafArgs(op, names))) && !Distinct(Ids(LeafArgs(op, names)))
  {
    LeafNamesAreDistinct(op, names);
    LeafIdsAreDistinct(op, names);
    var p := Param(flag, InQuery);
    TwiceTheSame(p, InQuery, Query);
    TwiceTheSame(p, InPath, Path);
    TwiceTheSame(p, InFormData, Form);
    assert Wants(op) == [Want(Query, flag), Want(Query, flag)];
    assert Wants(op)[0] == Wants(op)[1];
  }

  lemma TwiceTheSame(p: Param, location: In, kind: Kind)
    ensures ParamsIn([p, p], location, kind) ==
            if p.location == location then [Want(kind, p.flag), Want(kind, p.flag)] else []
  {
    assert [p, p][1..] == [p] && [p][1..] == [];
    assert ParamsIn([p], location, kind) == if p.location == location then [Want(kind, p.flag)] else [];
  }

  // ------------------------------------------------------------- what clap adds itself

  /** The reserved names are those of the options every command has, and of the two that page through results. */
  lemma ReservedExactly(op: Operation, name: string)
    ensures name in EngineFlags(op) <==> name in {"body-file", "dry-run"} || (op.paged && name in {"paginate", "limit"})
  {
    var flags := EngineFlags(op);
    assert flags[0] == "body-file" && flags[1] == "dry-run";
    assert op.paged ==> flags[2] == "paginate" && flags[3] == "limit";
  }

  /** No fallback for a flag spells `limit`, and none but that for `limit` spells `per-page`. */
  lemma FallbackChoices(w: Want, i: nat)
    requires i > 0
    ensures Choice(w, i) != "limit"
    ensures w.flag != "limit" ==> Choice(w, i) != "per-page"
  {
    var first := FirstChoices(w);
    if i >= |first| {
      var n := i - |first| + 2;
      DecimalEndsInDigit(n);
      assert Choice(w, i)[|Choice(w, i)| - 1] == Decimal(n)[|Decimal(n)| - 1];
    } else if w.flag != "limit" || i > 1 {
      var k, c := KindWord(w.kind), first[i];
      assert c == k + "-" + w.flag && c[|k|] == '-' && c[0] == k[0] && c[1] == k[1];
    }
  }

  /**
   The first `limit` an operation lists keeps its name, unless the operation is paged: there `--limit`
   counts items over all pages, and this one becomes `--per-page`.
   */
  lemma PerPageExactlyWhenPaged(op: Operation, names: seq<string>, i: nat)
    requires Allocation(Range(EngineFlags(op)), Wants(op), names)
    requires i < |names| && Wants(op)[i].flag == "limit"
    requires forall j :: 0 <= j < i ==> Wants(op)[j].flag !in {"limit", "per-page"}
    ensures names[i] == if op.paged then "per-page" else "limit"
  {
    var reserved, wants := Range(EngineFlags(op)), Wants(op);
    ReservedExactly(op, "limit");
    ReservedExactly(op, "per-page");
    forall j: nat | j < i ensures names[j] != "limit" && names[j] != "per-page" {
      forall n: nat | n > 0 ensures Choice(wants[j], n) != "limit" && Choice(wants[j], n) != "per-page" {
        FallbackChoices(wants[j], n);
      }
      if names[j] == "limit" {
        GivenIsWish(reserved, wants, names, "limit", j);
      } else if names[j] == "per-page" {
        GivenIsWish(reserved, wants, names, "per-page", j);
      }
    }
    if op.paged {
      LimitBecomesPerPage(reserved, wants, names, i);
    } else {
      KeptVerbatim(reserved, wants, names, i);
    }
  }

  /** The help option that clap adds to every command, with its long and its short name. */
  const HELP: Arg := Arg("help", Some("help"), Some('h'), [])

  /** Every name tried after the first has a dash in it that does not come first, or is a dash and a number. */
  lemma LaterChoices(w: Want, i: nat)
    requires i > 0
    ensures var c := Choice(w, i);
            c != "help" && c != "-h"
  {
    var first := FirstChoices(w);
    if i >= |first| {
      NumberedIsNoHelp(w.flag, i - |first| + 2);
    } else if first[i] != "per-page" {
      var c := KindWord(w.kind) + "-" + w.flag;
      assert first[i] == c;
      assert c[|KindWord(w.kind)|] == '-' && 4 <= |KindWord(w.kind)| <= 5;
      assert c[0] == KindWord(w.kind)[0] && c[0] != '-';
    }
  }

  lemma NumberedIsNoHelp(flag: string, n: nat)
    ensures Numbered(flag, n) != "help" && Numbered(flag, n) != "-h"
  {
    DecimalEndsInDigit(n);
    var c := Numbered(flag, n);
    assert c[|c| - 1] == Decimal(n)[|Decimal(n)| - 1];
  }

  lemma DecimalEndsInDigit(n: nat)
    ensures '0' <= Decimal(n)[|Decimal(n)| - 1] <= '9'
  {
  }

  /** A name that no fallback spells is handed out exactly when something wishes for it. */
  lemma HandedOutExactly(reserved: set<string>, wants: seq<Want>, names: seq<string>, name: string)
    requires Allocation(reserved, wants, names) && name !in reserved
    requires forall w, i: nat :: i > 0 ==> Choice(w, i) != name
    ensures name in names <==> exists i :: 0 <= i < |wants| && wants[i].flag == name
  {
    if name in names {
      var i :| 0 <= i < |names| && names[i] == name;
      GivenIsWish(reserved, wants, names, name, i);
    }
    if exists i :: 0 <= i < |wants| && wants[i].flag == name {
      var i :| 0 <= i < |wants| && wants[i].flag == name;
      if name !in names[..i] {
        KeptVerbatim(reserved, wants, names, i);
      }
    }
  }

  lemma GivenIsWish(reserved: set<string>, wants: seq<Want>, names: seq<string>, name: string, i: nat)
    requires Allocation(reserved, wants, names) && i < |names| && names[i] == name
    requires forall j: nat :: j > 0 ==> Choice(wants[i], j) != name
    ensures wants[i].flag == name
  {
    assert GivenAt(reserved, wants, names, i);
    var k: nat :| FirstFree(reserved + Range(names[..i]), wants[i], k) && names[i] == Choice(wants[i], k);
    assert k == 0;
    assert Choice(wants[i], 0) == wants[i].flag;
  }

  /** Some parameter or body field of the operation is called `flag`. */
  predicate Wishes(op: Operation, flag: string) {
    exists i :: 0 <= i < |Wants(op)| && Wants(op)[i].flag == flag
  }

  lemma HelpNames(op: Operation, names: seq<string>)
    requires Allocation(Range(EngineFlags(op)), Wants(op), names)
    ensures "help" in names <==> Wishes(op, "help")
    ensures "-h" in names <==> Wishes(op, "-h")
  {
    forall w, i: nat | i > 0 ensures Choice(w, i) != "help" && Choice(w, i) != "-h" {
      LaterChoices(w, i);
    }
    NotEngineFlags(op);
    HandedOutExactly(Range(EngineFlags(op)), Wants(op), names, "help");
    HandedOutExactly(Range(EngineFlags(op)), Wants(op), names, "-h");
  }

  lemma NotEngineFlags(op: Operation)
    ensures "help" !in EngineFlags(op) && "-h" !in EngineFlags(op)
  {
  }

  /**
   With the option that clap adds, a generated command answers to every name once exactly when
   nothing in its tables is called `help`, or `-h`: as for `taken`, a long name spelled like a short
   one counts as that.
   */
  lemma HelpClashesExactly(op: Operation, names: seq<string>)
    requires Allocation(Range(EngineFlags(op)), Wants(op), names)
    ensures Distinct(AllNames(LeafArgs(op, names) + [HELP])) <==> !Wishes(op, "help") && !Wishes(op, "-h")
  {
    var args := LeafArgs(op, names);
    LeafNamesAreDistinct(op, names);
    HelpNames(op, names);
    NotEngineFlags(op);
    AllNamesSnoc(args, HELP);
    assert Names(HELP) == ["help", "-h"];
    DistinctConcat(AllNames(args), ["help", "-h"]);
    assert Distinct(["help", "-h"]);
    ApartFromTwo(AllNames(args), "help", "-h");
  }

  lemma ApartFromTwo(s: seq<string>, a: string, b: string)
    ensures Range(s) !! Range([a, b]) <==> a !in s && b !in s
  {
    assert a in Range([a, b]) && b in Range([a, b]);
    assert forall x :: x in Range([a, b]) ==> x == a || x == b;
    assert forall x :: x in Range(s) <==> x in s;
  }

  lemma OnlyParameter(p: Param, location: In, kind: Kind)
    ensures ParamsIn([p], location, kind) == if p.location == location then [Want(kind, p.flag)] else []
  {
    assert [p][1..] == [];
  }

  /** So an operation with one query parameter of that name makes a command that answers to it twice. */
  lemma HelpParameterClashes(op: Operation, names: seq<string>)
    requires op.params == [Param("help", InQuery)] && op.body.None?
    requires Allocation(Range(EngineFlags(op)), Wants(op), names)
    ensures !Distinct(AllNames(LeafArgs(op, names) + [HELP]))
  {
    var p := Param("help", InQuery);
    OnlyParameter(p, InQuery, Query);
    OnlyParameter(p, InPath, Path);
    OnlyParameter(p, InFormData, Form);
    assert Wants(op) == [Want(Query, "help")];
    assert Wants(op)[0].flag == "help";
    HelpClashesExactly(op, names);
  }
}
