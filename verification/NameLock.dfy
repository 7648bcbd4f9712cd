/**
 The name lock: a compatibility contract for generated command names, compared with every new set
 of operations and rewritten only when that loses nothing, or with a human's consent.
 */
module NameLock {
  import opened Wrappers
  import opened LockText

  datatype Operation = Operation(opId: string, entry: Entry)

  datatype Mode = Mode(acceptRenames: bool, acceptRemovals: bool)

  datatype LockError = MalformedLock | WouldRename(ids: set<string>) | WouldRemove(ids: set<string>)

  /** How names are written to the file and read from it, and which of them can be. */
  datatype Format = Format(render: (Names, string) -> string, parse: string -> Option<Names>, writable: Names -> bool)

  /** What is rendered reads back as itself, if it can be written, and otherwise not at all. */
  ghost predicate Faithful(fmt: Format) {
    forall names, version :: PlainVersion(version) ==>
      fmt.parse(fmt.render(names, version)) == if fmt.writable(names) then Some(names) else None
  }

  /** The format of the lock, with a parser of TOML. */
  function TomlFormat(parse: string -> Option<Names>, st: Style): Format {
    Format((names, version) => Render(names, version, st), parse, names => NamesWritable(names, st.printable))
  }

  /** It is faithful as soon as the parser does on rendered text what TOML says. */
  lemma TomlIsFaithful(parse: string -> Option<Names>, st: Style)
    requires GoodStyle(st)
    requires forall names, version ::
               PlainVersion(version) ==> parse(Render(names, version, st)) == Read(Render(names, version, st))
    ensures Faithful(TomlFormat(parse, st))
  {
    forall names, version | PlainVersion(version)
      ensures parse(Render(names, version, st)) == if NamesWritable(names, st.printable) then Some(names) else None
    {
      ReadRender(names, version, st);
    }
  }

  /** The text on disk, if there is any, does not parse. */
  predicate IsMalformed(fmt: Format, f: Option<string>) {
    f.Some? && fmt.parse(f.value).None?
  }

  function Locked(fmt: Format, f: Option<string>): Names {
    if f.None? || fmt.parse(f.value).None? then map[] else fmt.parse(f.value).value
  }

  /** Operations collected by id, a later one winning. */
  function Collected(ops: seq<Operation>): Names {
    if ops == [] then map[]
    else Collected(ops[..|ops| - 1])[ops[|ops| - 1].opId := ops[|ops| - 1].entry]
  }

  ghost predicate IsListed(ops: seq<Operation>, id: string) {
    exists i :: 0 <= i < |ops| && ops[i].opId == id
  }

  /** No later operation has the same id. */
  ghost predicate IsLast(ops: seq<Operation>, i: nat) {
    i < |ops| && forall j :: i < j < |ops| ==> ops[j].opId != ops[i].opId
  }

  /** `names` holds what each id was last listed with, and no other id. */
  ghost predicate HoldsLast(names: Names, ops: seq<Operation>) {
    && (forall id :: id in names <==> IsListed(ops, id))
    && (forall i: nat :: IsLast(ops, i) ==> MapGet(names, ops[i].opId) == Some(ops[i].entry))
  }

  /** What is collected holds every operation, and it alone does. */
  lemma CollectedMeaning(ops: seq<Operation>, names: Names)
    ensures HoldsLast(names, ops) <==> names == Collected(ops)
  {
    CollectedHolds(ops);
    if HoldsLast(names, ops) {
      forall id | id in names ensures MapGet(names, id) == MapGet(Collected(ops), id) {
        var i := LastListed(ops, id);
      }
      assert forall id :: id in names ==> MapGet(names, id) == MapGet(Collected(ops), id);
    }
  }

  lemma {:induction false} LastListed(ops: seq<Operation>, id: string) returns (i: nat)
    requires IsListed(ops, id)
    ensures IsLast(ops, i) && ops[i].opId == id
  {
    var n := |ops| - 1;
    if ops[n].opId == id {
      i := n;
    } else {
      ListedSnoc(ops[..n], ops[n], id);
      assert ops == ops[..n] + [ops[n]];
      i := LastListed(ops[..n], id);
      LastSnoc(ops[..n], ops[n], i);
    }
  }

  lemma ListedSnoc(ops: seq<Operation>, op: Operation, id: string)
    ensures IsListed(ops + [op], id) <==> IsListed(ops, id) || op.opId == id
  {
    var all := ops + [op];
    if i :| 0 <= i < |ops| && ops[i].opId == id {
      assert all[i].opId == id;
    }
    assert all[|ops|] == op;
    if i :| 0 <= i < |all| && all[i].opId == id {
      assert i == |ops| || all[i] == ops[i];
    }
  }

  lemma LastSnoc(ops: seq<Operation>, op: Operation, i: nat)
    ensures IsLast(ops + [op], i) <==> i == |ops| || (IsLast(ops, i) && ops[i].opId != op.opId)
  {
    var all := ops + [op];
    if i < |ops| {
      assert all[i] == ops[i] && all[|ops|] == op;
      assert forall j :: i < j < |ops| ==> all[j] == ops[j];
    }
  }

  lemma {:induction false} CollectedHolds(ops: seq<Operation>)
    ensures HoldsLast(Collected(ops), ops)
  {
    if ops != [] {
      var n := |ops| - 1;
      CollectedHolds(ops[..n]);
      assert ops == ops[..n] + [ops[n]];
      HoldsSnoc(Collected(ops[..n]), ops[..n], ops[n]);
    }
  }

  lemma HoldsSnoc(names: Names, ops: seq<Operation>, op: Operation)
    requires HoldsLast(names, ops)
    ensures HoldsLast(names[op.opId := op.entry], ops + [op])
  {
    var after, all := names[op.opId := op.entry], ops + [op];
    forall id ensures id in after <==> IsListed(all, id) {
      ListedSnoc(ops, op, id);
    }
    forall i: nat | IsLast(all, i) ensures MapGet(after, all[i].opId) == Some(all[i].entry) {
      LastSnoc(ops, op, i);
      if i < |ops| {
        assert all[i] == ops[i] && MapGet(names, ops[i].opId) == Some(ops[i].entry);
      }
    }
  }

  function RenamedIds(locked: Names, current: Names): set<string> {
    set id | id in locked && id in current && locked[id] != current[id]
  }

  function AddedIds(locked: Names, current: Names): set<string> {
    current.Keys - locked.Keys
  }

  function RemovedIds(locked: Names, current: Names): set<string> {
    locked.Keys - current.Keys
  }

  /** Whether a run is refused, and why. */
  function Refusal(fmt: Format, f: Option<string>, current: Names, mode: Mode): Option<LockError> {
    var locked := Locked(fmt, f);
    if IsMalformed(fmt, f) then Some(MalformedLock)
    else if RenamedIds(locked, current) != {} && !mode.acceptRenames then Some(WouldRename(RenamedIds(locked, current)))
    else if RemovedIds(locked, current) != {} && !mode.acceptRemovals then Some(WouldRemove(RemovedIds(locked, current)))
    else None
  }

  function After(fmt: Format, f: Option<string>, current: Names, version: string, mode: Mode): Option<string> {
    if Refusal(fmt, f, current, mode).Some? then f else Some(fmt.render(current, version))
  }

  class Store {
    var file: Option<string>
    /** How often the file was written. */
    var writes: nat
    const fmt: Format

    constructor (file: Option<string>, fmt: Format)
      ensures this.file == file && writes == 0 && this.fmt == fmt
    {
      this.file, this.writes, this.fmt := file, 0, fmt;
    }

    method Write(text: string)
      modifies this
      ensures file == Some(text) && writes == old(writes) + 1
    {
      file, writes := Some(text), writes + 1;
    }

    method Reconcile(ops: seq<Operation>, version: string, mode: Mode) returns (r: Option<LockError>)
      modifies this
      ensures r == Refusal(fmt, old(file), Collected(ops), mode)
      ensures file == After(fmt, old(file), Collected(ops), version, mode)
      ensures writes == old(writes) + if file == old(file) then 0 else 1
    {
      var current: Names := map[];
      for i := 0 to |ops|
        invariant current == Collected(ops[..i])
        invariant file == old(file) && writes == old(writes)
      {
        assert ops[..i + 1][..i] == ops[..i];
        current := current[ops[i].opId := ops[i].entry];
      }
      assert ops[..|ops|] == ops;
      if file.None? {
        assert RenamedIds(map[], current) == {} && RemovedIds(map[], current) == {};
        Write(fmt.render(current, version));
        return None;
      }
      var text := file.value;
      var parsed := fmt.parse(text);
      if parsed.None? {
        return Some(MalformedLock);
      }
      var locked := parsed.value;
      var renamed, added := Classify(locked, current);
      var removed := set id | id in locked.Keys && id !in current;
      assert removed == RemovedIds(locked, current);
      if renamed != {} && !mode.acceptRenames {
        return Some(WouldRename(renamed));
      }
      if removed != {} && !mode.acceptRemovals {
        return Some(WouldRemove(removed));
      }
      var rendered := fmt.render(current, version);
      if rendered != text {
        Write(rendered);
      }
      return None;
    }
  }

  /** The loop over the current operations. */
  method Classify(locked: Names, current: Names) returns (renamed: set<string>, added: set<string>)
    ensures renamed == RenamedIds(locked, current) && added == AddedIds(locked, current)
    ensures forall id :: id in added <==> id in current && id !in locked
  {
    renamed, added := {}, {};
    var todo := current.Keys;
    while todo != {}
      invariant todo <= current.Keys
      invariant renamed == RenamedIds(locked, current) - todo
      invariant added == AddedIds(locked, current) - todo
      decreases todo
    {
      var id :| id in todo;
      if id in locked {
        if locked[id] != current[id] {
          renamed := renamed + {id};
        }
      } else {
        added := added + {id};
      }
      todo := todo - {id};
    }
  }

  // --------------------------------------------------------------------- single runs

  lemma SuccessReadsBack(fmt: Format, f: Option<string>, current: Names, version: string, mode: Mode)
    requires Faithful(fmt) && PlainVersion(version)
    requires Refusal(fmt, f, current, mode).None?
    ensures var g := After(fmt, f, current, version, mode);
            if fmt.writable(current) then g.Some? && fmt.parse(g.value) == Some(current)
            else IsMalformed(fmt, g)
  {
  }

  /**
   What a successful run leaves on disk reads back as every operation it was given, and no other, if
   all of their names can be written in TOML; if one cannot, it does not read back at all.
   */
  lemma SuccessSynchronizes(parse: string -> Option<Names>, st: Style, f: Option<string>, ops: seq<Operation>,
                            version: string, mode: Mode)
    requires GoodStyle(st) && PlainVersion(version)
    requires parse(Render(Collected(ops), version, st)) == Read(Render(Collected(ops), version, st))
    requires Refusal(TomlFormat(parse, st), f, Collected(ops), mode).None?
    ensures var g := After(TomlFormat(parse, st), f, Collected(ops), version, mode);
            && g.Some?
            && (parse(g.value).Some? <==> NamesWritable(Collected(ops), st.printable))
            && (parse(g.value).Some? ==> HoldsLast(parse(g.value).value, ops))
  {
    ReadRender(Collected(ops), version, st);
    CollectedHolds(ops);
  }

  /** So running again on the same input succeeds, in any mode, exactly when all names can be written, and then writes nothing. */
  lemma SecondRunIsSilentExactly(fmt: Format, f: Option<string>, current: Names, version: string, mode: Mode, again: Mode)
    requires Faithful(fmt) && PlainVersion(version)
    requires Refusal(fmt, f, current, mode).None?
    ensures var g := After(fmt, f, current, version, mode);
            && (Refusal(fmt, g, current, again).None? <==> fmt.writable(current))
            && After(fmt, g, current, version, again) == g
  {
    SuccessReadsBack(fmt, f, current, version, mode);
    assert RenamedIds(current, current) == {} && RemovedIds(current, current) == {};
  }

  /** A name with a null character in it is such a one: `{:?}` writes an escape that TOML does not have. */
  lemma NullCannotBeWritten(id: string, e: Entry, names: Names, st: Style)
    requires id in names && names[id] == e && '\0' in e.command
    ensures !NamesWritable(names, st.printable)
  {
    var i :| 0 <= i < |e.command| && e.command[i] == '\0';
    assert !Writable(e.command[i], st.printable);
  }

  /**
   One run with one such operation is enough, from no file at all: it succeeds, what it leaves does
   not read, and the next run on the same input is refused, whatever its flags.
   */
  lemma OneNameSpoilsTheLock(parse: string -> Option<Names>, st: Style, version: string, mode: Mode, again: Mode)
    requires GoodStyle(st) && PlainVersion(version)
    requires var current := map["listA" := Entry("repo", "list-\0", "list")];
             parse(Render(current, version, st)) == Read(Render(current, version, st))
    ensures var ops := [Operation("listA", Entry("repo", "list-\0", "list"))];
            var fmt, current := TomlFormat(parse, st), Collected(ops);
            var left := After(fmt, None, current, version, mode);
            && Refusal(fmt, None, current, mode).None?
            && left.Some? && parse(left.value) == None
            && Refusal(fmt, left, current, again) == Some(MalformedLock)
  {
    var e := Entry("repo", "list-\0", "list");
    var current: Names := map["listA" := e];
    var fmt := TomlFormat(parse, st);
    assert Collected([Operation("listA", e)]) == current by {
      assert [Operation("listA", e)][..0] == [];
    }
    assert e.command[5] == '\0';
    NullCannotBeWritten("listA", e, current, st);
    assert RenamedIds(map[], current) == {} && RemovedIds(map[], current) == {};
    SuccessSynchronizes(parse, st, None, [Operation("listA", e)], version, mode);
  }

  /** A human agreed, in this run, to what happens to `id`. */
  predicate Consents(current: Names, mode: Mode, id: string) {
    if id in current then mode.acceptRenames else mode.acceptRemovals
  }

  /** `g` still holds what `f` has locked for `id`, unless it does not parse. */
  ghost predicate Keeps(fmt: Format, f: Option<string>, g: Option<string>, id: string) {
    IsMalformed(fmt, g) || MapGet(Locked(fmt, g), id) == MapGet(Locked(fmt, f), id)
  }

  /** A run takes a locked name away, or changes it, only when it was agreed to. */
  lemma LossNeedsConsent(fmt: Format, f: Option<string>, current: Names, version: string, mode: Mode, id: string)
    requires Faithful(fmt) && PlainVersion(version)
    requires id in Locked(fmt, f) && !Consents(current, mode, id)
    ensures Keeps(fmt, f, After(fmt, f, current, version, mode), id)
  {
    var locked := Locked(fmt, f);
    if Refusal(fmt, f, current, mode).None? {
      SuccessReadsBack(fmt, f, current, version, mode);
      assert id in current ==> id !in RenamedIds(locked, current);
      assert id !in current ==> id in RemovedIds(locked, current);
    }
  }

  /** What a run would do to a locked name, without the consent for it. */
  ghost predicate LosesUnasked(fmt: Format, f: Option<string>, current: Names, mode: Mode, id: string) {
    id in Locked(fmt, f) && MapGet(current, id) != MapGet(Locked(fmt, f), id) && !Consents(current, mode, id)
  }

  /**
   A run is refused exactly when the file does not parse, or a locked name would be changed or lost
   without consent; new names are no reason. It names all of those that changed, or else all that are gone.
   */
  lemma RefusedExactly(fmt: Format, f: Option<string>, current: Names, mode: Mode)
    ensures var r, locked := Refusal(fmt, f, current, mode), Locked(fmt, f);
            && (r.Some? <==> IsMalformed(fmt, f) || exists id :: LosesUnasked(fmt, f, current, mode, id))
            && (r == Some(MalformedLock) <==> IsMalformed(fmt, f))
            && (r.Some? && r.value.WouldRename? ==>
                  forall id :: id in r.value.ids <==> id in locked && id in current && locked[id] != current[id])
            && (r.Some? && r.value.WouldRemove? ==> forall id :: id in r.value.ids <==> id in locked && id !in current)
  {
    var locked, renamed := Locked(fmt, f), RenamedIds(Locked(fmt, f), current);
    var removed := RemovedIds(locked, current);
    forall id ensures LosesUnasked(fmt, f, current, mode, id) <==>
                      (id in renamed && !mode.acceptRenames) || (id in removed && !mode.acceptRemovals)
    {
    }
    if renamed != {} {
      var id :| id in renamed;
      assert !mode.acceptRenames ==> LosesUnasked(fmt, f, current, mode, id);
    }
    if removed != {} {
      var id :| id in removed;
      assert !mode.acceptRemovals ==> LosesUnasked(fmt, f, current, mode, id);
    }
  }

  // ------------------------------------------------------------------------ whole runs

  /** One run of the reconciliation: the operations of the specification, its version, and the flags. */
  datatype Run = Run(ops: seq<Operation>, version: string, mode: Mode)

  function AfterAll(fmt: Format, f: Option<string>, runs: seq<Run>): Option<string>
    decreases |runs|
  {
    if runs == [] then f
    else
      var n := |runs| - 1;
      After(fmt, AfterAll(fmt, f, runs[..n]), Collected(runs[n].ops), runs[n].version, runs[n].mode)
  }

  predicate PlainVersions(runs: seq<Run>) {
    forall i :: 0 <= i < |runs| ==> PlainVersion(runs[i].version)
  }

  ghost predicate AllWritableRuns(fmt: Format, runs: seq<Run>) {
    forall i :: 0 <= i < |runs| ==> fmt.writable(Collected(runs[i].ops))
  }

  /** A file that does not parse is never overwritten, whatever the flags. */
  lemma {:induction false} MalformedIsKept(fmt: Format, f: Option<string>, runs: seq<Run>)
    requires IsMalformed(fmt, f)
    ensures AfterAll(fmt, f, runs) == f
    decreases |runs|
  {
    if runs != [] {
      MalformedIsKept(fmt, f, runs[..|runs| - 1]);
    }
  }

  /** A lock that parses goes on doing so while all names can be written. */
  lemma {:induction false} StaysReadable(fmt: Format, f: Option<string>, runs: seq<Run>)
    requires Faithful(fmt) && PlainVersions(runs) && AllWritableRuns(fmt, runs)
    requires !IsMalformed(fmt, f)
    ensures !IsMalformed(fmt, AfterAll(fmt, f, runs))
    decreases |runs|
  {
    if runs != [] {
      var n := |runs| - 1;
      var before := AfterAll(fmt, f, runs[..n]);
      StaysReadable(fmt, f, runs[..n]);
      if Refusal(fmt, before, Collected(runs[n].ops), runs[n].mode).None? {
        SuccessReadsBack(fmt, before, Collected(runs[n].ops), runs[n].version, runs[n].mode);
      }
    }
  }

  /** A human agreed, in this run, to what happens to `id`. */
  ghost predicate Agrees(run: Run, id: string) {
    if IsListed(run.ops, id) then run.mode.acceptRenames else run.mode.acceptRemovals
  }

  /** Over any runs, a name once locked stays as it was unless one of them agreed to its loss. */
  lemma {:induction false} NamesAreKept(fmt: Format, f: Option<string>, runs: seq<Run>, id: string)
    requires Faithful(fmt) && PlainVersions(runs)
    requires id in Locked(fmt, f) && forall i :: 0 <= i < |runs| ==> !Agrees(runs[i], id)
    ensures Keeps(fmt, f, AfterAll(fmt, f, runs), id)
    decreases |runs|
  {
    if runs != [] {
      var n := |runs| - 1;
      var before := AfterAll(fmt, f, runs[..n]);
      NamesAreKept(fmt, f, runs[..n], id);
      CollectedHolds(runs[n].ops);
      assert !Agrees(runs[n], id) && !Consents(Collected(runs[n].ops), runs[n].mode, id);
      if IsMalformed(fmt, before) {
        assert AfterAll(fmt, f, runs) == before;
      } else {
        LossNeedsConsent(fmt, before, Collected(runs[n].ops), runs[n].version, runs[n].mode, id);
      }
    }
  }

  /** Without accept flags the lock only grows, and every entry in it is for good. */
  lemma {:induction false} LockOnlyGrows(fmt: Format, f: Option<string>, runs: seq<Run>, from: nat)
    requires Faithful(fmt) && PlainVersions(runs) && AllWritableRuns(fmt, runs)
    requires !IsMalformed(fmt, f) && from <= |runs|
    requires forall i :: 0 <= i < |runs| ==> runs[i].mode == Mode(false, false)
    ensures var before, after := Locked(fmt, AfterAll(fmt, f, runs[..from])), Locked(fmt, AfterAll(fmt, f, runs));
            forall id :: id in before ==> id in after && after[id] == before[id]
    decreases |runs|
  {
    if from < |runs| {
      var n := |runs| - 1;
      LockOnlyGrows(fmt, f, runs[..n], from);
      assert runs[..n][..from] == runs[..from];
      var middle, last := AfterAll(fmt, f, runs[..n]), AfterAll(fmt, f, runs);
      StaysReadable(fmt, f, runs);
      forall id | id in Locked(fmt, middle) ensures MapGet(Locked(fmt, last), id) == MapGet(Locked(fmt, middle), id) {
        LossNeedsConsent(fmt, middle, Collected(runs[n].ops), runs[n].version, runs[n].mode, id);
      }
      assert forall id :: id in Locked(fmt, middle) ==> MapGet(Locked(fmt, last), id).Some?;
    } else {
      assert runs[..from] == runs;
    }
  }

  ghost predicate Succeeded(fmt: Format, f: Option<string>, runs: seq<Run>, i: nat)
    requires i < |runs|
  {
    Refusal(fmt, AfterAll(fmt, f, runs[..i]), Collected(runs[i].ops), runs[i].mode).None?
  }

  lemma SucceededBefore(fmt: Format, f: Option<string>, runs: seq<Run>, i: nat)
    requires i < |runs| - 1
    ensures Succeeded(fmt, f, runs[..|runs| - 1], i) == Succeeded(fmt, f, runs, i)
  {
    assert runs[..|runs| - 1][..i] == runs[..i];
  }

  /** The file holds the operations of the last run that succeeded: all of them, and no other. */
  lemma {:induction false} LockIsLastSuccess(fmt: Format, f: Option<string>, runs: seq<Run>, k: nat)
    requires k < |runs| && Succeeded(fmt, f, runs, k)
    requires forall i: nat :: k < i < |runs| ==> !Succeeded(fmt, f, runs, i)
    ensures exists names :: HoldsLast(names, runs[k].ops) && AfterAll(fmt, f, runs) == Some(fmt.render(names, runs[k].version))
    decreases |runs|
  {
    var n := |runs| - 1;
    if k < n {
      forall i: nat | i < n ensures Succeeded(fmt, f, runs[..n], i) == Succeeded(fmt, f, runs, i) {
        SucceededBefore(fmt, f, runs, i);
      }
      assert !Succeeded(fmt, f, runs, n);
      LockIsLastSuccess(fmt, f, runs[..n], k);
    } else {
      CollectedHolds(runs[k].ops);
    }
  }

  /** Without accept flags, every operation that was part of a successful run is locked under its name for good. */
  lemma LockedForGood(fmt: Format, f: Option<string>, runs: seq<Run>, k: nat, i: nat)
    requires Faithful(fmt) && PlainVersions(runs) && AllWritableRuns(fmt, runs) && !IsMalformed(fmt, f)
    requires forall j :: 0 <= j < |runs| ==> runs[j].mode == Mode(false, false)
    requires k < |runs| && Succeeded(fmt, f, runs, k) && IsLast(runs[k].ops, i)
    ensures MapGet(Locked(fmt, AfterAll(fmt, f, runs)), runs[k].ops[i].opId) == Some(runs[k].ops[i].entry)
  {
    var before := AfterAll(fmt, f, runs[..k]);
    assert runs[..k + 1][..k] == runs[..k] && runs[..k + 1][k] == runs[k];
    SuccessReadsBack(fmt, before, Collected(runs[k].ops), runs[k].version, runs[k].mode);
    CollectedHolds(runs[k].ops);
    LockOnlyGrows(fmt, f, runs, k + 1);
  }
}
