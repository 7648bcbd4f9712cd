/**
 The alias table in `config.toml` and the three commands that change it: `alias set`,
 `alias import` and `alias delete`.
 */
module AliasTable {
  import opened Wrappers
  import opened Text
  import opened AliasSplit
  import opened AliasSubstitute
  import opened AliasExpand
  import opened AliasGraph

  datatype AliasError =
    | UnusableName
    | ShadowsCommand
    | BadExpansion(reason: SplitError)
    | EmptyExpansion
    | StartsWithFlag(head: string)
    | UnknownHead(head: string)
    | Cycle(chain: seq<string>)
    | NoSuchAlias

  /** `check_name`: what is wrong with a name, if anything. */
  function NameProblem(commands: set<string>, name: string): Option<AliasError> {
    if name == "" || StartsWithDash(name) || |WhitespaceWords(name)| != 1 then Some(UnusableName)
    else if name in commands then Some(ShadowsCommand)
    else None
  }

  /** The table expansion would walk once `name` stood for `expansion`. */
  function Candidate(user: Table, name: string, expansion: string): Table {
    WithBuiltins(user)[name := expansion]
  }

  /** `check_expansion`: what is wrong with an expansion, if anything. */
  ghost function ExpansionProblem(commands: set<string>, user: Table, name: string, expansion: string)
    : Option<AliasError>
  {
    match Words(expansion)
    case Err(e) => Some(BadExpansion(e))
    case Ok(words) =>
      if words == [] then Some(EmptyExpansion)
      else if StartsWithDash(words[0]) then Some(StartsWithFlag(words[0]))
      else if words[0] !in commands && words[0] !in WithBuiltins(user) && words[0] != name then
        Some(UnknownHead(words[0]))
      else match CycleFrom(Candidate(user, name, expansion), [name])
        case Some(chain) => Some(Cycle(chain))
        case None => None
  }

  ghost function Problem(commands: set<string>, user: Table, name: string, expansion: string): Option<AliasError> {
    if NameProblem(commands, name).Some? then NameProblem(commands, name)
    else ExpansionProblem(commands, user, name, expansion)
  }

  method CheckExpansion(commands: set<string>, user: Table, name: string, expansion: string)
    returns (r: Option<AliasError>)
    ensures r == ExpansionProblem(commands, user, name, expansion)
  {
    var words := Split(expansion);
    if words.Err? {
      return Some(BadExpansion(words.error));
    }
    if words.value == [] {
      return Some(EmptyExpansion);
    }
    var head := words.value[0];
    if StartsWithDash(head) {
      return Some(StartsWithFlag(head));
    }
    var table := MergeBuiltins(user);
    var knownCommand := head in commands;
    var knownAlias := head in table || head == name;
    if !knownCommand && !knownAlias {
      return Some(UnknownHead(head));
    }
    table := table[name := expansion];
    var cycle := FindCycle(name, table);
    if cycle.Some? {
      return Some(Cycle(cycle.value));
    }
    return None;
  }

  // -------------------------------------------------------------- effects on the table

  ghost function AfterSet(commands: set<string>, user: Table, name: string, expansion: string): Table {
    if Problem(commands, user, Trim(name), Trim(expansion)).Some? then user
    else user[Trim(name) := Trim(expansion)]
  }

  ghost function AfterDelete(user: Table, name: string): Table {
    user - {Trim(name)}
  }

  /** One entry of an import file: kept out when already set, or when it does not pass the checks. */
  ghost function AfterEntry(commands: set<string>, user: Table, entry: (string, string), clobber: bool): Table {
    if entry.0 in user && !clobber then user
    else if Problem(commands, user, entry.0, entry.1).Some? then user
    else user[entry.0 := entry.1]
  }

  ghost function AfterImport(commands: set<string>, user: Table, entries: seq<(string, string)>, clobber: bool): Table
    decreases |entries|
  {
    if entries == [] then user
    else
      var n := |entries| - 1;
      AfterEntry(commands, AfterImport(commands, user, entries[..n], clobber), entries[n], clobber)
  }

  /** The names an import reports as skipped, in the order of its entries, which is by name. */
  ghost function SkippedNames(commands: set<string>, user: Table, entries: seq<(string, string)>, clobber: bool): seq<string>
    decreases |entries|
  {
    if entries == [] then []
    else
      var n := |entries| - 1;
      var before := AfterImport(commands, user, entries[..n], clobber);
      var (name, expansion) := entries[n];
      var skips := (name in before && !clobber) || Problem(commands, before, name, expansion).Some?;
      SkippedNames(commands, user, entries[..n], clobber) + if skips then [name] else []
  }

  class Config {
    var aliases: Table
    /** Every top-level word `fjo` itself answers to. */
    const commands: set<string>

    constructor (commands: set<string>)
      ensures this.commands == commands && aliases == map[]
    {
      this.commands := commands;
      this.aliases := map[];
    }

    /** `Config::set_alias`, with its own check on the name. */
    method SetAlias(name: string, expansion: string) returns (ok: bool)
      modifies this`aliases
      ensures ok <==> Trim(name) != "" && !StartsWithDash(name)
      ensures aliases == if ok then old(aliases)[name := expansion] else old(aliases)
    {
      ok := Trim(name) != "" && !StartsWithDash(name);
      if ok {
        aliases := aliases[name := expansion];
      }
    }

    method Set(rawName: string, rawExpansion: string) returns (r: Option<AliasError>)
      modifies this`aliases
      ensures r == Problem(commands, old(aliases), Trim(rawName), Trim(rawExpansion))
      ensures aliases == if r.Some? then old(aliases) else old(aliases)[Trim(rawName) := Trim(rawExpansion)]
      ensures aliases == AfterSet(commands, old(aliases), rawName, rawExpansion)
    {
      var name, expansion := Trim(rawName), Trim(rawExpansion);
      r := NameProblem(commands, name);
      if r.Some? {
        return;
      }
      r := CheckExpansion(commands, aliases, name, expansion);
      if r.Some? {
        return;
      }
      CheckedNameIsStored(commands, name);
      var ok := SetAlias(name, expansion);
    }

    method Delete(rawName: string) returns (r: Option<AliasError>)
      modifies this`aliases
      ensures r == if Trim(rawName) in old(aliases) then None else Some(NoSuchAlias)
      ensures Trim(rawName) !in aliases
      ensures forall name :: name != Trim(rawName) ==> MapGet(aliases, name) == MapGet(old(aliases), name)
      ensures aliases == AfterDelete(old(aliases), rawName)
    {
      var name := Trim(rawName);
      if name !in aliases {
        return Some(NoSuchAlias);
      }
      aliases := aliases - {name};
      return None;
    }

    /** Returns how many entries were stored, and which were not. */
    method Import(entries: seq<(string, string)>, clobber: bool) returns (added: nat, skipped: seq<string>)
      modifies this`aliases
      ensures aliases == AfterImport(commands, old(aliases), entries, clobber)
      ensures added + |skipped| == |entries|
      ensures skipped == SkippedNames(commands, old(aliases), entries, clobber)
    {
      added, skipped := 0, [];
      for i := 0 to |entries|
        invariant aliases == AfterImport(commands, old(aliases), entries[..i], clobber)
        invariant added + |skipped| == i
        invariant skipped == SkippedNames(commands, old(aliases), entries[..i], clobber)
      {
        assert entries[..i + 1][..i] == entries[..i];
        var (name, expansion) := entries[i];
        if name in aliases && !clobber {
          skipped := skipped + [name];
        } else {
          var problem := NameProblem(commands, name);
          if problem.None? {
            problem := CheckExpansion(commands, aliases, name, expansion);
          }
          if problem.Some? {
            skipped := skipped + [name];
          } else {
            CheckedNameIsStored(commands, name);
            var ok := SetAlias(name, expansion);
            added := added + 1;
          }
        }
      }
      assert entries[..|entries|] == entries;
    }
  }

  // ------------------------------------------------------------- what an import does

  /** The entries of a file, which is a table, have different names. */
  ghost predicate DistinctEntries(entries: seq<(string, string)>) {
    forall i, j :: 0 <= i < j < |entries| ==> entries[i].0 != entries[j].0
  }

  ghost predicate InFile(entries: seq<(string, string)>, name: string) {
    exists i :: 0 <= i < |entries| && entries[i].0 == name
  }

  /** Whether an entry passes the checks against a table. */
  type Check = (Table, (string, string)) -> bool

  ghost function Checks(commands: set<string>): Check {
    (user: Table, entry: (string, string)) => Problem(commands, user, entry.0, entry.1).None?
  }

  function Imported(check: Check, user: Table, entries: seq<(string, string)>, clobber: bool): Table
    decreases |entries|
  {
    if entries == [] then user
    else
      var entry := entries[|entries| - 1];
      var before := Imported(check, user, entries[..|entries| - 1], clobber);
      if (entry.0 in before && !clobber) || !check(before, entry) then before else before[entry.0 := entry.1]
  }

  function Reported(check: Check, user: Table, entries: seq<(string, string)>, clobber: bool): seq<string>
    decreases |entries|
  {
    if entries == [] then []
    else
      var entry := entries[|entries| - 1];
      var before := Imported(check, user, entries[..|entries| - 1], clobber);
      Reported(check, user, entries[..|entries| - 1], clobber)
      + if (entry.0 in before && !clobber) || !check(before, entry) then [entry.0] else []
  }

  lemma {:induction false} ImportIsImported(commands: set<string>, user: Table, entries: seq<(string, string)>, clobber: bool)
    ensures AfterImport(commands, user, entries, clobber) == Imported(Checks(commands), user, entries, clobber)
    ensures SkippedNames(commands, user, entries, clobber) == Reported(Checks(commands), user, entries, clobber)
    decreases |entries|
  {
    if entries != [] {
      ImportIsImported(commands, user, entries[..|entries| - 1], clobber);
    }
  }

  lemma {:induction false} FrameOf(check: Check, user: Table, entries: seq<(string, string)>, clobber: bool, name: string)
    requires !InFile(entries, name)
    ensures MapGet(Imported(check, user, entries, clobber), name) == MapGet(user, name)
    ensures name !in Reported(check, user, entries, clobber)
    decreases |entries|
  {
    if entries != [] {
      var n := |entries| - 1;
      assert forall i :: 0 <= i < n ==> entries[..n][i].0 == entries[i].0;
      FrameOf(check, user, entries[..n], clobber, name);
      assert entries[n].0 != name;
    }
  }

  /** Names a file does not list are left alone, and are not reported. */
  lemma ImportFrame(commands: set<string>, user: Table, entries: seq<(string, string)>, clobber: bool, name: string)
    requires !InFile(entries, name)
    ensures MapGet(AfterImport(commands, user, entries, clobber), name) == MapGet(user, name)
    ensures name !in SkippedNames(commands, user, entries, clobber)
  {
    ImportIsImported(commands, user, entries, clobber);
    FrameOf(Checks(commands), user, entries, clobber, name);
  }

  lemma NotListedBefore(entries: seq<(string, string)>)
    requires DistinctEntries(entries) && entries != []
    ensures var n := |entries| - 1; DistinctEntries(entries[..n]) && !InFile(entries[..n], entries[n].0)
  {
    var n := |entries| - 1;
    assert forall i :: 0 <= i < n ==> entries[..n][i] == entries[i];
  }

  /** What is in the table and in the report for `name`, with and without `stores`. */
  ghost predicate Settled(user: Table, after: Table, skipped: seq<string>, entry: (string, string), stores: bool) {
    && MapGet(after, entry.0) == (if stores then Some(entry.1) else MapGet(user, entry.0))
    && (entry.0 in skipped <==> !stores)
  }

  predicate Accepts(check: Check, user: Table, entries: seq<(string, string)>, clobber: bool, k: nat)
    requires k < |entries|
  {
    (clobber || entries[k].0 !in user) && check(Imported(check, user, entries[..k], clobber), entries[k])
  }

  /** An entry for another name changes nothing of that. */
  lemma SettledBehind(user: Table, after: Table, skipped: seq<string>, entry: (string, string), stores: bool,
                      last: (string, string))
    requires Settled(user, after, skipped, entry, stores) && last.0 != entry.0
    ensures Settled(user, after[last.0 := last.1], skipped, entry, stores)
    ensures Settled(user, after, skipped + [last.0], entry, stores)
  {
  }

  lemma {:induction false} SettledOf(check: Check, user: Table, entries: seq<(string, string)>, clobber: bool, k: nat)
    requires DistinctEntries(entries) && k < |entries|
    ensures Settled(user, Imported(check, user, entries, clobber), Reported(check, user, entries, clobber),
                    entries[k], Accepts(check, user, entries, clobber, k))
    decreases |entries|
  {
    var n := |entries| - 1;
    var init := entries[..n];
    NotListedBefore(entries);
    if k < n {
      assert init[..k] == entries[..k] && init[k] == entries[k];
      SettledOf(check, user, init, clobber, k);
      SettledBehind(user, Imported(check, user, init, clobber), Reported(check, user, init, clobber),
                    entries[k], Accepts(check, user, entries, clobber, k), entries[n]);
    } else {
      FrameOf(check, user, init, clobber, entries[n].0);
    }
  }

  /** An entry is stored: it may replace what is there, and passes the checks against the table so far. */
  ghost predicate Stores(commands: set<string>, user: Table, entries: seq<(string, string)>, clobber: bool, k: nat)
    requires k < |entries|
  {
    && (clobber || entries[k].0 !in user)
    && Problem(commands, AfterImport(commands, user, entries[..k], clobber), entries[k].0, entries[k].1).None?
  }

  lemma StoresMeans(commands: set<string>, user: Table, entries: seq<(string, string)>, clobber: bool, k: nat)
    requires k < |entries|
    ensures Stores(commands, user, entries, clobber, k) <==> Accepts(Checks(commands), user, entries, clobber, k)
  {
    ImportIsImported(commands, user, entries[..k], clobber);
  }

  /**
   Every entry is stored if it may replace what is there and passes the checks, and otherwise changes
   nothing and is reported: `--clobber` replaces, and nothing else does.
   */
  lemma ImportMeaning(commands: set<string>, user: Table, entries: seq<(string, string)>, clobber: bool, k: nat)
    requires DistinctEntries(entries) && k < |entries|
    ensures Settled(user, AfterImport(commands, user, entries, clobber), SkippedNames(commands, user, entries, clobber),
                    entries[k], Stores(commands, user, entries, clobber, k))
  {
    ImportIsImported(commands, user, entries, clobber);
    SettledOf(Checks(commands), user, entries, clobber, k);
    StoresMeans(commands, user, entries, clobber, k);
  }

  /** A name that passes `check_name` is never refused by `set_alias`. */
  lemma CheckedNameIsStored(commands: set<string>, name: string)
    requires NameProblem(commands, name).None?
    ensures Trim(name) != "" && !StartsWithDash(name)
  {
    if Trim(name) == "" {
      TrimmedAway(name);
      SpacesHaveNoWords(name);
    }
  }

  lemma {:induction false} TrimmedAway(s: string)
    requires Trim(s) == ""
    ensures forall i :: 0 <= i < |s| ==> IsSpace(s[i])
  {
    if s != "" && IsSpace(s[0]) {
      TrimmedAway(s[1..]);
      assert forall i :: 1 <= i < |s| ==> s[i] == s[1..][i - 1];
    } else if s != "" {
      TrimEndKeepsHead(s);
    }
  }

  lemma {:induction false} TrimEndKeepsHead(s: string)
    requires s != "" && !IsSpace(s[0])
    ensures TrimEnd(s) != ""
  {
    if IsSpace(s[|s| - 1]) {
      TrimEndKeepsHead(s[..|s| - 1]);
    }
  }

  lemma {:induction false} SpacesHaveNoWords(s: string)
    requires forall i :: 0 <= i < |s| ==> IsSpace(s[i])
    ensures WhitespaceWords(s) == []
  {
    if s != "" {
      SpacesHaveNoWords(s[1..]);
    }
  }

  /** White space, one word, and white space. */
  ghost predicate IsWordAt(s: string, i: nat, j: nat) {
    i < j <= |s| && forall k :: 0 <= k < |s| ==> (i <= k < j <==> !IsSpace(s[k]))
  }

  lemma {:induction false} NoWords(s: string)
    ensures WhitespaceWords(s) == [] <==> forall k :: 0 <= k < |s| ==> IsSpace(s[k])
  {
    if s != "" && IsSpace(s[0]) {
      NoWords(s[1..]);
      assert forall k :: 1 <= k < |s| ==> s[k] == s[1..][k - 1];
    }
  }

  lemma {:induction false} OneWordExactly(s: string)
    ensures |WhitespaceWords(s)| == 1 <==> exists i: nat, j: nat :: IsWordAt(s, i, j)
  {
    if s != "" && IsSpace(s[0]) {
      OneWordExactly(s[1..]);
      if i: nat, j: nat :| IsWordAt(s[1..], i, j) {
        assert IsWordAt(s, i + 1, j + 1);
      }
      if i: nat, j: nat :| IsWordAt(s, i, j) {
        assert !IsSpace(s[i]) && i > 0;
        assert IsWordAt(s[1..], i - 1, j - 1);
      }
    } else if s != "" {
      var n := WordLength(s);
      NoWords(s[n..]);
      assert forall k :: n <= k < |s| ==> s[k] == s[n..][k - n];
      if WhitespaceWords(s[n..]) == [] {
        assert IsWordAt(s, 0, n);
      }
      if i: nat, j: nat :| IsWordAt(s, i, j) {
        assert !IsSpace(s[0]) && i == 0;
        assert n < |s| ==> j <= n;
        assert forall k :: n <= k < |s| ==> IsSpace(s[k]);
      }
    }
  }

  /** A name can be used exactly when it is one word, does not look like a flag, and is no command. */
  lemma NameMeaning(commands: set<string>, name: string)
    ensures NameProblem(commands, name).None? <==>
            !StartsWithDash(name) && name !in commands && exists i: nat, j: nat :: IsWordAt(name, i, j)
    ensures NameProblem(commands, name) == Some(ShadowsCommand) <==>
            !StartsWithDash(name) && name in commands && exists i: nat, j: nat :: IsWordAt(name, i, j)
  {
    OneWordExactly(name);
  }

  /** What is wrong with an expansion: the first of these that applies, and nothing when none does. */
  lemma ExpansionProblemMeaning(commands: set<string>, user: Table, name: string, expansion: string)
    ensures var p, words := ExpansionProblem(commands, user, name, expansion), Words(expansion);
            && (forall e :: p == Some(BadExpansion(e)) <==> words == Err(e))
            && (p == Some(EmptyExpansion) <==> words == Ok([]))
            && (words.Ok? && words.value != [] ==>
                  var head := words.value[0];
                  var known := head in commands || head in WithBuiltins(user) || head == name;
                  var walked := CycleFrom(WithBuiltins(user)[name := expansion], [name]);
                  && (p == Some(StartsWithFlag(head)) <==> StartsWithDash(head))
                  && (p == Some(UnknownHead(head)) <==> !StartsWithDash(head) && !known)
                  && (forall chain :: p == Some(Cycle(chain)) <==> !StartsWithDash(head) && known && walked == Some(chain))
                  && (p == None <==> !StartsWithDash(head) && known && walked == None))
  {
  }

  // ----------------------------------------------------------------- whole runs

  datatype Change =
    | SetAlias(name: string, expansion: string)
    | DeleteAlias(name: string)
    | ImportAliases(entries: seq<(string, string)>, clobber: bool)

  ghost function After(commands: set<string>, user: Table, c: Change): Table {
    match c
    case SetAlias(name, expansion) => AfterSet(commands, user, name, expansion)
    case DeleteAlias(name) => AfterDelete(user, name)
    case ImportAliases(entries, clobber) => AfterImport(commands, user, entries, clobber)
  }

  ghost function AfterAll(commands: set<string>, user: Table, run: seq<Change>): Table
    decreases |run|
  {
    if run == [] then user
    else After(commands, AfterAll(commands, user, run[..|run| - 1]), run[|run| - 1])
  }

  /** The command tree answers to every word a built-in starts with, and to no built-in's name. */
  predicate Sensible(commands: set<string>) {
    && {"pr", "label", "milestone", "auth"} <= commands
    && {"pull", "labels", "ms", "login", "whoami"} !! commands
  }

  /** What every change keeps: no cycle in the merged graph, and no alias named like a command. */
  ghost predicate Safe(commands: set<string>, user: Table) {
    Acyclic(WithBuiltins(user)) && user.Keys !! commands
  }

  lemma BuiltinEdge(t: Table, name: string)
    requires IsBuiltinTable(t) && name in t
    ensures Edge(t, name).Some? && Edge(t, name).value in {"pr", "label", "milestone", "auth"}
  {
    if name == "login" {
      TwoWordEdge(t, name, "auth", "login");
    } else if name == "whoami" {
      TwoWordEdge(t, name, "auth", "status");
    } else {
      OneWordBuiltinEdge(t, name);
    }
  }

  lemma OneWordBuiltinEdge(t: Table, name: string)
    requires IsBuiltinTable(t) && name in {"pull", "labels", "ms"}
    ensures Edge(t, name).Some? && Edge(t, name).value in {"pr", "label", "milestone"}
  {
    var w := t[name];
    assert w in {"pr", "label", "milestone"};
    WordEdge(t, name, w);
  }

  lemma WordEdge(t: Table, name: string, w: string)
    requires name in t && t[name] == w && PlainWord(w)
    ensures Edge(t, name) == Some(w)
  {
    WordOf(w);
  }

  lemma TwoWordEdge(t: Table, name: string, a: string, b: string)
    requires name in t && t[name] == a + " " + b && PlainWord(a) && PlainWord(b)
    ensures Edge(t, name) == Some(a)
  {
    TwoWords(a, b, t[name]);
  }

  predicate PlainWord(w: string) {
    w != "" && Unquoted(w) && forall i :: 0 <= i < |w| ==> !IsSpace(w[i])
  }

  lemma WordOf(w: string)
    requires PlainWord(w)
    ensures WhitespaceWords(w) == [w] && Words(w) == Ok([w])
  {
    var n := WordLength(w);
    assert n == |w| && w[..n] == w && w[n..] == "";
    SplitPlain(w);
  }

  lemma TwoWords(a: string, b: string, s: string)
    requires PlainWord(a) && PlainWord(b) && s == a + " " + b
    ensures Words(s) == Ok([a, b])
  {
    var n := WordLength(s);
    assert s[|a|] == ' ' && forall i :: 0 <= i < |a| ==> s[i] == a[i];
    assert n == |a| && s[..n] == a;
    var rest := s[n..];
    assert rest[1..] == b && rest[0] == ' ';
    WordOf(b);
    assert WhitespaceWords(rest) == [b];
    assert WhitespaceWords(s) == [a] + [b] == [a, b];
    assert Unquoted(s) by {
      assert forall c :: c in s ==> c in a || c == ' ' || c in b;
    }
    SplitPlain(s);
  }

  /** A stored alias has passed the checks, and passing the checks keeps a safe table safe. */
  lemma StoreKeepsSafe(commands: set<string>, user: Table, name: string, expansion: string)
    requires Safe(commands, user) && Problem(commands, user, name, expansion).None?
    ensures Safe(commands, user[name := expansion])
  {
    StoredOverBuiltins(user, name, expansion);
    CheckedUpdateIsAcyclic(WithBuiltins(user), name, expansion);
  }

  lemma StoredOverBuiltins(user: Table, name: string, expansion: string)
    ensures WithBuiltins(user[name := expansion]) == Candidate(user, name, expansion)
  {
  }

  lemma DeleteKeepsSafe(commands: set<string>, user: Table, name: string)
    requires Sensible(commands) && Safe(commands, user)
    ensures Safe(commands, user - {name})
  {
    BuiltinTable();
    var builtins := BuiltinsUpTo(|BUILTIN|);
    if name in builtins {
      UncoveredBuiltinIsSafe(commands, builtins, user, name);
    } else {
      assert builtins + (user - {name}) == (builtins + user) - {name};
      RemovalKeepsAcyclic(builtins + user, name);
    }
  }

  /** The built-in a user had replaced comes back, pointing at a command. */
  lemma UncoveredBuiltinIsSafe(commands: set<string>, builtins: Table, user: Table, name: string)
    requires Sensible(commands) && IsBuiltinTable(builtins) && name in builtins
    requires Acyclic(builtins + user) && user.Keys !! commands
    ensures Acyclic(builtins + (user - {name}))
  {
    BuiltinEdge(builtins, name);
    UncoveredIsUpdate(builtins, user, name);
    BackOverCommand(builtins + user, name, builtins[name], Edge(builtins, name).value);
  }

  lemma UncoveredIsUpdate(builtins: Table, user: Table, name: string)
    requires name in builtins
    ensures builtins + (user - {name}) == (builtins + user)[name := builtins[name]]
    ensures Edge((builtins + user)[name := builtins[name]], name) == Edge(builtins, name)
  {
  }

  lemma BackOverCommand(t: Table, name: string, expansion: string, command: string)
    requires Acyclic(t) && Edge(t[name := expansion], name) == Some(command) && command !in t && command != name
    ensures Acyclic(t[name := expansion])
  {
    UpdateKeepsAcyclic(t, name, expansion, [name, command]);
  }

  lemma {:induction false} ImportKeepsSafe(commands: set<string>, user: Table, entries: seq<(string, string)>, clobber: bool)
    requires Safe(commands, user)
    ensures Safe(commands, AfterImport(commands, user, entries, clobber))
    decreases |entries|
  {
    if entries != [] {
      var n := |entries| - 1;
      ImportKeepsSafe(commands, user, entries[..n], clobber);
      var before := AfterImport(commands, user, entries[..n], clobber);
      if Problem(commands, before, entries[n].0, entries[n].1).None? {
        StoreKeepsSafe(commands, before, entries[n].0, entries[n].1);
      }
    }
  }

  lemma ChangeKeepsSafe(commands: set<string>, user: Table, c: Change)
    requires Sensible(commands) && Safe(commands, user)
    ensures Safe(commands, After(commands, user, c))
  {
    match c
    case SetAlias(name, expansion) =>
      if Problem(commands, user, Trim(name), Trim(expansion)).None? {
        StoreKeepsSafe(commands, user, Trim(name), Trim(expansion));
      }
    case DeleteAlias(name) => DeleteKeepsSafe(commands, user, Trim(name));
    case ImportAliases(entries, clobber) => ImportKeepsSafe(commands, user, entries, clobber);
  }

  /** Every run of set, import and delete keeps the merged first-word graph acyclic. */
  lemma {:induction false} RunKeepsSafe(commands: set<string>, user: Table, run: seq<Change>)
    requires Sensible(commands) && Safe(commands, user)
    ensures Safe(commands, AfterAll(commands, user, run))
    decreases |run|
  {
    if run != [] {
      RunKeepsSafe(commands, user, run[..|run| - 1]);
      ChangeKeepsSafe(commands, AfterAll(commands, user, run[..|run| - 1]), run[|run| - 1]);
    }
  }

  /** For an alias that stands for one plain word that is known, only the cycle check is left. */
  lemma PlainStore(commands: set<string>, user: Table, name: string, head: string)
    requires PlainWord(name) && PlainWord(head) && !StartsWithDash(name) && !StartsWithDash(head)
    requires name !in commands && (head in commands || head in user)
    ensures Problem(commands, user, name, head) ==
            match CycleFrom(Candidate(user, name, head), [name])
            case None => None
            case Some(chain) => Some(Cycle(chain))
  {
    WordOf(name);
    WordOf(head);
  }

  // ------------------------------------------------------- no loop at run time, ever

  /** No name that could become a first word holds a placeholder. */
  ghost predicate PlainNames(commands: set<string>, user: Table) {
    && (forall c :: c in commands ==> NoRefs(c))
    && (forall a :: a in user ==> NoRefs(a))
    && PlainHeads(WithBuiltins(user))
  }

  /** The names a change would store. */
  ghost predicate NamesPlainly(c: Change) {
    match c
    case SetAlias(name, _) => NoRefs(Trim(name))
    case DeleteAlias(_) => true
    case ImportAliases(entries, _) => forall i :: 0 <= i < |entries| ==> NoRefs(entries[i].0)
  }

  lemma BuiltinNamesPlain()
    ensures forall b :: b in BuiltinsUpTo(|BUILTIN|) ==> NoRefs(b)
  {
    BuiltinTable();
  }

  lemma StoreKeepsPlain(commands: set<string>, user: Table, name: string, expansion: string)
    requires PlainNames(commands, user) && NoRefs(name) && Problem(commands, user, name, expansion).None?
    ensures PlainNames(commands, user[name := expansion])
  {
    var after := WithBuiltins(user[name := expansion]);
    BuiltinNamesPlain();
    forall a | Edge(after, a).Some? ensures NoRefs(Edge(after, a).value) {
      if a != name {
        assert Edge(WithBuiltins(user), a) == Edge(after, a);
      }
    }
  }

  lemma DeleteKeepsPlain(commands: set<string>, user: Table, name: string)
    requires PlainNames(commands, user)
    ensures PlainNames(commands, user - {name})
  {
    BuiltinTable();
    RemovalKeepsPlainHeads(BuiltinsUpTo(|BUILTIN|), user, name);
  }

  lemma RemovalKeepsPlainHeads(builtins: Table, user: Table, name: string)
    requires IsBuiltinTable(builtins) && PlainHeads(builtins + user)
    ensures PlainHeads(builtins + (user - {name}))
  {
    var after := builtins + (user - {name});
    forall a | Edge(after, a).Some? ensures NoRefs(Edge(after, a).value) {
      if a == name {
        BuiltinEdge(builtins, name);
        assert Edge(after, a) == Edge(builtins, a);
      } else {
        assert Edge(builtins + user, a) == Edge(after, a);
      }
    }
  }

  lemma {:induction false} ImportKeepsPlain(commands: set<string>, user: Table, entries: seq<(string, string)>, clobber: bool)
    requires PlainNames(commands, user) && NamesPlainly(ImportAliases(entries, clobber))
    ensures PlainNames(commands, AfterImport(commands, user, entries, clobber))
    decreases |entries|
  {
    if entries != [] {
      var n := |entries| - 1;
      ImportKeepsPlain(commands, user, entries[..n], clobber);
      var before := AfterImport(commands, user, entries[..n], clobber);
      if Problem(commands, before, entries[n].0, entries[n].1).None? {
        StoreKeepsPlain(commands, before, entries[n].0, entries[n].1);
      }
    }
  }

  lemma {:induction false} RunKeepsPlain(commands: set<string>, user: Table, run: seq<Change>)
    requires PlainNames(commands, user) && forall i :: 0 <= i < |run| ==> NamesPlainly(run[i])
    ensures PlainNames(commands, AfterAll(commands, user, run))
    decreases |run|
  {
    if run != [] {
      var n := |run| - 1;
      RunKeepsPlain(commands, user, run[..n]);
      var before := AfterAll(commands, user, run[..n]);
      assert NamesPlainly(run[n]);
      match run[n]
      case SetAlias(name, expansion) =>
        if Problem(commands, before, Trim(name), Trim(expansion)).None? {
          StoreKeepsPlain(commands, before, Trim(name), Trim(expansion));
        }
      case DeleteAlias(name) => DeleteKeepsPlain(commands, before, Trim(name));
      case ImportAliases(entries, clobber) => ImportKeepsPlain(commands, before, entries, clobber);
    }
  }

  /**
   Whatever was set, imported and deleted, and however an alias is then invoked: the expansion
   never reports a loop, provided no stored name holds `$1`..`$9`.
   */
  lemma RunNeverLoops(commands: set<string>, user: Table, run: seq<Change>, c: Call)
    requires Sensible(commands) && Safe(commands, user) && PlainNames(commands, user)
    requires forall i :: 0 <= i < |run| ==> NamesPlainly(run[i])
    ensures var r := Expansion(WithBuiltins(AfterAll(commands, user, run)), [], c);
            r.Err? ==> !r.error.Loop?
  {
    RunKeepsSafe(commands, user, run);
    RunKeepsPlain(commands, user, run);
    AcyclicNeverLoops(WithBuiltins(AfterAll(commands, user, run)), c);
  }

  /** The built-ins alone have no cycle: they all point at commands. */
  lemma BuiltinsAreSafe(commands: set<string>)
    requires Sensible(commands)
    ensures Safe(commands, map[])
  {
    var t := WithBuiltins(map[]);
    assert t == BuiltinsUpTo(|BUILTIN|);
    BuiltinTable();
    forall a | a in t ensures Edge(t, a).Some? && Edge(t, a).value !in t {
      BuiltinEdge(t, a);
    }
    forall p | IsWalk(t, p) && |p| >= 2 ensures p[0] != p[|p| - 1] {
      var n := |p| - 1;
      assert Edge(t, p[n - 1]) == Some(p[n]) && Edge(t, p[0]) == Some(p[1]);
    }
  }

  /** A fresh configuration is a safe start. */
  lemma EmptyIsSafe(commands: set<string>)
    requires Sensible(commands) && forall c :: c in commands ==> NoRefs(c)
    ensures Safe(commands, map[]) && PlainNames(commands, map[])
  {
    BuiltinsAreSafe(commands);
    assert WithBuiltins(map[]) == BuiltinsUpTo(|BUILTIN|);
    BuiltinTable();
    BuiltinHeadsArePlain(commands, BuiltinsUpTo(|BUILTIN|));
  }

  lemma BuiltinHeadsArePlain(commands: set<string>, t: Table)
    requires IsBuiltinTable(t) && {"pr", "label", "milestone", "auth"} <= commands && forall c :: c in commands ==> NoRefs(c)
    ensures PlainHeads(t)
  {
    forall a | Edge(t, a).Some? ensures NoRefs(Edge(t, a).value) {
      BuiltinEdge(t, a);
    }
  }
}
