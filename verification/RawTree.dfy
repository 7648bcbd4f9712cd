/** The command tree of `fjo raw`: pruned to what the command line names, and safe to add the globals to. */
module RawTree {
  import opened Wrappers
  import opened Text
  import opened Sequences
  import opened Flags
  import opened Globals
  import Lookup

  /** The tables: where each operation is filed, and what its flags are made from. */
  ghost predicate Tables(keys: seq<Lookup.Op>, ops: seq<Operation>, groups: seq<Lookup.Group>) {
    && Lookup.WellFormed(keys, groups)
    && |ops| == |keys|
    && forall i :: 0 <= i < |ops| ==> ops[i].command == keys[i].command
  }

  /** A command with nothing but a name. */
  function Stub(name: string): Command {
    Command(name, [], [])
  }

  function Stubs(names: seq<string>): seq<Command> {
    seq(|names|, i requires 0 <= i < |names| => Stub(names[i]))
  }

  /** The `search` leaf, which takes its words by position. */
  function SearchCommand(): Command {
    Command("search", [Arg("terms", None, None, [])], [])
  }

  function CommandNames(keys: seq<Lookup.Op>): seq<string> {
    seq(|keys|, i requires 0 <= i < |keys| => keys[i].command)
  }

  /** The index of the group that was named, if there is one. */
  function GroupAt(groups: seq<Lookup.Group>, group: Option<string>): Option<nat> {
    if group.None? then None else Lookup.FindGroup(groups, group.value)
  }

  function LeafAt(keys: seq<Lookup.Op>, g: Lookup.Group, leaf: Option<string>): Option<nat> {
    if leaf.None? then None else Lookup.FindOp(keys, g.name, leaf.value)
  }

  /** The one group of a pruned tree: with the leaf that was named, or with a stub for each of its operations. */
  ghost predicate IsGroupTree(c: Command, keys: seq<Lookup.Op>, ops: seq<Operation>, g: Lookup.Group, leaf: Option<string>)
    requires Lookup.OwnRun(keys, g) && |ops| == |keys|
  {
    && c.name == g.name && c.args == []
    && match LeafAt(keys, g, leaf)
       case Some(i) => i < |ops| && |c.subs| == 1 && IsLeaf(c.subs[0], ops[i])
       case None => c.subs == Stubs(CommandNames(Lookup.OpsIn(keys, g)))
  }

  ghost predicate IsRawTree(raw: Command, keys: seq<Lookup.Op>, ops: seq<Operation>, groups: seq<Lookup.Group>,
                            group: Option<string>, leaf: Option<string>)
    requires Tables(keys, ops, groups)
  {
    && raw.name == "raw" && raw.args == []
    && match GroupAt(groups, group)
       case None => raw.subs == Stubs(Lookup.GroupNames(groups)) + [SearchCommand()]
       case Some(k) =>
         && k < |groups| && |raw.subs| == 1
         && groups[k] in groups && Lookup.OwnRun(keys, groups[k])
         && IsGroupTree(raw.subs[0], keys, ops, groups[k], leaf)
  }

  method GroupTree(keys: seq<Lookup.Op>, ops: seq<Operation>, g: Lookup.Group, leaf: Option<string>) returns (c: Command)
    requires Lookup.OwnRun(keys, g) && |ops| == |keys| && Lookup.Ascending(Lookup.ByPair(), Lookup.OpKeys(keys))
    ensures IsGroupTree(c, keys, ops, g, leaf)
  {
    var found := LeafAt(keys, g, leaf);
    if found.Some? {
      Lookup.FindOpMeaning(keys, g.name, leaf.value, 0);
      var one := LeafCommand(ops[found.value]);
      c := Command(g.name, [], [one]);
    } else {
      var all: seq<Command> := [];
      var slice := Lookup.OpsIn(keys, g);
      for i := 0 to |slice|
        invariant all == Stubs(CommandNames(slice))[..i]
      {
        all := all + [Stub(slice[i].command)];
      }
      c := Command(g.name, [], all);
    }
  }

  method RawCommand(keys: seq<Lookup.Op>, ops: seq<Operation>, groups: seq<Lookup.Group>,
                    group: Option<string>, leaf: Option<string>)
    returns (raw: Command)
    requires Tables(keys, ops, groups)
    ensures IsRawTree(raw, keys, ops, groups, group, leaf)
  {
    var k := GroupAt(groups, group);
    if k.Some? {
      Lookup.FindGroupMeaning(groups, group.value, 0);
      var g := groups[k.value];
      assert g in groups;
      var tree := GroupTree(keys, ops, g, leaf);
      raw := Command("raw", [], [tree]);
    } else {
      var names := Lookup.GroupNames(groups);
      var all: seq<Command> := [];
      for i := 0 to |groups|
        invariant all == Stubs(names)[..i]
      {
        all := all + [Stub(groups[i].name)];
      }
      raw := Command("raw", [], all + [SearchCommand()]);
    }
  }

  /** No command of the tree answers to a name twice. */
  ghost predicate Sound(c: Command) {
    forall n :: Node(c, n) ==> Distinct(AllNames(n.args))
  }

  lemma SoundFromParts(c: Command)
    requires Distinct(AllNames(c.args)) && forall s :: s in c.subs ==> Sound(s)
    ensures Sound(c)
  {
    forall n | Node(c, n) ensures Distinct(AllNames(n.args)) {
      if n != c {
        var i :| 0 <= i < |c.subs| && Node(c.subs[i], n);
        assert Sound(c.subs[i]);
      }
    }
  }

  lemma StubsAreSound(names: seq<string>)
    ensures forall s :: s in Stubs(names) ==> Sound(s)
  {
    forall s | s in Stubs(names) ensures Sound(s) {
      SoundFromParts(s);
    }
  }

  lemma LeafIsSound(leaf: Command, op: Operation)
    requires IsLeaf(leaf, op)
    ensures Sound(leaf)
  {
    var names :| Allocation(Range(EngineFlags(op)), Wants(op), names) && leaf == Command(op.command, LeafArgs(op, names), []);
    LeafNamesAreDistinct(op, names);
    SoundFromParts(leaf);
  }

  lemma SearchIsSound()
    ensures Sound(SearchCommand())
  {
    var a := Arg("terms", None, None, []);
    AllNamesSnoc([], a);
    assert [] + [a] == [a];
    SoundFromParts(SearchCommand());
  }

  /** Every tree of `raw`, whatever was named and whatever the tables hold, can take the globals. */
  lemma RawTreeIsSound(raw: Command, keys: seq<Lookup.Op>, ops: seq<Operation>, groups: seq<Lookup.Group>,
                       group: Option<string>, leaf: Option<string>)
    requires Tables(keys, ops, groups) && IsRawTree(raw, keys, ops, groups, group, leaf)
    ensures Sound(raw)
  {
    match GroupAt(groups, group)
    case None =>
      StubsAreSound(Lookup.GroupNames(groups));
      SearchIsSound();
      SoundFromParts(raw);
    case Some(k) =>
      var g, c := groups[k], raw.subs[0];
      match LeafAt(keys, g, leaf) {
        case Some(i) => LeafIsSound(c.subs[0], ops[i]);
        case None => StubsAreSound(CommandNames(Lookup.OpsIn(keys, g)));
      }
      SoundFromParts(c);
      SoundFromParts(raw);
  }

  function SubNames(c: Command): seq<string> {
    seq(|c.subs|, i requires 0 <= i < |c.subs| => c.subs[i].name)
  }

  /** Directly under `raw` is the group that was named, if there is such a group, and otherwise every group and `search`. */
  lemma RawTreeNames(raw: Command, keys: seq<Lookup.Op>, ops: seq<Operation>, groups: seq<Lookup.Group>,
                     group: Option<string>, leaf: Option<string>)
    requires Tables(keys, ops, groups) && IsRawTree(raw, keys, ops, groups, group, leaf)
    ensures raw.name == "raw"
    ensures SubNames(raw) == if group.Some? && group.value in Lookup.GroupNames(groups) then [group.value]
                             else Lookup.GroupNames(groups) + ["search"]
  {
    if group.Some? {
      Lookup.FindGroupMeaning(groups, group.value, 0);
      Lookup.StringOrder();
      Lookup.BinarySearchMeaning(Less, Lookup.GroupNames(groups), group.value, 0);
      if GroupAt(groups, group).Some? {
        Lookup.FindGroupMeaning(groups, group.value, GroupAt(groups, group).value);
      }
    }
  }

  /** The `(group, command)` pairs a built tree parses. */
  function Parses(raw: Command): set<(string, string)> {
    set i, j | 0 <= i < |raw.subs| && 0 <= j < |raw.subs[i].subs| :: (raw.subs[i].name, raw.subs[i].subs[j].name)
  }

  /** The tree parses exactly the pairs that the lookup afterwards is relied on to find. */
  lemma RawTreeParses(raw: Command, keys: seq<Lookup.Op>, ops: seq<Operation>, groups: seq<Lookup.Group>,
                      group: Option<string>, leaf: Option<string>, pair: (string, string))
    requires Tables(keys, ops, groups) && IsRawTree(raw, keys, ops, groups, group, leaf)
    ensures pair in Parses(raw) <==> pair in Lookup.Offered(keys, groups, group, leaf)
  {
    match GroupAt(groups, group)
    case None =>
    case Some(k) =>
      GroupTreeParses(raw.subs[0], keys, ops, groups[k], leaf, pair);
      assert pair in Parses(raw) <==>
             pair.0 == raw.subs[0].name && exists j :: 0 <= j < |raw.subs[0].subs| && raw.subs[0].subs[j].name == pair.1;
  }

  lemma GroupTreeParses(c: Command, keys: seq<Lookup.Op>, ops: seq<Operation>, g: Lookup.Group, leaf: Option<string>,
                        pair: (string, string))
    requires Lookup.OwnRun(keys, g) && |ops| == |keys| && IsGroupTree(c, keys, ops, g, leaf)
    requires Lookup.Ascending(Lookup.ByPair(), Lookup.OpKeys(keys))
    requires forall i :: 0 <= i < |ops| ==> ops[i].command == keys[i].command
    ensures pair in Lookup.GroupTree(keys, g, leaf) <==>
            pair.0 == c.name && exists j :: 0 <= j < |c.subs| && c.subs[j].name == pair.1
  {
    if LeafAt(keys, g, leaf).Some? {
      var i := LeafAt(keys, g, leaf).value;
      Lookup.FindOpMeaning(keys, g.name, leaf.value, i);
      assert c.subs[0].name == leaf.value;
    } else {
      var slice := Lookup.OpsIn(keys, g);
      var leaves := Lookup.Leaves(g, slice);
      assert forall j :: 0 <= j < |slice| ==> leaves[j] == (g.name, c.subs[j].name);
      if exists j :: 0 <= j < |c.subs| && c.subs[j].name == pair.1 && pair.0 == c.name {
        var j :| 0 <= j < |c.subs| && c.subs[j].name == pair.1;
        assert leaves[j] == pair;
      }
    }
  }

  /** The layer-2 root over any of these trees: no command in it answers to a name twice. */
  method LayerTwoRoot(keys: seq<Lookup.Op>, ops: seq<Operation>, groups: seq<Lookup.Group>,
                      group: Option<string>, leaf: Option<string>)
    returns (root: Command)
    requires Tables(keys, ops, groups)
    ensures |root.subs| == 1 && IsRawTree(root.subs[0], keys, ops, groups, group, leaf)
    ensures Distinct(AllNames(root.args))
    ensures forall n :: Node(root.subs[0], n) ==> Distinct(AllNames(n.args + root.args))
    ensures forall a :: a in root.args ==> a.long.Some? || a.short.Some?
  {
    var raw := RawCommand(keys, ops, groups, group, leaf);
    RawTreeIsSound(raw, keys, ops, groups, group, leaf);
    root := Root(raw);
  }
}
