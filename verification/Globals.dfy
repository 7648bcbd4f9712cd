/**
 The global flags, and how they are added to a command tree whose generated leaves may already
 use the same names.
 */
module Globals {
  import opened Wrappers
  import opened Sequences
  import opened Flags

  datatype Global = Global(id: string, long: string, short: Option<char>, alias: Option<string>)

  /** The calls of `push`, in order. */
  function Table(): seq<Global> {
    [ Global("g:host", "host", None, Some("hostname")),
      Global("g:login", "login", None, None),
      Global("g:repo", "repo", Some('R'), None),
      Global("g:json", "json", None, None),
      Global("g:jq", "jq", Some('q'), None),
      Global("g:template", "template", Some('t'), None),
      Global("g:color", "color", None, None),
      Global("g:sudo", "sudo", None, None),
      Global("g:otp", "otp", None, None),
      Global("g:debug", "debug", None, None),
      Global("g:no-retry", "no-retry", None, None),
      Global("g:max-retries", "max-retries", None, None),
      Global("g:insecure-skip-tls-verify", "insecure-skip-tls-verify", None, None),
      Global("g:paginate", "paginate", None, None),
      Global("g:limit", "limit", None, None),
      Global("g:output", "output", None, None),
      Global("g:force", "force", None, None) ]
  }

  function ShortName(c: char): string {
    ['-', c]
  }

  /** The argument with whichever of its names are free, or nothing when it would have neither long nor short. */
  function Named(g: Global, taken: set<string>): Option<Arg> {
    var longFree := g.long !in taken;
    var shortFree := g.short.Some? && ShortName(g.short.value) !in taken;
    if !longFree && !shortFree then None
    else Some(Arg(g.id,
                  if longFree then Some(g.long) else None,
                  if shortFree then g.short else None,
                  if g.alias.Some? && g.alias.value !in taken then [g.alias.value] else []))
  }

  function Kept(table: seq<Global>, taken: set<string>): seq<Arg> {
    if table == [] then []
    else
      var n := |table| - 1;
      var arg := Named(table[n], taken);
      if arg.Some? then Kept(table[..n], taken) + [arg.value] else Kept(table[..n], taken)
  }

  method Args(taken: set<string>) returns (out: seq<Arg>)
    ensures out == Kept(Table(), taken)
  {
    out := AddAll(Table(), taken);
  }

  method AddAll(table: seq<Global>, taken: set<string>) returns (out: seq<Arg>)
    ensures out == Kept(table, taken)
  {
    out := [];
    for i := 0 to |table|
      invariant out == Kept(table[..i], taken)
    {
      assert table[..i + 1][..i] == table[..i];
      var arg := Named(table[i], taken);
      if arg.Some? {
        out := out + [arg.value];
      }
    }
    assert table[..|table|] == table;
  }

  // ---------------------------------------------------------------- names in a tree

  /** Some argument anywhere in the tree answers to `k`. */
  predicate Uses(cmd: Command, k: string) {
    k in AllNames(cmd.args) || exists i :: 0 <= i < |cmd.subs| && Uses(cmd.subs[i], k)
  }

  ghost predicate Node(root: Command, n: Command) {
    n == root || exists i :: 0 <= i < |root.subs| && Node(root.subs[i], n)
  }

  lemma {:induction false} NodeNamesAreUsed(root: Command, n: Command, k: string)
    requires Node(root, n) && k in AllNames(n.args)
    ensures Uses(root, k)
  {
    if n != root {
      var i :| 0 <= i < |root.subs| && Node(root.subs[i], n);
      NodeNamesAreUsed(root.subs[i], n, k);
    }
  }

  /** A name is used exactly when a command somewhere in the tree answers to it. */
  lemma {:induction false} UsesExactly(cmd: Command, k: string)
    ensures Uses(cmd, k) <==> exists n :: Node(cmd, n) && k in AllNames(n.args)
    decreases cmd
  {
    if Uses(cmd, k) {
      if k in AllNames(cmd.args) {
        assert Node(cmd, cmd);
      } else {
        var i :| 0 <= i < |cmd.subs| && Uses(cmd.subs[i], k);
        UsesExactly(cmd.subs[i], k);
        var n :| Node(cmd.subs[i], n) && k in AllNames(n.args);
        assert Node(cmd, n);
      }
    }
    forall n | Node(cmd, n) && k in AllNames(n.args) ensures Uses(cmd, k) {
      NodeNamesAreUsed(cmd, n, k);
    }
  }

  method Walk(cmd: Command, out: NameSet)
    modifies out
    ensures forall k :: k in out.names <==> k in old(out.names) || Uses(cmd, k)
    decreases cmd
  {
    for i := 0 to |cmd.args|
      invariant forall k :: k in out.names <==> k in old(out.names) || k in AllNames(cmd.args[..i])
    {
      assert cmd.args[..i + 1] == cmd.args[..i] + [cmd.args[i]];
      AllNamesSnoc(cmd.args[..i], cmd.args[i]);
      var names := Names(cmd.args[i]);
      for j := 0 to |names|
        invariant forall k :: k in out.names <==> k in old(out.names) || k in AllNames(cmd.args[..i]) || k in names[..j]
      {
        var _ := out.Insert(names[j]);
      }
    }
    assert cmd.args[..|cmd.args|] == cmd.args;
    for i := 0 to |cmd.subs|
      invariant forall k :: k in out.names <==>
        k in old(out.names) || k in AllNames(cmd.args) || exists j :: 0 <= j < i && Uses(cmd.subs[j], k)
    {
      Walk(cmd.subs[i], out);
    }
  }

  method Taken(cmd: Command) returns (taken: set<string>)
    ensures forall k :: k in taken <==> Uses(cmd, k)
  {
    var out := new NameSet();
    Walk(cmd, out);
    taken := out.names;
  }

  // -------------------------------------------------------------------- no clashes

  /** Everything a global flag would answer to if nothing were taken. */
  function Wished(g: Global): seq<string> {
    [g.long] + (if g.alias.Some? then [g.alias.value] else []) + (if g.short.Some? then [ShortName(g.short.value)] else [])
  }

  function AllWished(table: seq<Global>): seq<string> {
    if table == [] then [] else AllWished(table[..|table| - 1]) + Wished(table[|table| - 1])
  }

  lemma NamedIsFree(g: Global, taken: set<string>)
    requires Distinct(Wished(g)) && Named(g, taken).Some?
    ensures var names := Names(Named(g, taken).value);
            Distinct(names) && forall k :: k in names ==> k in Wished(g) && k !in taken
  {
    var w := Wished(g);
    assert w[0] == g.long;
    assert g.alias.Some? ==> w[1] == g.alias.value;
    assert g.short.Some? ==> w[|w| - 1] == ShortName(g.short.value);
  }

  /** The globals that are added share no name with each other or with anything taken. */
  lemma {:induction false} KeptNamesAreFree(table: seq<Global>, taken: set<string>)
    requires Distinct(AllWished(table))
    ensures Distinct(AllNames(Kept(table, taken)))
    ensures forall k :: k in AllNames(Kept(table, taken)) ==> k in AllWished(table) && k !in taken
    decreases |table|
  {
    if table != [] {
      var n := |table| - 1;
      var g, rest := table[n], Kept(table[..n], taken);
      DistinctConcat(AllWished(table[..n]), Wished(g));
      KeptNamesAreFree(table[..n], taken);
      if Named(g, taken).Some? {
        var a := Named(g, taken).value;
        NamedIsFree(g, taken);
        AllNamesSnoc(rest, a);
        assert forall k :: k in Names(a) ==> k in Range(Wished(g));
        assert forall k :: k in AllNames(rest) ==> k in Range(AllWished(table[..n]));
        DistinctConcat(AllNames(rest), Names(a));
      }
    }
  }

  /** No global is added without a long or a short, which would make it a positional. */
  lemma {:induction false} NoneIsPositional(table: seq<Global>, taken: set<string>)
    ensures forall a :: a in Kept(table, taken) ==> a.long.Some? || a.short.Some?
    decreases |table|
  {
    if table != [] {
      NoneIsPositional(table[..|table| - 1], taken);
    }
  }

  /** A long name or a short one is lost only to a leaf that claims it, and a free alias only with its long name. */
  lemma {:induction false} LostOnlyWhenTaken(table: seq<Global>, taken: set<string>, g: Global)
    requires g in table
    ensures g.long !in taken ==> g.long in AllNames(Kept(table, taken))
    ensures g.short.Some? && ShortName(g.short.value) !in taken ==> ShortName(g.short.value) in AllNames(Kept(table, taken))
    ensures g.alias.Some? && g.alias.value !in taken && g.long !in taken ==> g.alias.value in AllNames(Kept(table, taken))
    decreases |table|
  {
    var n := |table| - 1;
    var rest := Kept(table[..n], taken);
    assert table == table[..n] + [table[n]];
    if g == table[n] {
      if Named(g, taken).Some? {
        AllNamesSnoc(rest, Named(g, taken).value);
      }
    } else {
      LostOnlyWhenTaken(table[..n], taken, g);
      if Named(table[n], taken).Some? {
        AllNamesSnoc(rest, Named(table[n], taken).value);
      }
    }
  }

  /** Where clap propagates `globals` to, every command answers to each name once. */
  lemma GlobalsNeverClash(cmd: Command, taken: set<string>, table: seq<Global>, n: Command)
    requires forall k :: k in taken <==> Uses(cmd, k)
    requires Distinct(AllWished(table))
    requires Node(cmd, n) && Distinct(AllNames(n.args))
    ensures Distinct(AllNames(n.args + Kept(table, taken)))
  {
    var globals := Kept(table, taken);
    KeptNamesAreFree(table, taken);
    AllNamesConcat(n.args, globals);
    forall k | k in AllNames(n.args) ensures k !in AllNames(globals) {
      NodeNamesAreUsed(cmd, n, k);
    }
    DistinctConcat(AllNames(n.args), AllNames(globals));
  }

  // ----------------------------------------------------------------- the real table

  lemma {:induction false} WishedOrigin(table: seq<Global>, k: string)
    ensures k in AllWished(table) ==> exists i :: 0 <= i < |table| && k in Wished(table[i])
    decreases |table|
  {
    if table != [] {
      WishedOrigin(table[..|table| - 1], k);
    }
  }

  ghost predicate Apart(table: seq<Global>) {
    && (forall i :: 0 <= i < |table| ==> Distinct(Wished(table[i])))
    && (forall i, j :: 0 <= i < j < |table| ==> Range(Wished(table[i])) !! Range(Wished(table[j])))
  }

  lemma {:induction false} ApartIsDistinct(table: seq<Global>)
    requires Apart(table)
    ensures Distinct(AllWished(table))
    decreases |table|
  {
    if table != [] {
      var n := |table| - 1;
      ApartIsDistinct(table[..n]);
      DistinctConcat(AllWished(table[..n]), Wished(table[n]));
      forall k | k in AllWished(table[..n]) ensures k !in Wished(table[n]) {
        WishedOrigin(table[..n], k);
        var i :| 0 <= i < n && k in Wished(table[..n][i]);
        assert k in Range(Wished(table[i]));
        assert Range(Wished(table[i])) !! Range(Wished(table[n]));
      }
    }
  }

  /** Lengths of the long names, and their first two letters: enough to tell them apart. */
  function Lengths(): seq<nat> {
    [4, 5, 4, 4, 2, 8, 5, 4, 3, 5, 8, 11, 24, 8, 5, 6, 5]
  }

  function Letters(): seq<(char, char)> {
    [('h', 'o'), ('l', 'o'), ('r', 'e'), ('j', 's'), ('j', 'q'), ('t', 'e'), ('c', 'o'), ('s', 'u'), ('o', 't'),
     ('d', 'e'), ('n', 'o'), ('m', 'a'), ('i', 'n'), ('p', 'a'), ('l', 'i'), ('o', 'u'), ('f', 'o')]
  }

  lemma LongLength(i: nat)
    requires i < |Table()|
    ensures |Table()[i].long| == Lengths()[i]
  {
  }

  lemma LongLetters(i: nat)
    requires i < |Table()|
    ensures (Table()[i].long[0], Table()[i].long[1]) == Letters()[i]
  {
    LongLength(i);
  }

  lemma MarksDiffer(i: nat, j: nat)
    requires i < j < 17
    ensures Lengths()[i] != Lengths()[j] || Letters()[i] != Letters()[j]
  {
  }

  lemma LongsDiffer(i: nat, j: nat)
    requires i < j < |Table()|
    ensures Table()[i].long != Table()[j].long
  {
    LongLength(i);
    LongLength(j);
    LongLetters(i);
    LongLetters(j);
    MarksDiffer(i, j);
  }

  lemma AliasDiffers(i: nat)
    requires i < |Table()|
    ensures Table()[i].long != "hostname"
    ensures Table()[i].alias in {None, Some("hostname")}
  {
    LongLength(i);
    LongLetters(i);
    assert Lengths()[i] == 8 ==> Letters()[i].0 != 'h';
  }

  lemma LongIsNoShort(i: nat)
    requires i < |Table()|
    ensures |Table()[i].long| >= 2 && Table()[i].long[0] != '-'
  {
    LongLength(i);
    LongLetters(i);
    assert Letters()[i].0 != '-';
  }

  lemma OthersDiffer(i: nat, j: nat)
    requires i < j < |Table()|
    ensures Table()[j].alias.None?
    ensures Table()[i].short.Some? ==> Table()[i].short != Table()[j].short
  {
  }

  lemma WishedApart(g: Global, h: Global)
    requires g.long != h.long && h.alias.None? && (g.alias.Some? ==> g.alias.value != h.long && |g.alias.value| > 2)
    requires |g.long| >= 2 && g.long[0] != '-' && |h.long| >= 2 && h.long[0] != '-'
    requires g.short.Some? ==> g.short != h.short
    ensures Range(Wished(g)) !! Range(Wished(h))
  {
  }

  lemma OwnNamesDiffer(i: nat)
    requires i < |Table()|
    ensures Distinct(Wished(Table()[i]))
  {
    AliasDiffers(i);
    LongIsNoShort(i);
    WishedDistinct(Table()[i]);
  }

  lemma WishedDistinct(g: Global)
    requires |g.long| >= 2 && g.long[0] != '-'
    requires g.alias.Some? ==> g.alias.value != g.long && |g.alias.value| > 2
    ensures Distinct(Wished(g))
  {
  }

  lemma TableApart(i: nat, j: nat)
    requires i < j < |Table()|
    ensures Range(Wished(Table()[i])) !! Range(Wished(Table()[j]))
  {
    LongsDiffer(i, j);
    OthersDiffer(i, j);
    AliasDiffers(i);
    AliasDiffers(j);
    LongIsNoShort(i);
    LongIsNoShort(j);
    WishedApart(Table()[i], Table()[j]);
  }

  lemma TableNamesAreDistinct()
    ensures Distinct(AllWished(Table()))
  {
    forall i | 0 <= i < |Table()| ensures Distinct(Wished(Table()[i])) {
      OwnNamesDiffer(i);
    }
    forall i, j | 0 <= i < j < |Table()| ensures Range(Wished(Table()[i])) !! Range(Wished(Table()[j])) {
      TableApart(i, j);
    }
    ApartIsDistinct(Table());
  }

  /** The id is made from the long name; three rows have a short name, and one a second long one. */
  predicate RowIsRight(g: Global) {
    && g.id == "g:" + g.long
    && g.short == (if g.long == "repo" then Some('R') else if g.long == "jq" then Some('q')
                   else if g.long == "template" then Some('t') else None)
    && g.alias == if g.long == "host" then Some("hostname") else None
  }

  lemma IdsOfFirstRows(i: nat)
    requires i < 9
    ensures Table()[i].id == "g:" + Table()[i].long
  {
    assert Table()[0].id == "g:" + "host";
    assert Table()[1].id == "g:" + "login";
    assert Table()[2].id == "g:" + "repo";
    assert Table()[3].id == "g:" + "json";
    assert Table()[4].id == "g:" + "jq";
    assert Table()[5].id == "g:" + "template";
    assert Table()[6].id == "g:" + "color";
    assert Table()[7].id == "g:" + "sudo";
    assert Table()[8].id == "g:" + "otp";
  }

  lemma IdsOfMiddleRows(i: nat)
    requires 9 <= i < 13
    ensures Table()[i].id == "g:" + Table()[i].long
  {
    if i == 12 {
      IdOfLongest();
    } else {
      assert Table()[9].id == "g:" + "debug";
      assert Table()[10].id == "g:" + "no-retry";
      assert Table()[11].id == "g:" + "max-retries";
    }
  }

  lemma IdOfLongest()
    ensures Table()[12].id == "g:" + Table()[12].long
  {
    assert Table()[12].id == "g:" + "insecure-skip-tls-verify";
  }

  lemma IdsOfLastRows(i: nat)
    requires 13 <= i < |Table()|
    ensures Table()[i].id == "g:" + Table()[i].long
  {
    assert Table()[13].id == "g:" + "paginate";
    assert Table()[14].id == "g:" + "limit";
    assert Table()[15].id == "g:" + "output";
    assert Table()[16].id == "g:" + "force";
  }

  lemma ShortOfRow(i: nat)
    requires i < |Table()|
    ensures Table()[i].short == if i == 2 then Some('R') else if i == 4 then Some('q') else if i == 5 then Some('t') else None
    ensures Table()[i].alias == if i == 0 then Some("hostname") else None
  {
  }

  lemma OtherLongs(i: nat, j: nat)
    requires i < |Table()| && j < |Table()| && i != j
    ensures Table()[i].long != Table()[j].long
  {
    if i < j {
      LongsDiffer(i, j);
    } else {
      LongsDiffer(j, i);
    }
  }

  lemma LongsWithShort()
    ensures Table()[0].long == "host" && Table()[2].long == "repo" && Table()[4].long == "jq" && Table()[5].long == "template"
  {
  }

  lemma IdOfRow(i: nat)
    requires i < |Table()|
    ensures Table()[i].id == "g:" + Table()[i].long
  {
    if i < 9 {
      IdsOfFirstRows(i);
    } else if i < 13 {
      IdsOfMiddleRows(i);
    } else {
      IdsOfLastRows(i);
    }
  }

  lemma RowMeaning(table: seq<Global>, i: nat)
    requires table == Table() && i < |table|
    ensures RowIsRight(table[i])
  {
    IdOfRow(i);
    ShortOfRow(i);
    LongsWithShort();
    forall j: nat | j < |table| && j != i ensures table[j].long != table[i].long {
      OtherLongs(i, j);
    }
  }

  lemma TableMeaning()
    ensures forall g :: g in Table() ==> RowIsRight(g)
  {
    var table := Table();
    forall g | g in table ensures RowIsRight(g) {
      var i :| 0 <= i < |table| && table[i] == g;
      RowMeaning(table, i);
    }
  }

  /** `root`: the program with the global flags, over the tree whose names they must avoid. */
  method Root(raw: Command) returns (root: Command)
    requires forall n :: Node(raw, n) ==> Distinct(AllNames(n.args))
    ensures exists taken :: root == Command("fjo", Kept(Table(), taken), [raw]) && forall k :: k in taken <==> Uses(raw, k)
    ensures Distinct(AllNames(root.args))
    ensures forall n :: Node(raw, n) ==> Distinct(AllNames(n.args + root.args))
    ensures forall a :: a in root.args ==> a.long.Some? || a.short.Some?
  {
    var taken := Taken(raw);
    var args := Args(taken);
    root := Command("fjo", args, [raw]);
    TableNamesAreDistinct();
    KeptNamesAreFree(Table(), taken);
    NoneIsPositional(Table(), taken);
    forall n | Node(raw, n) ensures Distinct(AllNames(n.args + root.args)) {
      GlobalsNeverClash(raw, taken, Table(), n);
    }
  }
}
