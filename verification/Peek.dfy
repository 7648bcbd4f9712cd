/** Which part of the generated command tree an unparsed command line needs. */
module Peek {
  import opened Wrappers
  import opened Text
  import opened ArgvWords
  import AliasArgv

  const VALUE_FLAGS: set<string> := {
    "--host", "--hostname", "--login", "--repo", "-R", "--token", "--otp", "--sudo", "--config", "--jq", "-q",
    "--template", "-t", "--output"
  }

  datatype Peeked = Peeked(group: Option<string>, leaf: Option<string>)

  /** The tokens after the program name, read one word at a time. */
  class Scanner {
    const argv: seq<string>
    var pos: nat
    var endOfFlags: bool

    constructor (argv: seq<string>)
      ensures this.argv == argv && pos == 1 && !endOfFlags
    {
      this.argv, pos, endOfFlags := argv, 1, false;
    }

    method NextWord(values: set<string>) returns (r: Option<string>)
      modifies this
      ensures match WordFrom(values, argv, old(pos), old(endOfFlags))
              case None => r == None && pos >= |argv|
              case Some(w) => r == Some(argv[w.at]) && pos == w.at + 1 && endOfFlags == w.endOfFlags
    {
      while pos < |argv|
        invariant WordFrom(values, argv, pos, endOfFlags) == WordFrom(values, argv, old(pos), old(endOfFlags))
        decreases |argv| - pos
      {
        var tok := argv[pos];
        pos := pos + 1;
        if endOfFlags || LooksLikeWord(tok) {
          return Some(tok);
        }
        if tok == "--" {
          endOfFlags := true;
        } else if TakesValue(values, tok) {
          pos := pos + 1;
        }
      }
      return None;
    }
  }

  predicate IsRaw(tok: string) {
    tok == "raw" || tok == "x"
  }

  /** The word that follows `w`, or the first one. */
  function Following(values: set<string>, argv: seq<string>, w: Word): Option<Word> {
    WordFrom(values, argv, w.at + 1, w.endOfFlags)
  }

  function PeekWith(values: set<string>, argv: seq<string>): Option<Peeked> {
    match WordFrom(values, argv, 1, false)
    case None => None
    case Some(first) =>
      if !IsRaw(argv[first.at]) then None
      else match Following(values, argv, first)
        case None => Some(Peeked(None, None))
        case Some(g) =>
          var leaf := Following(values, argv, g);
          Some(Peeked(Some(argv[g.at]), if leaf.Some? then Some(argv[leaf.value.at]) else None))
  }

  method Peek(argv: seq<string>) returns (r: Option<Peeked>)
    ensures r == PeekWith(VALUE_FLAGS, argv)
  {
    var it := new Scanner(argv);
    var first := it.NextWord(VALUE_FLAGS);
    if first.None? || !IsRaw(first.value) {
      return None;
    }
    var group := it.NextWord(VALUE_FLAGS);
    var leaf := None;
    if group.Some? {
      leaf := it.NextWord(VALUE_FLAGS);
    }
    return Some(Peeked(group, leaf));
  }

  /** Token `a` is `raw` or its alias, `g` the group behind it and `l` the leaf behind that. */
  ghost predicate NamesLeaf(values: set<string>, argv: seq<string>, a: Word, g: Word, l: Word) {
    && Reads(values, argv, 1, false, a) && a.at < |argv| && IsRaw(argv[a.at])
    && Reads(values, argv, a.at + 1, a.endOfFlags, g)
    && Reads(values, argv, g.at + 1, g.endOfFlags, l)
    && g.at < |argv| && l.at < |argv|
  }

  predicate FindsLeaf(values: set<string>, argv: seq<string>, a: Word, g: Word, l: Word) {
    && WordFrom(values, argv, 1, false) == Some(a) && IsRaw(argv[a.at])
    && Following(values, argv, a) == Some(g)
    && Following(values, argv, g) == Some(l)
  }

  lemma NamesLeafMeans(values: set<string>, argv: seq<string>, a: Word, g: Word, l: Word)
    ensures NamesLeaf(values, argv, a, g, l) <==> FindsLeaf(values, argv, a, g, l)
  {
    WordMeaning(values, argv, 1, false, a);
    WordMeaning(values, argv, a.at + 1, a.endOfFlags, g);
    WordMeaning(values, argv, g.at + 1, g.endOfFlags, l);
  }

  /** Word `x` can be read behind `w`. */
  ghost predicate Follows(values: set<string>, argv: seq<string>, w: Word, x: Word) {
    Reads(values, argv, w.at + 1, w.endOfFlags, x)
  }

  ghost predicate NothingFollows(values: set<string>, argv: seq<string>, w: Word) {
    forall x :: !Follows(values, argv, w, x)
  }

  /** Token `a` is `raw` or its alias. */
  ghost predicate NamesRaw(values: set<string>, argv: seq<string>, a: Word) {
    Reads(values, argv, 1, false, a) && a.at < |argv| && IsRaw(argv[a.at])
  }

  /** Token `a` is `raw` or its alias and `g` the group behind it. */
  ghost predicate NamesGroup(values: set<string>, argv: seq<string>, a: Word, g: Word) {
    NamesRaw(values, argv, a) && Follows(values, argv, a, g) && g.at < |argv|
  }

  lemma ReadsIsWordFrom(values: set<string>, argv: seq<string>, i: nat, endOfFlags: bool)
    ensures forall w :: Reads(values, argv, i, endOfFlags, w) <==> WordFrom(values, argv, i, endOfFlags) == Some(w)
  {
    forall w ensures Reads(values, argv, i, endOfFlags, w) <==> WordFrom(values, argv, i, endOfFlags) == Some(w) {
      WordMeaning(values, argv, i, endOfFlags, w);
    }
  }

  lemma NothingFollowsMeans(values: set<string>, argv: seq<string>, w: Word)
    ensures NothingFollows(values, argv, w) <==> Following(values, argv, w).None?
  {
    ReadsIsWordFrom(values, argv, w.at + 1, w.endOfFlags);
    var next := Following(values, argv, w);
    assert next.Some? ==> Follows(values, argv, w, next.value);
  }

  /** A group and a leaf are peeked exactly when the line reads: options, `raw`, options, group, options, leaf. */
  lemma PeekMeaning(values: set<string>, argv: seq<string>, group: string, leaf: string)
    ensures PeekWith(values, argv) == Some(Peeked(Some(group), Some(leaf))) <==>
            exists a, g, l :: NamesLeaf(values, argv, a, g, l) && argv[g.at] == group && argv[l.at] == leaf
  {
    forall a, g, l ensures NamesLeaf(values, argv, a, g, l) <==> FindsLeaf(values, argv, a, g, l) {
      NamesLeafMeans(values, argv, a, g, l);
    }
    if PeekWith(values, argv) == Some(Peeked(Some(group), Some(leaf))) {
      var a := WordFrom(values, argv, 1, false).value;
      var g := Following(values, argv, a).value;
      var l := Following(values, argv, g).value;
      assert FindsLeaf(values, argv, a, g, l);
      assert NamesLeaf(values, argv, a, g, l);
    }
  }

  /** A group alone is peeked exactly when the line goes on to it and to no word behind it. */
  lemma PeekGroupMeaning(values: set<string>, argv: seq<string>, group: string)
    ensures PeekWith(values, argv) == Some(Peeked(Some(group), None)) <==>
            exists a, g :: NamesGroup(values, argv, a, g) && argv[g.at] == group && NothingFollows(values, argv, g)
  {
    ReadsIsWordFrom(values, argv, 1, false);
    if PeekWith(values, argv) == Some(Peeked(Some(group), None)) {
      var a := WordFrom(values, argv, 1, false).value;
      var g := Following(values, argv, a).value;
      ReadsIsWordFrom(values, argv, a.at + 1, a.endOfFlags);
      NothingFollowsMeans(values, argv, g);
      assert NamesGroup(values, argv, a, g);
    }
    if a, g :| NamesGroup(values, argv, a, g) && argv[g.at] == group && NothingFollows(values, argv, g) {
      ReadsIsWordFrom(values, argv, a.at + 1, a.endOfFlags);
      NothingFollowsMeans(values, argv, g);
    }
  }

  /** Neither is peeked exactly when the line stops at `raw`, and nothing at all when it does not get there. */
  lemma PeekRawMeaning(values: set<string>, argv: seq<string>)
    ensures PeekWith(values, argv) == Some(Peeked(None, None)) <==>
            exists a :: NamesRaw(values, argv, a) && NothingFollows(values, argv, a)
    ensures PeekWith(values, argv) == None <==> forall a :: !NamesRaw(values, argv, a)
  {
    ReadsIsWordFrom(values, argv, 1, false);
    var first := WordFrom(values, argv, 1, false);
    if first.Some? {
      NothingFollowsMeans(values, argv, first.value);
      assert NamesRaw(values, argv, first.value) <==> IsRaw(argv[first.value.at]);
    }
  }

  /** `x` is short for `raw`, and nothing else is. */
  lemma OnlyXMeansRaw(values: set<string>, prog: string, word: string, rest: seq<string>)
    requires LooksLikeWord(word)
    ensures word == "x" ==> PeekWith(values, [prog, word] + rest) == PeekWith(values, [prog, "raw"] + rest)
    ensures PeekWith(values, [prog, word] + rest).None? <==> word != "x" && word != "raw"
  {
    var argv, other := [prog, word] + rest, [prog, "raw"] + rest;
    assert WordFrom(values, argv, 1, false) == Some(Word(1, false)) == WordFrom(values, other, 1, false);
    if word == "x" {
      SameFrom(values, argv, other, 2, false);
      var g := WordFrom(values, argv, 2, false);
      if g.Some? {
        SameFrom(values, argv, other, g.value.at + 1, g.value.endOfFlags);
      }
    }
  }

  lemma {:induction false} SameFrom(values: set<string>, a: seq<string>, b: seq<string>, i: nat, endOfFlags: bool)
    requires |a| == |b| && forall k :: i <= k < |a| ==> a[k] == b[k]
    ensures WordFrom(values, a, i, endOfFlags) == WordFrom(values, b, i, endOfFlags)
    decreases |a| - i
  {
    if i < |a| && !endOfFlags && !LooksLikeWord(a[i]) {
      SameFrom(values, a, b, i + 1, a[i] == "--");
      SameFrom(values, a, b, i + 2, false);
    }
  }

  /** An option whose value is not known to be one hides the command behind that value. */
  lemma UnlistedOptionHidesCommand(values: set<string>, argv: seq<string>)
    requires |argv| > 3 && StartsWithDash(argv[1]) && argv[1] != "-" && argv[1] != "--" && argv[1] !in values
    requires LooksLikeWord(argv[2]) && !IsRaw(argv[2])
    ensures PeekWith(values, argv) == None
  {
    assert WordFrom(values, argv, 2, false) == Some(Word(2, false));
  }

  lemma ListedOptionIsSkipped(values: set<string>, argv: seq<string>)
    requires |argv| > 3 && StartsWithDash(argv[1]) && argv[1] != "-" && argv[1] != "--"
    requires argv[1] in values && '=' !in argv[1] && LooksLikeWord(argv[3])
    ensures WordFrom(values, argv, 1, false) == Some(Word(3, false))
  {
  }

  /**
   `--color`, `--limit` and `--max-retries` take a value, and alias expansion knows it. `peek` does
   not, so `fjo --color never raw …` is not seen to be a raw command.
   */
  lemma ThreeOptionsAreMissed(prog: string, option: string, value: string, rest: seq<string>)
    requires option in {"--color", "--limit", "--max-retries"} && LooksLikeWord(value) && !IsRaw(value)
    ensures PeekWith(VALUE_FLAGS, [prog, option, value, "raw"] + rest) == None
    ensures AliasArgv.CommandWordFrom([prog, option, value, "raw"] + rest, 1, false) == Some(3)
  {
    var argv := [prog, option, value, "raw"] + rest;
    UnlistedOptionHidesCommand(VALUE_FLAGS, argv);
    assert '=' !in option;
    ListedOptionIsSkipped(AliasArgv.VALUE_FLAGS, argv);
  }

  /**
   `--token` and `--config` the other way round: `peek` knows that they take a value, and alias
   expansion takes that value for the command word.
   */
  lemma TwoOptionsAreMissedByAliases(prog: string, option: string, value: string, rest: seq<string>)
    requires option in {"--token", "--config"} && LooksLikeWord(value)
    ensures PeekWith(VALUE_FLAGS, [prog, option, value, "raw"] + rest).Some?
    ensures AliasArgv.CommandWordFrom([prog, option, value, "raw"] + rest, 1, false) == Some(2)
  {
    var argv := [prog, option, value, "raw"] + rest;
    assert '=' !in option && option != "-" && option != "--";
    ListedOptionIsSkipped(VALUE_FLAGS, argv);
    assert argv[3] == "raw";
    assert option !in AliasArgv.VALUE_FLAGS;
    assert WordFrom(AliasArgv.VALUE_FLAGS, argv, 2, false) == Some(Word(2, false));
  }

  /** The options that only one of the two lists. */
  const FORKING: set<string> := {"--color", "--limit", "--max-retries", "--token", "--config"}

  lemma ForkingOptions(tok: string)
    ensures TakesValue(VALUE_FLAGS, tok) != TakesValue(AliasArgv.VALUE_FLAGS, tok) ==> tok in FORKING
    ensures tok in FORKING ==> TakesValue(VALUE_FLAGS, tok) != TakesValue(AliasArgv.VALUE_FLAGS, tok)
  {
    if tok in FORKING {
      assert '=' !in tok;
    }
  }

  /** Both scanners see the same command word exactly when they stay, or fall back, in step. */
  lemma BothSeeTheCommandExactly(argv: seq<string>)
    ensures WordAt(VALUE_FLAGS, argv, 1, false) == AliasArgv.CommandWordFrom(argv, 1, false) <==>
            InStep(VALUE_FLAGS, AliasArgv.VALUE_FLAGS, argv, 1, 1)
  {
    SameWordExactly(VALUE_FLAGS, AliasArgv.VALUE_FLAGS, argv, 1, 1);
  }

  /**
   On lines where a word follows the first leading option that only one of the two lists, if there is
   such an option, both see the same command word exactly when there is none. It is one of five.
   */
  lemma BothSeeTheCommand(argv: seq<string>)
    requires var k := Fork(VALUE_FLAGS, AliasArgv.VALUE_FLAGS, argv, 1);
             k.Some? ==> k.value + 1 < |argv| && LooksLikeWord(argv[k.value + 1])
    ensures var k := Fork(VALUE_FLAGS, AliasArgv.VALUE_FLAGS, argv, 1);
            && (WordAt(VALUE_FLAGS, argv, 1, false) == AliasArgv.CommandWordFrom(argv, 1, false) <==> k.None?)
            && (k.Some? ==> argv[k.value] in FORKING)
  {
    ForkDecides(VALUE_FLAGS, AliasArgv.VALUE_FLAGS, argv, 1);
    ForkIsKnown(argv);
  }

  lemma ForkIsKnown(argv: seq<string>)
    ensures var k := Fork(VALUE_FLAGS, AliasArgv.VALUE_FLAGS, argv, 1); k.Some? ==> argv[k.value] in FORKING
  {
    var k := Fork(VALUE_FLAGS, AliasArgv.VALUE_FLAGS, argv, 1);
    if k.Some? {
      ForkingOptions(argv[k.value]);
    }
  }

  /** Without that word they can fall back in step: `fjo --color --debug raw` is read alike by both. */
  lemma BackInStep(prog: string, option: string, switch: string, rest: seq<string>)
    requires option in FORKING && !LooksLikeWord(switch) && switch != "--"
    requires switch !in VALUE_FLAGS && switch !in AliasArgv.VALUE_FLAGS
    ensures var argv := [prog, option, switch, "raw"] + rest;
            && Fork(VALUE_FLAGS, AliasArgv.VALUE_FLAGS, argv, 1) == Some(1)
            && WordAt(VALUE_FLAGS, argv, 1, false) == AliasArgv.CommandWordFrom(argv, 1, false) == Some(3)
  {
    var argv := [prog, option, switch, "raw"] + rest;
    ForkingOptions(option);
    assert option != "-" && option != "--" && StartsWithDash(option);
    SkipsTo(VALUE_FLAGS, argv);
    SkipsTo(AliasArgv.VALUE_FLAGS, argv);
  }

  lemma SkipsTo(values: set<string>, argv: seq<string>)
    requires |argv| > 3 && !LooksLikeWord(argv[1]) && argv[1] != "--" && !LooksLikeWord(argv[2]) && argv[2] != "--"
    requires argv[2] !in values && LooksLikeWord(argv[3])
    ensures WordAt(values, argv, 1, false) == Some(3)
  {
    assert WordAt(values, argv, 3, false) == Some(3);
    assert WordAt(values, argv, 2, false) == Some(3);
  }
}
