/**
 Words and options on a command line that has not been parsed yet: two scanners look for its
 command words, each with its own list of options whose value is a token of its own.
 */
module ArgvWords {
  import opened Wrappers
  import opened Text

  /** A token that can be a command word where flags are still recognised. */
  predicate LooksLikeWord(tok: string) {
    tok == "-" || !StartsWithDash(tok)
  }

  predicate TakesValue(values: set<string>, tok: string) {
    '=' !in tok && tok in values
  }

  /** Where a word was found, and whether flags are still recognised behind it. */
  datatype Word = Word(at: nat, endOfFlags: bool)

  /** The next word from token `i` on. */
  function WordFrom(values: set<string>, argv: seq<string>, i: nat, endOfFlags: bool): (r: Option<Word>)
    ensures r.Some? ==> i <= r.value.at < |argv|
    decreases |argv| - i
  {
    if i >= |argv| then None
    else if endOfFlags || LooksLikeWord(argv[i]) then Some(Word(i, endOfFlags))
    else if argv[i] == "--" then WordFrom(values, argv, i + 1, true)
    else if TakesValue(values, argv[i]) then WordFrom(values, argv, i + 2, false)
    else WordFrom(values, argv, i + 1, false)
  }

  /** A lone dash is a word. */
  lemma DashIsWord(values: set<string>, argv: seq<string>, i: nat)
    requires i < |argv| && argv[i] == "-"
    ensures WordFrom(values, argv, i, false) == Some(Word(i, false))
  {
  }

  /** An option written with `=` holds its value, so the next token is looked at. */
  lemma InlineValueIsOneToken(values: set<string>, argv: seq<string>, i: nat)
    requires i < |argv| && |argv[i]| > 1 && StartsWithDash(argv[i]) && '=' in argv[i]
    ensures WordFrom(values, argv, i, false) == WordFrom(values, argv, i + 1, false)
  {
    assert argv[i] != "--" by {
      assert '=' !in "--";
    }
  }

  // ---------------------------------------------------------------- what comes before

  /** One leading option: alone, or with the token that is its value. */
  datatype Leading = Switch(flag: string) | WithValue(flag: string, value: string)

  predicate ValidLeading(values: set<string>, o: Leading) {
    && !LooksLikeWord(o.flag) && o.flag != "--"
    && (o.WithValue? <==> TakesValue(values, o.flag))
  }

  function Tokens(os: seq<Leading>): seq<string> {
    if os == [] then []
    else (match os[0]
          case Switch(flag) => [flag]
          case WithValue(flag, value) => [flag, value]) + Tokens(os[1..])
  }

  /** `argv[i..at]` is a list of leading options, followed by `--` when `dashes` says so. */
  ghost predicate Precedes(values: set<string>, argv: seq<string>, i: nat, at: nat, os: seq<Leading>, dashes: bool) {
    && i <= at < |argv|
    && (forall k :: 0 <= k < |os| ==> ValidLeading(values, os[k]))
    && argv[i..at] == Tokens(os) + (if dashes then ["--"] else [])
    && (dashes || LooksLikeWord(argv[at]))
  }

  lemma {:induction false} WordSound(values: set<string>, argv: seq<string>, i: nat) returns (os: seq<Leading>)
    requires WordFrom(values, argv, i, false).Some?
    ensures var w := WordFrom(values, argv, i, false).value; Precedes(values, argv, i, w.at, os, w.endOfFlags)
    decreases |argv| - i
  {
    var at := WordFrom(values, argv, i, false).value.at;
    if LooksLikeWord(argv[i]) {
      os := [];
    } else if argv[i] == "--" {
      assert WordFrom(values, argv, i + 1, true) == Some(Word(i + 1, true));
      os := [];
    } else {
      var n := if TakesValue(values, argv[i]) then 2 else 1;
      os := WordSound(values, argv, i + n);
      var o := if n == 2 then WithValue(argv[i], argv[i + 1]) else Switch(argv[i]);
      var w := WordFrom(values, argv, i, false).value;
      OneOptionMore(values, argv, i, n, w.at, os, w.endOfFlags, o);
      os := [o] + os;
    }
  }

  lemma OneOptionMore(values: set<string>, argv: seq<string>, i: nat, n: nat, at: nat, os: seq<Leading>, dashes: bool, o: Leading)
    requires Precedes(values, argv, i + n, at, os, dashes) && ValidLeading(values, o)
    requires argv[i..i + n] == Tokens([o])
    ensures Precedes(values, argv, i, at, [o] + os, dashes)
  {
    assert argv[i..at] == argv[i..i + n] + argv[i + n..at];
    assert ([o] + os)[1..] == os && [o][1..] == [];
  }

  lemma {:induction false} WordComplete(values: set<string>, argv: seq<string>, i: nat, at: nat, os: seq<Leading>, dashes: bool)
    requires Precedes(values, argv, i, at, os, dashes)
    ensures WordFrom(values, argv, i, false) == Some(Word(at, dashes))
    decreases |os|
  {
    var s := argv[i..at];
    if os == [] {
      if dashes {
        assert s[0] == "--" == argv[i];
        assert at == i + 1;
      }
    } else {
      var n := if os[0].WithValue? then 2 else 1;
      assert ValidLeading(values, os[0]) && s[0] == os[0].flag == argv[i];
      assert s[n..] == Tokens(os[1..]) + (if dashes then ["--"] else []);
      assert s[n..] == argv[i + n..at];
      WordComplete(values, argv, i + n, at, os[1..], dashes);
    }
  }

  /** What it means to read `w` from token `i` on: straight away behind a `--`, else after leading options. */
  ghost predicate Reads(values: set<string>, argv: seq<string>, i: nat, endOfFlags: bool, w: Word) {
    if endOfFlags then i < |argv| && w == Word(i, true)
    else exists os :: Precedes(values, argv, i, w.at, os, w.endOfFlags)
  }

  /** A word is the first token after leading options and an optional `--`. */
  lemma WordMeaning(values: set<string>, argv: seq<string>, i: nat, endOfFlags: bool, w: Word)
    ensures WordFrom(values, argv, i, endOfFlags) == Some(w) <==> Reads(values, argv, i, endOfFlags, w)
  {
    if !endOfFlags {
      if WordFrom(values, argv, i, false) == Some(w) {
        var os := WordSound(values, argv, i);
      }
      if os :| Precedes(values, argv, i, w.at, os, w.endOfFlags) {
        WordComplete(values, argv, i, w.at, os, w.endOfFlags);
      }
    }
  }

  // ------------------------------------------------------------- two lists of options

  /** The index of the next word. */
  function WordAt(values: set<string>, argv: seq<string>, i: nat, endOfFlags: bool): (r: Option<nat>)
    ensures r.Some? ==> i <= r.value < |argv|
  {
    var w := WordFrom(values, argv, i, endOfFlags);
    if w.Some? then Some(w.value.at) else None
  }

  /** Where a scanner goes on behind the option at `i`. */
  function Behind(values: set<string>, argv: seq<string>, i: nat): nat
    requires i < |argv|
  {
    if TakesValue(values, argv[i]) then i + 2 else i + 1
  }

  function Left(argv: seq<string>, i: nat): nat {
    if i < |argv| then |argv| - i else 0
  }

  /**
   Two scanners, one at token `i` and one at `j`, stay or fall back in step: the one behind meets
   nothing but options until it has caught up, and if that is a `--`, the other reads the very next token.
   */
  predicate InStep(v: set<string>, w: set<string>, argv: seq<string>, i: nat, j: nat)
    decreases Left(argv, i) + Left(argv, j)
  {
    if i >= |argv| && j >= |argv| then true
    else if i == j then
      LooksLikeWord(argv[i]) || argv[i] == "--" || InStep(v, w, argv, Behind(v, argv, i), Behind(w, argv, i))
    else if i < j then
      if LooksLikeWord(argv[i]) then false
      else if argv[i] == "--" then NextIsRead(argv, i, j)
      else InStep(v, w, argv, Behind(v, argv, i), j)
    else
      if LooksLikeWord(argv[j]) then false
      else if argv[j] == "--" then NextIsRead(argv, j, i)
      else InStep(v, w, argv, i, Behind(w, argv, j))
  }

  /** Behind the `--` at `i` there is nothing, or the word that the scanner at `j` is about to read. */
  predicate NextIsRead(argv: seq<string>, i: nat, j: nat) {
    i + 1 >= |argv| || (j == i + 1 && LooksLikeWord(argv[j]))
  }

  /** One step of a scanner. */
  lemma OneStep(values: set<string>, argv: seq<string>, i: nat)
    requires i < |argv|
    ensures WordAt(values, argv, i, false) ==
            if LooksLikeWord(argv[i]) then Some(i)
            else if argv[i] == "--" then WordAt(values, argv, i + 1, true)
            else WordAt(values, argv, Behind(values, argv, i), false)
  {
  }

  lemma DashesAhead(w: set<string>, argv: seq<string>, i: nat, j: nat)
    requires i < |argv| && i < j
    ensures (WordAt(w, argv, i + 1, true) == WordAt(w, argv, j, false)) <==> NextIsRead(argv, i, j)
  {
  }

  /** Two scanners find the same word exactly when they are in step. */
  lemma {:induction false} SameWordExactly(v: set<string>, w: set<string>, argv: seq<string>, i: nat, j: nat)
    ensures WordAt(v, argv, i, false) == WordAt(w, argv, j, false) <==> InStep(v, w, argv, i, j)
    decreases Left(argv, i) + Left(argv, j)
  {
    if i < |argv| {
      OneStep(v, argv, i);
    }
    if j < |argv| {
      OneStep(w, argv, j);
    }
    if i >= |argv| && j >= |argv| {
    } else if i == j {
      if !LooksLikeWord(argv[i]) && argv[i] != "--" {
        SameWordExactly(v, w, argv, Behind(v, argv, i), Behind(w, argv, i));
      }
    } else if i < j {
      if !LooksLikeWord(argv[i]) && argv[i] == "--" {
        DashesAhead(w, argv, i, j);
      } else if !LooksLikeWord(argv[i]) {
        SameWordExactly(v, w, argv, Behind(v, argv, i), j);
      }
    } else if !LooksLikeWord(argv[j]) {
      if argv[j] == "--" {
        DashesAhead(v, argv, j, i);
      } else {
        SameWordExactly(v, w, argv, i, Behind(w, argv, j));
      }
    }
  }

  /** The first leading option that takes a value for one of the two only. */
  function Fork(v: set<string>, w: set<string>, argv: seq<string>, i: nat): (k: Option<nat>)
    ensures k.Some? ==> i <= k.value < |argv| && TakesValue(v, argv[k.value]) != TakesValue(w, argv[k.value])
    decreases Left(argv, i)
  {
    if i >= |argv| || LooksLikeWord(argv[i]) || argv[i] == "--" then None
    else if TakesValue(v, argv[i]) != TakesValue(w, argv[i]) then Some(i)
    else Fork(v, w, argv, Behind(v, argv, i))
  }

  /**
   Without such an option they find the same word; and with one that is followed by what looks like
   a word, they do not.
   */
  lemma {:induction false} ForkDecides(v: set<string>, w: set<string>, argv: seq<string>, i: nat)
    ensures Fork(v, w, argv, i).None? ==> WordAt(v, argv, i, false) == WordAt(w, argv, i, false)
    ensures var k := Fork(v, w, argv, i);
            k.Some? && k.value + 1 < |argv| && LooksLikeWord(argv[k.value + 1]) ==>
              WordAt(v, argv, i, false) != WordAt(w, argv, i, false)
    decreases Left(argv, i)
  {
    if i < |argv| {
      OneStep(v, argv, i);
      OneStep(w, argv, i);
      if !LooksLikeWord(argv[i]) && argv[i] != "--" && TakesValue(v, argv[i]) == TakesValue(w, argv[i]) {
        ForkDecides(v, w, argv, Behind(v, argv, i));
      } else if i + 1 < |argv| && LooksLikeWord(argv[i + 1]) {
        OneStep(v, argv, i + 1);
        OneStep(w, argv, i + 1);
      }
    }
  }
}
