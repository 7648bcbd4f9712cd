# A Dafny model of fjo

`fjo` is a command line for Forgejo. It rewrites command lines and JSON documents before anything is
sent: aliases become commands, flags and bracketed fields become request bodies, a table of
operations becomes a tree of commands with flags, and an upstream API description becomes a
canonical file that is compared with its next version. This project models those engines and proves
the laws their comments and tests state. `dafny verify dfyconfig.toml` checks all of it.

## Components

- **Aliases** (`AliasSplit`, `AliasSubstitute`, `AliasExpand`, `AliasGraph`, `AliasDepth`,
  `AliasTable`, `AliasLimits`, `AliasReach`, `AliasLoops`, `AliasLadder`, `AliasArgv`, `ArgvWords`).
  The quoting splitter is proved against a grammar of pieces that is read and written without loss;
  substitution and the bounded expansion loop against an explanation by a chain of calls; and the
  configuration's set, import and delete against an invariant of the first-word graph that every run
  keeps and that says exactly which tables `set` can build.
- **Command lines** (`Peek`, `Lookup`, `Flags`, `Globals`, `RawTree`, `PathTemplate`). How the words of an
  unparsed line are found, how table lookups and pruned command trees agree, how flag names are
  allocated without collisions through a shared set, how the global flags avoid them in a whole
  tree, and how a path template is filled in.
- **JSON bodies** (`Json`, `Pointer`, `Fields`). One write operation with its lens laws; the pointer
  editor, which walks a document with a cursor, and the bracket editor, which folds fields, are both
  proved to be that operation.
- **Specification files** (`Canonical`, `Placeholders`, `SpecDiff`, `SpecLines`, `SpecOperations`,
  `SpecReport`, `LockText`, `NameLock`). The canonical form, the guard in front of it, the comparison of two
  versions, and the compatibility lock: its text, and whole histories of runs.
- **Search** (`Search`). Matching, scoring, ranking and truncation.
- `Text`, `Sequences` and `Wrappers` hold what these share.

Code that changes state is modelled as methods: the alias configuration, the edited document, the
name lock, the set of claimed flag names and the token scanner are classes, and loops are loops with
invariants. Each method is tied to a specification function or relation about which the laws are
then proved. Errors are small datatypes.

## Where code and documentation disagree

The model follows the code. These are proved:

- `find_cycle` accepts ten hops and `expand_words` only fewer than ten. So some call of an alias is
  too deep exactly when its walk has ten hops or more (`AliasDepth.TooDeepExactly`). And the check
  walks from the name being set alone, so a chain of any length can be stored
  (`AliasLadder.AnyChainIsStored`, `AliasReach.ReachableExactly`); from ten aliases on it can never
  be expanded (`AliasLadder.LongChainsAreTooDeep`). Only an alias set in front of a chain is held
  against its length: the eleventh is refused there (`AliasLadder.RungAccepted`).
- Aliases are said to contain no expansion cycles. The check reads first words before `$1`..`$9`
  are filled in, so a first word with a placeholder can loop (`AliasLoops.PlaceholderNameLoops`,
  `AliasLoops.OwnWayBackLoops`); `AliasLoops.NeverLoopsExactly` says which tables never do.
- Expanding an expanded command line is said to change nothing. That holds exactly when a `--` came
  before the command word, the word left in its place still reads as one, or the word read instead is
  no alias (`AliasArgv.ExpandIsStable` for any table; `AliasArgv.IdempotentExactly` from the walk,
  where first words are names); a placeholder in a first word can break it
  (`AliasArgv.FlagThroughPlaceholder`).
- The list of options with values in `alias.rs` is said to mirror the one in `build.rs`. It has
  three more and two fewer (`Peek.ThreeOptionsAreMissed`, `Peek.TwoOptionsAreMissedByAliases`). Both
  scanners see the same command word exactly when they stay or fall back in step
  (`Peek.BothSeeTheCommandExactly`); on lines where a word follows the first of these options, exactly
  when there is none (`Peek.BothSeeTheCommand`, `Peek.BackInStep`).
- The template guard is said to require the two known placeholders. It accepts one of them twice
  (`Placeholders.RepeatedPlaceholderPasses`, `Placeholders.DocumentedGuard`).
- A table collision is said never to crash the parser. That holds of the names the code hands out
  (`Flags.LeafNamesAreDistinct`, `RawTree.LayerTwoRoot`). The help option that clap adds is not among
  them: with it names stay different exactly when nothing in the tables is called `help` or `-h`
  (`Flags.HelpClashesExactly`, `Flags.HelpParameterClashes`). And argument ids are distinct exactly
  when no location lists a flag twice (`Flags.LeafIdsAreDistinct`, `Flags.RepeatedQueryFlag`).
- A search match at the start of a word is said to beat one in the middle. Only the first occurrence
  is looked at (`Search.OnlyTheFirstOccurrenceCounts`).
- A changed operation is reported under its display name. The report accounts for every one of them
  exactly when no two share a new name (`SpecOperations.NothingLostExactly`,
  `SpecReport.AccountsForAllExactly`), which two documents can break
  (`SpecReport.ReportLosesAnAccount`) and paths without " (" cannot
  (`SpecOperations.PlainNamesDoNotCollide`).
- A failed pointer write is said to name the prefix of the wrong shape. It does exactly when the next
  token holds no slash (`Pointer.PlaceIsPrefixExactly`, `Pointer.SlashInTokenMisleads`).
- The lock is said to round-trip. Names are written with Rust's debug quoting and read as TOML, which
  lacks the escapes for characters that do not print; a lock with such a name does not read any more
  (`LockText.ReadRender`, `NameLock.SecondRunIsSilentExactly`, `NameLock.OneNameSpoilsTheLock`).
- A field that is refused for going on after `[]` leaves the objects in front of it behind
  (`Fields.InsertRefuses`); a failed pointer write leaves nothing (`Pointer.Document.SetPointer`).

## Model

| member | source | states |
|---|---|---|
| `AliasSplit.Split` | crates/fjo/src/cmd/alias.rs:629-680 | the splitter with its word, quote and flag state yields exactly the words of the declarative reading of its input |
| `AliasSplit.SplitMeaning` | crates/fjo/src/cmd/alias.rs:619-680 | an input splits into given words exactly when it is written with unquoted characters, escapes, single and double quotes whose text is those words |
| `AliasSplit.LexRender` | crates/fjo/src/cmd/alias.rs:636-672 | whatever is written with such pieces is read back as those pieces |
| `AliasSplit.RenderLex` | crates/fjo/src/cmd/alias.rs:636-672 | every reading renders back to the input, character for character: nothing is dropped |
| `AliasSplit.SplitFails` | crates/fjo/src/cmd/alias.rs:654-675 | splitting fails exactly when the input ends inside quotes, or on an unquoted backslash |
| `AliasSplit.SplitInvertsQuoting` | crates/fjo/src/cmd/alias.rs:619-680 | double-quoting any words, empty ones included, and joining them with spaces splits back to exactly those words |
| `AliasSplit.SplitPlain` | crates/fjo/src/cmd/alias.rs:619-680 | without quotes and backslashes splitting is splitting at white space |
| `AliasSubstitute.SubstituteWord` | crates/fjo/src/cmd/alias.rs:584-609 | one word is rendered in a single pass, marking the arguments it uses, or the number of the first argument that is missing is returned |
| `AliasSubstitute.Substitute` | crates/fjo/src/cmd/alias.rs:581-617 | one word comes out per word, each rendered on its own, and the leftovers are the unmarked arguments |
| `AliasSubstitute.RefExactly` | crates/fjo/src/cmd/alias.rs:587-596 | placeholders are `$1` to `$9`, for the first to the ninth argument |
| `AliasSubstitute.SubstituteFails` | crates/fjo/src/cmd/alias.rs:597-602 | it fails exactly when some placeholder names an argument beyond those given |
| `AliasSubstitute.LeftoverMeaning` | crates/fjo/src/cmd/alias.rs:610-615 | the leftovers are, in order, exactly the arguments no placeholder names; the tenth and later always are |
| `AliasSubstitute.RenderedParts` | crates/fjo/src/cmd/alias.rs:585-607 | the two parts of a word render independently unless the cut goes through a placeholder |
| `AliasSubstitute.ArgumentVerbatim` | crates/fjo/src/cmd/alias.rs:594-605 | an argument is copied as it is: a placeholder inside its text is not substituted again |
| `AliasSubstitute.NoRefsVerbatim` | crates/fjo/src/cmd/alias.rs:587-591 | a word without placeholders stands for itself |
| `AliasExpand.ExpandWords` | crates/fjo/src/cmd/alias.rs:531-574 | the bounded loop over `seen`, `head` and `args` computes the expansion |
| `AliasExpand.PlainAliasAppends` | crates/fjo/src/cmd/alias.rs:553-568 | an alias without placeholders stands for its words with all arguments behind them |
| `AliasExpand.ExpansionMeaning` | crates/fjo/src/cmd/alias.rs:531-574 | a result is the expansion exactly when a chain of calls explains it: a command reached over distinct aliases, a name met again, an alias that cannot be applied, or ten aliases in a row |
| `AliasExpand.ExpansionReachesCommand` | crates/fjo/src/cmd/alias.rs:552-557 | a successful expansion starts with a word that is no alias |
| `AliasExpand.LoopRepeats` | crates/fjo/src/cmd/alias.rs:542-551 | a loop is reported only with a chain whose last name occurred before in it |
| `AliasExpand.TooDeepNeedsManyAliases` | crates/fjo/src/cmd/alias.rs:541-573 | the depth error needs at least ten aliases: the names in `seen` are distinct |
| `AliasExpand.MergeBuiltins` | crates/fjo/src/cmd/alias.rs:503-508 | the built-ins are filled in underneath the user's own aliases |
| `AliasGraph.FindCycle` | crates/fjo/src/cmd/alias.rs:231-244 | the walk of `find_cycle`, with the chain it reports |
| `AliasGraph.FindCycleMeaning` | crates/fjo/src/cmd/alias.rs:231-244 | nothing is found exactly when the first-word walk from the name ends within ten hops |
| `AliasGraph.CycleFromMeaning` | crates/fjo/src/cmd/alias.rs:231-244 | what is reported is a walk that comes back to a name on it, or one of eleven hops |
| `AliasGraph.CheckedUpdateIsAcyclic` | crates/fjo/src/cmd/alias.rs:215-226 | redefining a name from which `find_cycle` finds nothing keeps an acyclic table acyclic |
| `AliasGraph.UpdateKeepsAcyclic` | crates/fjo/src/cmd/alias.rs:215-226 | the same for any walk that ends, however long |
| `AliasGraph.RemovalKeepsAcyclic` | crates/fjo/src/cmd/alias.rs:295 | taking a name away makes no cycle |
| `AliasGraph.AcyclicNeverLoops` | crates/fjo/src/cmd/alias.rs:541-551 | on an acyclic table whose first words hold no `$1`..`$9` no expansion reports a loop |
| `AliasGraph.CycleFromWalk` | crates/fjo/src/cmd/alias.rs:231-244 | for a walk that ends, `find_cycle` finds nothing exactly when it has at most ten hops |
| `AliasDepth.HopCounts` | crates/fjo/src/cmd/alias.rs:581-617 | whether a hop lacks an argument, and how many it hands on, depend only on the words and on how many there were |
| `AliasDepth.CallOutcome` | crates/fjo/src/cmd/alias.rs:541-573 | along a walk that ends, the walk and the number of arguments decide: an argument runs short, ten aliases in a row are too deep, or the end of the walk is reached |
| `AliasDepth.NineForEveryHop` | crates/fjo/src/cmd/alias.rs:581-617 | nine arguments for every hop never run short |
| `AliasDepth.TooDeepExactly` | crates/fjo/src/cmd/alias.rs:541 | some call of an alias is too deep exactly when its walk has ten hops or more; the set-time loop at line 234 lets ten pass |
| `AliasTable.CheckExpansion` | crates/fjo/src/cmd/alias.rs:193-228 | the checks in their order, with the first problem found |
| `AliasTable.NameMeaning` | crates/fjo/src/cmd/alias.rs:175-189 | a name can be used exactly when it is one word, does not look like a flag, and is no command |
| `AliasTable.ExpansionProblemMeaning` | crates/fjo/src/cmd/alias.rs:193-228 | which error is reported for an expansion, and that none is, each with its exact condition |
| `AliasTable.Config.SetAlias` | crates/forgejo-core/src/config/mod.rs:481-498 | a name blank or starting with a dash is refused, else the entry is written |
| `AliasTable.CheckedNameIsStored` | crates/fjo/src/cmd/alias.rs:175-189 | a name that passes `check_name` is never refused by the configuration |
| `AliasTable.Config.Set` | crates/fjo/src/cmd/alias.rs:148-157 | the table changes in the one entry exactly when no check objects |
| `AliasTable.Config.Delete` | crates/fjo/src/cmd/alias.rs:287-295 | the trimmed name is gone, or reported missing, and nothing else changes |
| `AliasTable.Config.Import` | crates/fjo/src/cmd/alias.rs:318-337 | every entry is checked against the table so far; the ones skipped are listed in order of names and the others stored |
| `AliasTable.ImportMeaning` | crates/fjo/src/cmd/alias.rs:318-337 | every entry of a file is stored exactly when `--clobber` was given or its name was free, and it passes the checks against the table so far; otherwise its name keeps what it had and is reported |
| `AliasTable.ImportFrame` | crates/fjo/src/cmd/alias.rs:318-337 | names the file does not list are left alone and not reported |
| `AliasTable.StoreKeepsSafe` | crates/fjo/src/cmd/alias.rs:153-157 | storing what passed the checks keeps the merged graph acyclic and names apart from commands |
| `AliasTable.DeleteKeepsSafe` | crates/fjo/src/cmd/alias.rs:287-299 | so does a delete, also when it uncovers a built-in |
| `AliasTable.UncoveredBuiltinIsSafe` | crates/fjo/src/cmd/alias.rs:57-63 | a built-in that comes back points at a command and closes no cycle |
| `AliasTable.RunKeepsSafe` | crates/fjo/src/cmd/alias.rs:148-347 | every run of set, import and delete keeps the merged first-word graph acyclic |
| `AliasTable.RunKeepsPlain` | crates/fjo/src/cmd/alias.rs:148-347 | and keeps first words free of placeholders when the names stored are |
| `AliasTable.RunNeverLoops` | crates/fjo/src/cmd/alias.rs:541-551 | so after any such run no call of any alias reports a loop |
| `AliasTable.EmptyIsSafe` | crates/fjo/src/cmd/alias.rs:57-63 | an empty configuration with the built-ins is a start for such runs |
| `AliasLimits.StoreKeepsClosed` | crates/fjo/src/cmd/alias.rs:204-213 | set and import store no alias whose first word is neither a command nor an alias |
| `AliasLimits.DeleteKeepsClosedExactly` | crates/fjo/src/cmd/alias.rs:287-299 | a delete leaves an alias dangling exactly when the name was the user's, is no built-in, and another alias points at it |
| `AliasLimits.ClosedLeadsToCommand` | crates/fjo/src/cmd/alias.rs:204-213 | on an acyclic closed table the walk from an alias ends at a command, over at most as many hops as there are aliases |
| `AliasLimits.CheckedAliasRuns` | crates/fjo/src/cmd/alias.rs:531-574 | on such a table the outcome is one of three, each with its exact condition on the walk and the number of arguments: an argument is missing, too deep, or the command at the end |
| `AliasLimits.ChangeKeepsClosedExactly` | crates/fjo/src/cmd/alias.rs:148-347 | a set or import keeps the table closed; a delete does exactly when it takes nothing away from under another alias |
| `AliasLimits.RunKeepsClosed` | crates/fjo/src/cmd/alias.rs:148-347 | so does every run without harmful deletes |
| `AliasLimits.EmptyIsClosed` | crates/fjo/src/cmd/alias.rs:57-63 | the built-ins alone are closed |
| `AliasLimits.RunAliasesRun` | crates/fjo/src/cmd/alias.rs:531-574 | after any such run from nothing every call of every alias comes to one of the three outcomes |
| `AliasLoops.LoneHeadLoops` | crates/fjo/src/cmd/alias.rs:541-551 | an alias that starts with a placeholder loops when given its own name nine times |
| `AliasLoops.FilledAcyclicNeverLoops` | crates/fjo/src/cmd/alias.rs:541-551 | no call loops when filling first words in can never lead back to the start, whatever placeholders they hold |
| `AliasLoops.OwnWayBackLoops` | crates/fjo/src/cmd/alias.rs:541-551 | a way back of at most nine hops can be called so that it is reported as a loop, however many of its first words are filled in, if these name arguments of the call and not words aliases on it have put in front |
| `AliasLoops.NeverLoopsExactly` | crates/fjo/src/cmd/alias.rs:80-83 | for every table, no call loops exactly when there is no way back of at most nine hops each of which can be made with some arguments that begin with what the aliases before it put in front |
| `AliasLoops.SingleWordsNeverLoop` | crates/fjo/src/cmd/alias.rs:80-83 | where aliases are single words that is: exactly when no first words, each filled in on its own, lead back in at most nine hops |
| `AliasLoops.PlainIsFilledAcyclic` | crates/fjo/src/cmd/alias.rs:231-244 | on tables whose first words are names, filling in leads nowhere back exactly when the graph that `find_cycle` walks is acyclic |
| `AliasLoops.PlainOrLoneNeverLoops` | crates/fjo/src/cmd/alias.rs:80-83 | on an acyclic table whose first words are names or lone placeholders, no call loops exactly when all are names |
| `AliasLoops.PlaceholderNameLoops` | crates/fjo/src/cmd/alias.rs:175-189 | `set` accepts the name `$1` and then an alias that starts with it, which loops |
| `AliasReach.RunKeepsSound` | crates/fjo/src/cmd/alias.rs:148-228 | whatever a run of `set` has built from nothing is acyclic, points at commands and known aliases only, and holds trimmed entries without flags in front, under names that pass `check_name` |
| `AliasReach.SoundIsBuilt` | crates/fjo/src/cmd/alias.rs:148-228 | every such table is what some run of `set` builds, none of its steps refused: first every name for a command, then each for what it is to be, what it points at coming later |
| `AliasReach.ReachableExactly` | crates/fjo/src/cmd/alias.rs:148-228 | so the tables that runs of `set` reach from nothing are exactly these |
| `AliasLadder.AnyChainIsStored` | crates/fjo/src/cmd/alias.rs:215-226 | a chain of aliases of any length can be stored, every `set` on the way accepted: the check walks from the name being set only |
| `AliasLadder.LongChainsAreTooDeep` | crates/fjo/src/cmd/alias.rs:541-573 | from ten aliases on no call of the first of a chain can be expanded |
| `AliasLadder.RungAccepted` | crates/fjo/src/cmd/alias.rs:215-226 | one more alias in front of a chain, whose walk then runs along all of it, is accepted exactly when the chain has at most ten aliases then, and otherwise reported as a loop |
| `AliasLadder.LadderIsBuilt` | crates/fjo/src/cmd/alias.rs:148-157 | any chain of at most ten aliases is what setting them one after the other builds |
| `AliasLadder.TenAliasesAcceptedButTooDeep` | crates/fjo/src/cmd/alias.rs:231-244 | so any ten aliases, each for the next and the last for a command, can be set from the last to the first, and no call of the first can be expanded |
| `ArgvWords.WordMeaning` | crates/fjo/src/cmd/alias.rs:510-528 | the next word is the first token after leading options, with their values, and an optional `--` |
| `ArgvWords.DashIsWord` | crates/fjo/src/cmd/alias.rs:510-528 | a lone dash is a word |
| `ArgvWords.InlineValueIsOneToken` | crates/fjo/src/cmd/alias.rs:510-528 | an option written with `=` does not take the next token |
| `ArgvWords.SameWordExactly` | crates/fjo/src/cmd/alias.rs:434-440 | two scanners with their own lists of options find the same word exactly when they stay in step, or the one behind meets only options until it has caught up |
| `ArgvWords.ForkDecides` | crates/fjo/src/cmd/alias.rs:434-440 | they do without a leading option that takes a value for one of them only, and with one that is followed by what looks like a word they do not |
| `AliasArgv.CommandWordIndex` | crates/fjo/src/cmd/alias.rs:511-528 | the loop finds that word's index |
| `AliasArgv.Expand` | crates/fjo/src/cmd/alias.rs:467-497 | everything in front of the command word is kept and the rest is the expansion, if the word is an alias |
| `AliasArgv.UnchangedExactly` | crates/fjo/src/cmd/alias.rs:467-475 | expanding changes nothing exactly when the command word is no alias |
| `AliasArgv.ExpandIsStable` | crates/fjo/src/cmd/alias.rs:467-528 | what comes before the command word is kept; the word there is no alias; and a second pass changes nothing exactly when that word still reads as one or the word read instead is no alias |
| `AliasArgv.EndOfWalkIsLeft` | crates/fjo/src/cmd/alias.rs:467-497 | on tables whose first words are names, the word left in the place of an alias is the one its walk ends at |
| `AliasArgv.IdempotentExactly` | crates/fjo/src/cmd/alias.rs:458-466 | there a second pass changes nothing exactly when flags were over, the walk ends at what reads as a word, or the word read instead is no alias |
| `AliasArgv.ExpandIsIdempotent` | crates/fjo/src/cmd/alias.rs:458-466 | which always holds on tables whose first words are names and not flags |
| `AliasArgv.DeleteKeepsNoFlagHeads` | crates/fjo/src/cmd/alias.rs:287-299 | a delete uncovers no alias that starts with a flag |
| `AliasArgv.RunKeepsNoFlagHeads` | crates/fjo/src/cmd/alias.rs:148-347 | neither does any run of set, import and delete leave one |
| `AliasArgv.RunExpandIsIdempotent` | crates/fjo/src/cmd/alias.rs:458-466 | after any such run from a plain table that stores plain names, expanding an expanded command line changes nothing |
| `AliasArgv.EmptyHasNoFlagHeads` | crates/fjo/src/cmd/alias.rs:57-63 | the built-ins start with no flag |
| `AliasArgv.FlagThroughPlaceholder` | crates/fjo/src/cmd/alias.rs:458-466 | with a placeholder in a first word it can fail: `$1` lets a flag become the command word |
| `AliasArgv.StoreKeepsNoFlagHeads` | crates/fjo/src/cmd/alias.rs:198-203 | set and import store no alias that starts with a flag |
| `Peek.Scanner.NextWord` | crates/fjo-raw/src/build.rs:107-126 | advances to the next word, remembering a `--` that was passed |
| `Peek.Peek` | crates/fjo-raw/src/build.rs:133-144 | reads up to three words, the first of which must be `raw` or `x` |
| `Peek.PeekMeaning` | crates/fjo-raw/src/build.rs:128-144 | a group and a leaf are found exactly when the line reads options, `raw`, options, group, options, leaf |
| `Peek.PeekGroupMeaning` | crates/fjo-raw/src/build.rs:140-143 | a group alone is found exactly when the line goes on to it and to no word behind it |
| `Peek.PeekRawMeaning` | crates/fjo-raw/src/build.rs:133-140 | neither is found exactly when the line stops at `raw`, and nothing exactly when it does not get there |
| `Peek.OnlyXMeansRaw` | crates/fjo-raw/src/build.rs:133-138 | `x` is read like `raw`, and no other word is |
| `Peek.UnlistedOptionHidesCommand` | crates/fjo-raw/src/build.rs:83-89 | a value of an option the list lacks is taken for the command, which is then not seen to be `raw` |
| `Peek.ThreeOptionsAreMissed` | crates/fjo/src/cmd/alias.rs:434-440 | `--color`, `--limit` and `--max-retries` are such options although alias expansion lists them: the two lists are not mirrors |
| `Peek.TwoOptionsAreMissedByAliases` | crates/fjo/src/cmd/alias.rs:434-440 | `--token` and `--config` the other way round: alias expansion takes their value for the command word |
| `Peek.BothSeeTheCommandExactly` | crates/fjo/src/cmd/alias.rs:434-440 | both scanners see the same command word exactly when they stay or fall back in step |
| `Peek.BothSeeTheCommand` | crates/fjo/src/cmd/alias.rs:434-440 | where a word follows the first leading option listed for one of them only, if there is one, both see the same command word exactly when there is none; it is one of these five |
| `Peek.BackInStep` | crates/fjo/src/cmd/alias.rs:434-440 | without that word they can: `--color` and then a switch is skipped by both |
| `Json.PutGet` | crates/fjo-raw/src/bodyfile.rs:77-96 | after a successful write the location and everything below it read as the new value |
| `Json.PutFrame` | crates/fjo-raw/src/bodyfile.rs:77-96 | every location that is neither a prefix nor an extension reads as before |
| `Json.PutPrefix` | crates/fjo-raw/src/bodyfile.rs:86-91 | every proper prefix is an object that kept all its other keys |
| `Json.PutFails` | crates/fjo-raw/src/bodyfile.rs:98-111 | a write fails exactly when the root or something on the way exists and is not an object |
| `Json.PutPut` | crates/fjo-raw/src/bodyfile.rs:94 | a second write to a location makes the first one void |
| `Json.GetPut` | crates/fjo-raw/src/bodyfile.rs:77-96 | writing what is already there changes nothing |
| `Json.PutsCommute` | crates/fjo-raw/src/bodyfile.rs:66-68 | writes to incomparable locations commute, in success and in result |
| `Pointer.UnescapeIsDecode` | crates/fjo-raw/src/bodyfile.rs:113-117 | the two replacement passes equal one left-to-right decoding on every string |
| `Pointer.WrongOrderDiffers` | crates/fjo-raw/src/bodyfile.rs:113-114 | the other order reads `~01` as a slash |
| `Pointer.ParsePrint` | crates/fjo-raw/src/bodyfile.rs:78-82 | printing any non-empty token list as a pointer (RFC 6901, sections 3 and 4) and parsing it returns the tokens |
| `Pointer.PrintParse` | crates/fjo-raw/src/bodyfile.rs:78-82 | a pointer written to the grammar is the only one that names its location |
| `Pointer.Document.SetPointer` | crates/fjo-raw/src/bodyfile.rs:77-111 | the walking cursor writes the location in place; on failure the document is unchanged and the place named is the text in front of the last slash of the tokens walked |
| `Pointer.PlaceIsPrefixExactly` | crates/fjo-raw/src/bodyfile.rs:85-107 | that is the place in the way exactly when the token behind it holds no slash |
| `Pointer.SlashInTokenMisleads` | crates/fjo-raw/src/bodyfile.rs:85-107 | with `/x` in the way, setting `/x/a~1b` blames `/x/a` |
| `Pointer.Merge` | crates/fjo-raw/src/bodyfile.rs:53-70 | overrides are applied in order, the first that fails ends it and says why, a base that is no object takes none, and an empty list lets any base through |
| `Pointer.MergeOrderFree` | crates/fjo-raw/src/bodyfile.rs:66-68 | rearranging pairwise incomparable overrides changes neither success nor the body |
| `Pointer.MergeFrame` | crates/fjo-raw/src/bodyfile.rs:47-53 | off all override pointers the body reads like the base |
| `Pointer.LastOverrideWins` | crates/fjo-raw/src/bodyfile.rs:47-53 | an override shows in the body unless a later one lies on its way |
| `Pointer.RepeatedOverride` | crates/fjo-raw/src/bodyfile.rs:66-68 | an earlier override of the same pointer leaves no trace |
| `Pointer.BuildBody` | crates/fjo-raw/src/bind.rs:226-251 | every flag that was given is written in turn over the file or an empty object, and the first failure is the result; with neither file nor flag there is a body only when one is required |
| `Pointer.BodyHoldsEveryFlag` | crates/fjo-raw/src/bind.rs:226-251 | every flag that was given is in the body at its pointer, unless a later one lies on its way |
| `Pointer.BodyFrame` | crates/fjo-raw/src/bind.rs:226-251 | off the pointers of the flags that were given the body reads like the file |
| `Pointer.FileAloneIsSent` | crates/fjo-raw/src/bind.rs:238-250 | a body file without body flags is sent as it is, object or not |
| `Fields.SplitKey` | crates/fjo/src/api/fields.rs:162-185 | the loop over brackets yields the name and segments, or the first of three errors |
| `Fields.SplitKeyMeaning` | crates/fjo/src/api/fields.rs:161-185 | a key splits into a name and segments exactly when it is how these are written: name without `[`, non-empty keys without `]` |
| `Fields.InsertAssigns` | crates/fjo/src/api/fields.rs:193-196 | a key without `[]` is a pointer write of its path, and a conflict leaves the body unchanged |
| `Fields.InsertAppends` | crates/fjo/src/api/fields.rs:197-212 | a key that ends in its only `[]` appends at its path, an array value element by element |
| `Fields.InsertExtends` | crates/fjo/src/api/fields.rs:197-209 | after a successful append the location holds what was there and behind it the elements of an array value, or else the one value |
| `Fields.InsertRefuses` | crates/fjo/src/api/fields.rs:213-226 | a key that goes on after `[]` is refused, but the objects before its last key have been created |
| `Fields.ToBody` | crates/fjo/src/api/fields.rs:115-122 | fields are folded one after another into an object, stopping at the first error |
| `Fields.FirstFieldError` | crates/fjo/src/api/fields.rs:115-122 | the first field that fails is what is reported |
| `Fields.ToBodyMeaning` | crates/fjo/src/api/fields.rs:115-122 | the fold succeeds and yields exactly what assigning and appending at the named paths does |
| `Fields.DoAllFrame` | crates/fjo/src/api/fields.rs:187-228 | a location off all paths is untouched |
| `Fields.PushesInOrder` | crates/fjo/src/api/fields.rs:197-209 | repeated pushes to a path yield what was there and then, in command-line order, every value, an array giving its elements, however mixed with others |
| `Fields.LastAssignWins` | crates/fjo/src/api/fields.rs:190-196 | the last plain write to a path decides what it holds |
| `Fields.ActionsCommute` | crates/fjo/src/api/fields.rs:187-228 | fields for locations apart from each other commute, in success and in body |
| `Fields.InterleavingFree` | crates/fjo/src/api/fields.rs:115-122 | only the order within one top-level name matters |
| `Canonical.SortKeysKeepsMeaning` | crates/xtask/src/update_spec.rs:285-300 | sorting yields a document that is sorted at every depth, has no key twice, and says the same |
| `Canonical.SortedIsUnique` | crates/xtask/src/update_spec.rs:246-251 | a meaning has only one sorted document |
| `Canonical.SortKeysIsCanonical` | crates/xtask/src/update_spec.rs:246-251 | two documents sort to the same one exactly when they are equal up to the order of object keys at every depth |
| `Canonical.SortKeysIsIdempotent` | crates/xtask/src/update_spec.rs:285-300 | sorting a second time changes nothing |
| `Canonical.SortKeysKeepsLookups` | crates/xtask/src/update_spec.rs:285-300 | every path of keys and indices finds the sorted form of what it found |
| `Canonical.Canonicalize` | crates/xtask/src/update_spec.rs:267-274 | version and base path are pinned, or the missing object is named, and the result is the sorted document of that meaning |
| `Canonical.PinnedIsTwoPuts` | crates/xtask/src/update_spec.rs:267-272 | pinning is two writes at `/info/version` and `/basePath` |
| `Canonical.CanonicalDocIsUnique` | crates/xtask/src/update_spec.rs:252-278 | documents equal up to key order have the same canonical form |
| `Placeholders.FindPlaceholders` | crates/xtask/src/update_spec.rs:187-205 | the loop over the rest of the text collects what the left-to-right reading does |
| `Placeholders.PlaceholderEnds` | crates/xtask/src/update_spec.rs:187-205 | a placeholder runs from the first `{{` to the first `}}` behind it, and the search goes on behind that |
| `Placeholders.UnterminatedRunsOn` | crates/xtask/src/update_spec.rs:187-205 | without a `}}` it runs to the end of the text |
| `Placeholders.CountPlaceholders` | crates/xtask/src/update_spec.rs:210-213 | each placeholder is counted as often as it occurs |
| `Placeholders.CheckPlaceholders` | crates/xtask/src/update_spec.rs:208-244 | accepted, or the unknown placeholders, or the wrong number of known ones |
| `Placeholders.GuardMeaning` | crates/xtask/src/update_spec.rs:208-244 | the guard accepts exactly the texts made of clean text around two occurrences of known placeholders |
| `Placeholders.RepeatedPlaceholderPasses` | crates/xtask/src/update_spec.rs:17-19 | the same placeholder twice is accepted, against the documentation |
| `Placeholders.DocumentedGuard` | crates/xtask/src/update_spec.rs:17-19 | an accepted template has each placeholder once exactly when the two found differ |
| `Placeholders.SubstitutionIsComplete` | crates/xtask/src/update_spec.rs:253-257 | both are replaced, all other text is kept, and no placeholder is found afterwards |
| `Placeholders.GuardedTemplateIsFilled` | crates/xtask/src/update_spec.rs:253-257 | no `{{` is left, and none has come into being, in any accepted template and for any version without `{` |
| `NameLock.Store.Reconcile` | crates/xtask/src/name_lock.rs:55-164 | refused or done as the comparison and the flags demand, and written only when the text changes |
| `NameLock.Classify` | crates/xtask/src/name_lock.rs:83-91 | the loop finds the operations renamed and added |
| `NameLock.RefusedExactly` | crates/xtask/src/name_lock.rs:78-130 | a run is refused exactly when the file does not parse or a locked name would change or go without its flag, and names exactly those; new operations are no reason |
| `NameLock.CollectedMeaning` | crates/xtask/src/name_lock.rs:57-71 | what is compared and locked holds for every id what it was last listed with, and no other id |
| `NameLock.SuccessSynchronizes` | crates/xtask/src/name_lock.rs:152-154 | the text a successful run leaves reads back as every operation it was given and no other if TOML can write all their names, and otherwise not at all |
| `NameLock.SecondRunIsSilentExactly` | crates/xtask/src/name_lock.rs:152-163 | running again on the same input, in any mode, writes nothing, and succeeds exactly when all names can be written |
| `NameLock.NullCannotBeWritten` | crates/xtask/src/name_lock.rs:184-189 | a null character in a name is such a case: debug quoting writes an escape TOML lacks |
| `NameLock.OneNameSpoilsTheLock` | crates/xtask/src/name_lock.rs:152-163 | so the operation `listA` with the command `list-\0` is locked by a first run that succeeds, and every later run refuses the file as malformed |
| `NameLock.LossNeedsConsent` | crates/xtask/src/name_lock.rs:94-130 | a run changes or drops a locked name only with the flag for it |
| `NameLock.NamesAreKept` | crates/xtask/src/name_lock.rs:55-164 | over any runs a locked name stays unless one of them was told to accept its loss, or the file no longer reads |
| `NameLock.StaysReadable` | crates/xtask/src/name_lock.rs:55-164 | which it does while all names can be written |
| `NameLock.LockOnlyGrows` | crates/xtask/src/name_lock.rs:55-164 | without accept flags the lock only grows, and every triple in it is for good |
| `NameLock.LockIsLastSuccess` | crates/xtask/src/name_lock.rs:55-164 | the lock is the rendering of exactly the operations given to the last successful run |
| `NameLock.LockedForGood` | crates/xtask/src/name_lock.rs:55-164 | without accept flags every operation given to a successful run is locked under its name for good |
| `NameLock.TomlIsFaithful` | crates/xtask/src/name_lock.rs:79-81 | the format of the lock is faithful as soon as the parser does on rendered text what TOML says |
| `LockText.RenderText` | crates/xtask/src/name_lock.rs:171-192 | the buffer ends up with the notice, the version line and a line for every operation, in order |
| `LockText.HeaderMeaning` | crates/xtask/src/name_lock.rs:171-181 | on top are the notice, the version with the number of operations, and an empty line |
| `LockText.PlainLine` | crates/xtask/src/name_lock.rs:182-190 | the line of an operation whose names need no escapes, character by character |
| `LockText.BareExactly` | crates/xtask/src/name_lock.rs:194-202 | a key is bare when it is made of ASCII letters, digits, `_` and `-` |
| `LockText.QuotedIsUnquoted` | crates/xtask/src/name_lock.rs:183-189 | debug quoting writes every character so that it can be told from all others, those that need no escape as they are |
| `LockText.ReadQuoted` | crates/xtask/src/name_lock.rs:183-189 | a debug-quoted string reads back as itself in TOML exactly when each of its characters has an escape there or is printable |
| `LockText.LineIsRead` | crates/xtask/src/name_lock.rs:183-201 | a line reads back as its operation and entry, keys bare or quoted, or not at all |
| `LockText.OneLineEach` | crates/xtask/src/name_lock.rs:166-170 | splitting the text at line breaks gives back the header and one line for every operation, whatever the names are made of |
| `LockText.RenameIsOneLine` | crates/xtask/src/name_lock.rs:166-170 | a rename changes its own line and no other |
| `LockText.ReadRender` | crates/xtask/src/name_lock.rs:171-202 | the whole text reads back as exactly its names when all can be written, and otherwise not at all |
| `LockText.RenderIsInjective` | crates/xtask/src/name_lock.rs:171-202 | so different names that can be written never render alike |
| `NameLock.MalformedIsKept` | crates/xtask/src/name_lock.rs:80-81 | a file that does not parse is never overwritten |
| `Flags.NumbersRunOut` | crates/fjo-raw/src/build.rs:338-345 | numbered names that are taken are different members of a finite set, so the fallback loop ends |
| `Flags.UniqueLong` | crates/fjo-raw/src/build.rs:327-346 | the name returned is the first untried choice nobody has, and is claimed |
| `Flags.LeafCommand` | crates/fjo-raw/src/build.rs:271-318 | the arguments of a command, with names handed out in the order path, query, form, body after the reserved ones |
| `Flags.WantsMeaning` | crates/fjo-raw/src/build.rs:283-309 | a name is asked for by every parameter, as what it is, by every body field, and by nothing else |
| `Flags.ParamsInMeaning` | crates/fjo-raw/src/build.rs:283-303 | the parameters of one location come in the order in which the operation lists them |
| `Flags.PositionalsMeaning` | crates/fjo-raw/src/build.rs:283-287 | by position a command takes exactly its path parameters, in the order in which the operation lists them |
| `Flags.EveryWantHasItsFlag` | crates/fjo-raw/src/build.rs:283-309 | each of them has a flag of its own, with its own id and under the name handed out for it |
| `Flags.IdsByLocation` | crates/fjo-raw/src/build.rs:46-70 | ids are the flag behind the name of its location |
| `Flags.ReservedExactly` | crates/fjo-raw/src/build.rs:274-281 | reserved are `body-file` and `dry-run`, and `paginate` and `limit` on paged operations only |
| `Flags.PerPageExactlyWhenPaged` | crates/fjo-raw/src/build.rs:323-331 | the first `limit` an operation lists becomes `per-page` on a paged operation and keeps its name on any other |
| `Flags.AllocationIsUnique` | crates/fjo-raw/src/build.rs:327-346 | the allocator leaves nothing open: the wishes determine the names |
| `Flags.AllocatedNamesAreDistinct` | crates/fjo-raw/src/build.rs:320-322 | no two names handed out are alike and none is reserved |
| `Flags.KeptVerbatim` | crates/fjo-raw/src/build.rs:327-337 | a flag keeps its own name exactly when that is neither reserved nor handed out before |
| `Flags.TakenNameIsPrefixed` | crates/fjo-raw/src/build.rs:327-337 | a flag whose name is taken becomes `param-`, `query-`, `form-` or `body-` and that name, by where it travels, exactly when that is free |
| `Flags.DistinctWishesAreGranted` | crates/fjo-raw/src/build.rs:327-337 | wishes that neither repeat nor hit a reserved name are all granted |
| `Flags.LimitBecomesPerPage` | crates/fjo-raw/src/build.rs:323-331 | where `limit` is reserved, it becomes `per-page` exactly when that is still free |
| `Flags.LeafNamesAreDistinct` | crates/fjo-raw/src/build.rs:271-318 | whatever the tables hold, no two of the flags a command defines are spelled alike |
| `Flags.LeafIdsAreDistinct` | crates/fjo-raw/src/build.rs:46-70 | its argument ids are all different exactly when no location lists a flag twice |
| `Flags.RepeatedQueryFlag` | crates/fjo-raw/src/build.rs:320-322 | an operation that lists a query parameter twice gets two different flags with one id |
| `Flags.HelpNames` | crates/fjo-raw/src/build.rs:271-281 | `help` and `-h`, which are not reserved, are handed out exactly when the tables hold them |
| `Flags.HelpClashesExactly` | crates/fjo-raw/src/build.rs:271-281 | with the help option clap adds, no name of a command repeats exactly when nothing in its tables is called `help` or `-h` |
| `Flags.HelpParameterClashes` | crates/fjo-raw/src/build.rs:320-322 | an operation with a query parameter `help` makes a command that answers to `help` twice |
| `Globals.Walk` | crates/fjo/src/global.rs:176-191 | collects every long, alias and short used anywhere in a command tree |
| `Globals.Taken` | crates/fjo/src/global.rs:170-174 | the names collected are exactly those in use |
| `Globals.UsesExactly` | crates/fjo/src/global.rs:169-195 | a name is in use exactly when some command in the tree answers to it |
| `Globals.Args` | crates/fjo/src/global.rs:203-388 | the seventeen globals, each with the names that are free |
| `Globals.KeptNamesAreFree` | crates/fjo/src/global.rs:390-413 | the globals added share no name with each other or with anything taken |
| `Globals.NoneIsPositional` | crates/fjo/src/global.rs:392-404 | none is added without a long or short |
| `Globals.LostOnlyWhenTaken` | crates/fjo/src/global.rs:20-24 | a long or short name is lost only to a leaf that claims it, and a free alias only with its long name |
| `Globals.TableNamesAreDistinct` | crates/fjo/src/global.rs:203-388 | the seventeen globals wish for twenty-one different names |
| `Globals.TableMeaning` | crates/fjo/src/global.rs:203-388 | the id of every global is made from its long name; `repo`, `jq` and `template` alone have a short one, R, q and t, and `host` alone a second long one, `hostname` |
| `Globals.GlobalsNeverClash` | crates/fjo/src/global.rs:193-199 | wherever the globals propagate to, every command answers to each name once |
| `Globals.Root` | crates/fjo/src/raw.rs:43-57 | the layer-2 root: its own flags and those of every command below it never clash |
| `RawTree.RawCommand` | crates/fjo-raw/src/build.rs:163-208 | the tree of `raw`: all groups and `search`, or one group with its leaves, or one group with one full leaf |
| `RawTree.RawTreeIsSound` | crates/fjo-raw/src/build.rs:163-208 | no command in any of these trees answers to a name twice |
| `RawTree.RawTreeParses` | crates/fjo-raw/src/build.rs:185-206 | a tree parses exactly the pairs that the lookup after parsing is relied on to find |
| `RawTree.RawTreeNames` | crates/fjo-raw/src/build.rs:179-206 | directly below `raw` is the named group if there is one, and otherwise every group and `search` |
| `RawTree.LayerTwoRoot` | crates/fjo/src/raw.rs:36-57 | with the globals added over any of them, every command still answers to each name once, and every global has a name |
| `Lookup.BinarySearchMeaning` | crates/forgejo-client/src/meta_types.rs:259-262 | on a strictly ascending table a search finds a key exactly where it stands |
| `Lookup.AscendingExactly` | crates/fjo-raw/src/lib.rs:378-383 | comparing neighbours is comparing all |
| `Lookup.FindOpMeaning` | crates/forgejo-client/src/meta_types.rs:260-262 | an operation is found exactly when the table holds it, at its index |
| `Lookup.FindGroupMeaning` | crates/forgejo-client/src/meta_types.rs:270-272 | a group is found exactly when the table holds it |
| `Lookup.RunsPartition` | crates/fjo-raw/src/lib.rs:378-383 | the runs of the groups partition the operations: each lies in exactly one, of the group it names |
| `Lookup.RunIsWholeGroup` | crates/forgejo-client/src/meta_types.rs:274-278 | a group's slice is all of its operations and only those |
| `Lookup.ParsedIsFound` | crates/fjo/src/main.rs:265-273 | every pair a built tree parses is found, so the error branch is unreachable |
| `Lookup.TreeIsComplete` | crates/fjo-raw/src/build.rs:185-206 | a tree pruned to a leaf or to a group accepts that leaf exactly when the full table holds it |
| `Lookup.OfferedExactly` | crates/fjo-raw/src/build.rs:185-206 | a tree offers exactly the operations of the group that was named, and of these the named one alone if the table holds it |
| `Search.IsSubsequenceMeaning` | crates/fjo-raw/src/search.rs:118-123 | the greedy scan succeeds exactly when the needle embeds in the text in increasing positions |
| `Search.ScoreMeaning` | crates/fjo-raw/src/search.rs:101-116 | positive exactly for an embedding, at least four weights exactly for a substring, six exactly for a prefix |
| `Search.WordStartScores` | crates/fjo-raw/src/search.rs:109-112 | five weights exactly when the first occurrence is not at the start of the text but behind a space |
| `Search.OnlyTheFirstOccurrenceCounts` | crates/fjo-raw/src/search.rs:101-112 | a later occurrence at the start of a word earns nothing extra |
| `Search.MatchMeaning` | crates/fjo-raw/src/search.rs:79-83 | a word matches exactly when it embeds in some field |
| `Search.SubstringOutweighs` | crates/fjo-raw/src/search.rs:101-105 | a word found as it is outweighs any that is only spread over a field |
| `Search.CommandNameOutweighs` | crates/fjo-raw/src/search.rs:38-40 | a word in the command name outweighs anything found elsewhere; only its start scores the maximum |
| `Search.SortOrdered` | crates/fjo-raw/src/search.rs:90-96 | the ranking is ordered by score descending, then group, then command |
| `Search.SortKeepsTies` | crates/fjo-raw/src/search.rs:92-96 | hits that tie keep the order in which they were found |
| `Search.SortIsDetermined` | crates/fjo-raw/src/search.rs:92-96 | there is only one ordered ranking that keeps the order within ties, so the algorithm of the sort does not matter |
| `Search.Rate` | crates/fjo-raw/src/search.rs:76-85 | the loop over the words ends at the first that does not match and adds up the others |
| `Search.NormalizeMeaning` | crates/fjo-raw/src/search.rs:50-63 | two texts are searched alike exactly when they differ in case and separators only, and each as the one in lower case with spaces |
| `Search.NeedlesMeaning` | crates/fjo-raw/src/search.rs:67-71 | looked for is, in order, every term that is more than separators and white space, once for each time it is given |
| `Search.BestMeaning` | crates/fjo-raw/src/search.rs:38-48 | the score of a word is that of the field where it scores most, under the weights 6, 3, 3 and 2 |
| `Search.TotalIsSum` | crates/fjo-raw/src/search.rs:76-85 | the total adds up the words one by one |
| `Search.Search` | crates/fjo-raw/src/search.rs:66-99 | the method computes the ranking |
| `Search.HitsMeaning` | crates/fjo-raw/src/search.rs:74-89 | an operation is a hit exactly when every word matches, with the total as its score |
| `Search.SearchIsBest` | crates/fjo-raw/src/search.rs:65-99 | the result is the best `limit` matches: with some rest it is all of them, and nothing in the rest ranks before what is shown |
| `Search.LeftOutRanksLast` | crates/fjo-raw/src/search.rs:97 | a match is left out only when the limit is used up by matches that do not rank after it |
| `Search.HitExactly` | crates/fjo-raw/src/search.rs:67-89 | an operation is a hit exactly when every term that is a word has its characters in order in some field |
| `Search.ShownMatches` | crates/fjo-raw/src/search.rs:6-8 | every operation shown matches every term that is a word |
| `Search.AllAnswersAreShown` | crates/fjo-raw/src/search.rs:67-99 | and every operation that does is shown when the limit allows for all |
| `Search.NothingToLookFor` | crates/fjo-raw/src/search.rs:67-71 | without a word to look for nothing is shown |
| `Search.SearchIgnoresTableOrder` | crates/fjo-raw/src/search.rs:90-91 | the same operations in another order give the same result |
| `Search.SubstringsComeFirst` | crates/fjo-raw/src/search.rs:103-105 | operations that hold all words as they are come before those that hold none so |
| `Search.CommandNamesComeFirst` | crates/fjo-raw/src/search.rs:38-40 | operations named by all words come before those whose name holds none of them |
| `SpecDiff.Compare` | crates/xtask/src/spec_diff.rs:448-467 | the loop over the keys of both sides, in order, that parameters, responses and properties share |
| `SpecDiff.ComparedIsComplete` | crates/xtask/src/spec_diff.rs:448-467 | there is a line exactly when the two tables differ |
| `SpecDiff.DiffOperation` | crates/xtask/src/spec_diff.rs:424-436 | identifier, parameter and response lines, or the one that says only metadata changed |
| `SpecDiff.OperationLinesMeaning` | crates/xtask/src/spec_diff.rs:424-436 | never empty, and only metadata exactly when identifier, parameters and responses agree |
| `SpecDiff.DefinitionLinesMeaning` | crates/xtask/src/spec_diff.rs:534-570 | never empty, and only metadata exactly when properties, required names and type agree |
| `SpecDiff.DescribeMeaning` | crates/xtask/src/spec_diff.rs:265-298 | a schema is described by what it refers to, else by its type and format, an array by its items; a parameter by its schema or itself, a response by its reference or schema |
| `SpecDiff.ByKeyMeaning` | crates/xtask/src/spec_diff.rs:438-446 | under `name (in)` is the last parameter with that key |
| `SpecDiff.ParamsMeaning` | crates/xtask/src/spec_diff.rs:438-446 | parameters are read from `parameters` and kept under `name (in)` |
| `SpecDiff.RequiredListMeaning` | crates/xtask/src/spec_diff.rs:572-577 | required names are read from a list under `required` |
| `SpecDiff.StringsMeaning` | crates/xtask/src/spec_diff.rs:572-577 | required names are the strings of the list, in its order |
| `SpecLines.ParamLinesSay` | crates/xtask/src/spec_diff.rs:448-491 | about parameters exactly the lines are reported that are true of the two sides, old value first, in key order and one a key |
| `SpecLines.ResponseLinesSay` | crates/xtask/src/spec_diff.rs:497-523 | likewise about responses |
| `SpecLines.PropertyLinesSay` | crates/xtask/src/spec_diff.rs:534-558 | and about properties |
| `SpecLines.OperationLinesSay` | crates/xtask/src/spec_diff.rs:424-436 | a changed operation is reported with exactly what is true of it |
| `SpecLines.DefinitionLinesSay` | crates/xtask/src/spec_diff.rs:534-570 | so is a changed definition; its type is told only when nothing else has changed |
| `SpecLines.SharedResponseLinesSay` | crates/xtask/src/spec_diff.rs:525-532 | and a changed shared response |
| `SpecLines.OperationLinesInOrder` | crates/xtask/src/spec_diff.rs:424-436 | identifier first, then parameters, then responses, each in key order |
| `SpecLines.DefinitionLinesInOrder` | crates/xtask/src/spec_diff.rs:534-570 | properties in key order, and then the required names |
| `SpecLines.SortedIsDetermined` | crates/xtask/src/spec_diff.rs:424-436 | so there is one such report |
| `SpecDiff.DiffNamed` | crates/xtask/src/spec_diff.rs:375-400 | names on one side only, in order, and what changed in the others |
| `SpecDiff.NamedDrift` | crates/xtask/src/spec_diff.rs:372-400 | a section is empty exactly when the two tables are equal |
| `SpecOperations.CollectOperations` | crates/xtask/src/spec_diff.rs:302-314 | one operation for each method of each path, keyed by `METHOD /path` |
| `SpecOperations.KeysAreInjective` | crates/xtask/src/spec_diff.rs:307 | such a key tells method and path apart |
| `SpecOperations.ListsIsDetermined` | crates/xtask/src/spec_diff.rs:302-314 | a document has one table of operations |
| `SpecOperations.MethodNames` | crates/xtask/src/spec_diff.rs:254 | the seven methods of a path, as keys spell them |
| `SpecOperations.DiffOperations` | crates/xtask/src/spec_diff.rs:402-422 | added, removed and changed operations by display name |
| `SpecOperations.AddedAndRemoved` | crates/xtask/src/spec_diff.rs:402-422 | added are exactly the operations of the new side alone and removed those of the old side alone, in key order |
| `SpecOperations.ChangedOpsOrigin` | crates/xtask/src/spec_diff.rs:405-413 | a name is reported as changed exactly when a changed operation goes by it |
| `SpecOperations.ChangedOpsMeaning` | crates/xtask/src/spec_diff.rs:405-413 | its lines are those of the changed operation with the greatest key of that name |
| `SpecOperations.NothingLostExactly` | crates/xtask/src/spec_diff.rs:405-413 | every changed operation keeps an account of its own exactly when no two of them go by one new name |
| `SpecOperations.NamesCanCollide` | crates/xtask/src/spec_diff.rs:308 | two operations can go by one display name |
| `SpecOperations.AnAccountIsLost` | crates/xtask/src/spec_diff.rs:405-413 | in a specification with two such operations both can change and one account is kept |
| `SpecOperations.PlainNamesDoNotCollide` | crates/xtask/src/spec_diff.rs:308 | operations whose keys hold no " (" never do |
| `SpecReport.UsersMeaning` | crates/xtask/src/spec_diff.rs:357-370 | the operations named as users of a shared response are exactly those of either document that refer to it, each once |
| `SpecReport.ResponseUsers` | crates/xtask/src/spec_diff.rs:357-370 | the loops over operations and their responses collect them |
| `SpecReport.DiffResponses` | crates/xtask/src/spec_diff.rs:324-338 | shared responses are compared, each change with the operations that use it |
| `SpecReport.SharedLinesSay` | crates/xtask/src/spec_diff.rs:322-334 | of a shared response it says how its schema changed, old before new, or that something else did, and then which operations use it, if any do |
| `SpecReport.SectionsMeaning` | crates/xtask/src/spec_diff.rs:317-345 | operations, shared responses and definitions are read from `paths`, `responses` and `definitions` |
| `SpecReport.Diff` | crates/xtask/src/spec_diff.rs:317-353 | the whole report from both documents |
| `SpecReport.ReportIs` | crates/xtask/src/spec_diff.rs:317-353 | two documents have one report |
| `SpecReport.DriftMeaning` | crates/xtask/src/spec_diff.rs:84-87 | there is drift exactly when operations, shared responses or definitions differ or there are warnings |
| `SpecReport.DiffIsMirrored` | crates/xtask/src/spec_diff.rs:317-353 | the other way round, additions are removals and the same shared names have changed |
| `SpecReport.ChangedOpsAreMirrored` | crates/xtask/src/spec_diff.rs:402-422 | and so have the same operations, each under its name on the newer side; they are as many wherever neither side shares names |
| `SpecReport.AccountsForAllExactly` | crates/xtask/src/spec_diff.rs:402-413 | a report lists the new names of what changed, as many as changed exactly when no two share one |
| `SpecReport.ReportLosesAnAccount` | crates/xtask/src/spec_diff.rs:402-413 | two documents whose report accounts for one of two changes |
| `SpecReport.NamedIsExact` | crates/xtask/src/spec_diff.rs:372-400 | a shared name is added, removed or changed exactly when the tables say so, a change with a non-empty account |
| `PathTemplate.WayDoesNotMatter` | crates/fjo-raw/src/bind.rs:186-207 | a value given by flag, by position or both ways has the same effect, and context never overrides it |
| `PathTemplate.ResolveMeaning` | crates/fjo-raw/src/bind.rs:186-207 | a parameter is what was given for it, and else the owner or the name of the repository, as it asks for; two different values and no value at all are the two errors |
| `PathTemplate.FindParamIsFirst` | crates/fjo-raw/src/bind.rs:165-170 | of several parameters with one name the first counts |
| `PathTemplate.PrintLex` | crates/fjo-raw/src/bind.rs:150-158 | reading a template as text and placeholders loses nothing |
| `PathTemplate.LexPrint` | crates/fjo-raw/src/bind.rs:150-158 | and reads what was printed |
| `PathTemplate.RenderPath` | crates/fjo-raw/src/bind.rs:155-184 | the loop fills in the placeholders from left to right and stops at the first problem |
| `PathTemplate.FilledMeaning` | crates/fjo-raw/src/bind.rs:158-171 | a path comes out exactly when every brace is closed and every placeholder has a value |
| `PathTemplate.FilledText` | crates/fjo-raw/src/bind.rs:155-178 | and it is the template with each placeholder replaced by its own value |
| `PathTemplate.SpelledAsItself` | crates/fjo-raw/src/bind.rs:155-178 | with placeholders standing for themselves the template comes out as it went in |
| `PathTemplate.FirstProblem` | crates/fjo-raw/src/bind.rs:158-171 | the first placeholder without a value is what is reported |
| `PathTemplate.RenderedPathIsComplete` | crates/fjo-raw/src/bind.rs:179-182 | with an encoder that escapes braces the path holds none, so the closing assertion never fails |

## Left out

- AliasTable.RunNeverLoops: stated for runs that store no name containing `$1`..`$9`; without that it is false, and `AliasLoops.NeverLoopsExactly` has the condition on the table.
- Flags.HelpClashesExactly: of what clap adds to a command only the long and the short name of its help option are modelled; a long `-h` and the short `h` count as one name, as they do in the set of taken names in `global.rs`.
- AliasArgv.Expand: command lines are sequences of strings, so the branches for arguments that are not valid UTF-8 do not occur.
- AliasTable.Config.Set: the table is a map in memory; loading and saving `config.toml`, and an `aliases` key that is not a table, are not modelled.
- AliasTable.Config.Import: takes the entries of a file; `parse_import` and `unquote` are not modelled.
- Peek.Peek: tokens that are not valid UTF-8 are not modelled.
- Flags.LeafCommand: arguments carry their names and ids; value parsers, actions and help text are not modelled.
- Flags.UniqueLong: `u32` counting of the fallback number is unbounded.
- Globals.Args: the seventeen calls of the `push` closure are one loop over their table, and only names and ids are kept.
- Lookup.FindOp: the standard library's binary search is modelled as the textbook one; on a strictly ascending table its answer is determined.
- Search.Search: scores are unbounded instead of `u32`; the standard library's stable sort is modelled by insertion, and `Search.SortIsDetermined` shows that any stable sort gives the same.
- Pointer.Document.SetPointer: the moving mutable reference is a cursor with the objects around it, put together again at every step; aliasing inside the document does not arise.
- Fields.ToBody: nested values are rebuilt rather than edited through a mutable reference.
- Pointer.BuildBody: takes the parsed body file and the parsed values of flags; reading a file or stdin and `matched_json` are not modelled.
- Canonical.Canonicalize: works on parsed documents; parsing and pretty-printing of JSON text are not modelled, and numbers are opaque.
- Placeholders.Substitute: is the text after both replacements; that the text parses as JSON is not part of this model.
- NameLock.Store.Reconcile: rendering and parsing are parameters, which `NameLock.TomlIsFaithful` fills in; names in refusals are sets, so their order is not modelled.
- LockText.Read: of TOML only the lines that are written here; which characters print is a parameter, and the wording of the notice on top is any list of comment lines.
- SpecReport.Diff: generator warnings are an input; lines are values instead of Markdown.
- PathTemplate.RenderPath: the percent-encoders are a function parameter; only that they escape `{` is used.
- `to_query`, `typed_value` and reading of `@file` values: per-field computations without interplay.
- `GlobalOpts::or` and `from_chain`: field by field the first value set, an easy member.
- HTTP, retries, pagination, credentials and repository resolution: input and output.
- clap's parsing and help, tables, templates, colours and the wording of errors.
- Porcelain commands, code generation, completions and integration tests.
