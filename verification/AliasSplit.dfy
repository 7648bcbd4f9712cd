/**
 The quoting splitter of `fjo alias`.

 An expansion is read as a list of segments: white space, bare characters, backslash escapes and
 quoted stretches. `Lex` and `Render` are inverse to each other, so every input that splits at
 all has exactly one reading, and `Value` says which words that reading denotes.
 */
module AliasSplit {
  import opened Wrappers
  import opened Text

  datatype SplitError = UnclosedQuote | LoneBackslash

  /** One unit inside double quotes, where only `\"` and `\\` are escapes. */
  datatype Inner = Plain(c: char) | Unescaped(c: char) | Kept(c: char)

  datatype Seg =
    | Space(c: char)
    | Bare(c: char)
    | Escaped(c: char)
    | Single(body: string)
    | Double(inner: seq<Inner>)

  predicate ValidInner(p: Inner) {
    match p
    case Plain(c) => c != '"' && c != '\\'
    case Unescaped(c) => c == '"' || c == '\\'
    case Kept(c) => c != '"' && c != '\\'
  }

  predicate ValidInners(ps: seq<Inner>) {
    forall i :: 0 <= i < |ps| ==> ValidInner(ps[i])
  }

  predicate Valid(g: Seg) {
    match g
    case Space(c) => IsSpace(c)
    case Bare(c) => !IsSpace(c) && c != '\'' && c != '"' && c != '\\'
    case Escaped(_) => true
    case Single(body) => '\'' !in body
    case Double(inner) => ValidInners(inner)
  }

  predicate AllValid(gs: seq<Seg>) {
    forall i :: 0 <= i < |gs| ==> Valid(gs[i])
  }

  // ------------------------------------------------------- writing segments down

  function RenderInner(p: Inner): string {
    match p
    case Plain(c) => [c]
    case Unescaped(c) => ['\\', c]
    case Kept(c) => ['\\', c]
  }

  function RenderInners(ps: seq<Inner>): string {
    if ps == [] then "" else RenderInner(ps[0]) + RenderInners(ps[1..])
  }

  function RenderSeg(g: Seg): string {
    match g
    case Space(c) => [c]
    case Bare(c) => [c]
    case Escaped(c) => ['\\', c]
    case Single(body) => "'" + body + "'"
    case Double(inner) => "\"" + RenderInners(inner) + "\""
  }

  function Render(gs: seq<Seg>): string {
    if gs == [] then "" else RenderSeg(gs[0]) + Render(gs[1..])
  }

  // ------------------------------------------------------- what segments denote

  function TextOfInner(p: Inner): string {
    match p
    case Plain(c) => [c]
    case Unescaped(c) => [c]
    case Kept(c) => ['\\', c]
  }

  function TextOfInners(ps: seq<Inner>): string {
    if ps == [] then "" else TextOfInner(ps[0]) + TextOfInners(ps[1..])
  }

  function TextOf(g: Seg): string
    requires !g.Space?
  {
    match g
    case Bare(c) => [c]
    case Escaped(c) => [c]
    case Single(body) => body
    case Double(inner) => TextOfInners(inner)
  }

  /** True when a word is going on at the start of `gs`. */
  predicate StartsInWord(gs: seq<Seg>) {
    gs != [] && !gs[0].Space?
  }

  /** One word for every maximal run of segments without white space. */
  function Value(gs: seq<Seg>): (words: seq<string>)
    ensures StartsInWord(gs) ==> words != []
  {
    if gs == [] then []
    else if gs[0].Space? then Value(gs[1..])
    else if StartsInWord(gs[1..]) then
      var rest := Value(gs[1..]);
      [TextOf(gs[0]) + rest[0]] + rest[1..]
    else [TextOf(gs[0])] + Value(gs[1..])
  }

  // --------------------------------------------------------------------- reading

  /** The text up to a closing `'`, and what follows that quote. */
  function UntilSingle(s: string): (r: Option<(string, string)>)
    ensures r.Some? ==> |r.value.1| < |s|
  {
    if s == "" then None
    else if s[0] == '\'' then Some(("", s[1..]))
    else match UntilSingle(s[1..])
      case None => None
      case Some((body, rest)) => Some(([s[0]] + body, rest))
  }

  /** The units up to a closing `"`, and what follows that quote. */
  function UntilDouble(s: string): (r: Option<(seq<Inner>, string)>)
    ensures r.Some? ==> |r.value.1| < |s|
  {
    if s == "" then None
    else if s[0] == '"' then Some(([], s[1..]))
    else if s[0] == '\\' then
      if |s| == 1 then None
      else
        var p := if s[1] == '"' || s[1] == '\\' then Unescaped(s[1]) else Kept(s[1]);
        match UntilDouble(s[2..])
        case None => None
        case Some((inner, rest)) => Some(([p] + inner, rest))
    else match UntilDouble(s[1..])
      case None => None
      case Some((inner, rest)) => Some(([Plain(s[0])] + inner, rest))
  }

  function Lex(s: string): Result<seq<Seg>, SplitError>
    decreases |s|
  {
    if s == "" then Ok([])
    else if s[0] == '\'' then
      match UntilSingle(s[1..])
      case None => Err(UnclosedQuote)
      case Some((body, rest)) => Before(Single(body), Lex(rest))
    else if s[0] == '"' then
      match UntilDouble(s[1..])
      case None => Err(UnclosedQuote)
      case Some((inner, rest)) => Before(Double(inner), Lex(rest))
    else if s[0] == '\\' then
      if |s| == 1 then Err(LoneBackslash) else Before(Escaped(s[1]), Lex(s[2..]))
    else Before(if IsSpace(s[0]) then Space(s[0]) else Bare(s[0]), Lex(s[1..]))
  }

  function Before(g: Seg, r: Result<seq<Seg>, SplitError>): Result<seq<Seg>, SplitError> {
    match r
    case Ok(gs) => Ok([g] + gs)
    case Err(e) => Err(e)
  }

  /** The words an expansion splits into. */
  function Words(s: string): Result<seq<string>, SplitError> {
    match Lex(s)
    case Ok(gs) => Ok(Value(gs))
    case Err(e) => Err(e)
  }

  // -------------------------------------------------- reading and writing are inverse

  lemma {:induction false} UntilSingleFinds(body: string, rest: string)
    requires '\'' !in body
    ensures UntilSingle(body + "'" + rest) == Some((body, rest))
  {
    var s := body + "'" + rest;
    if body == "" {
      assert s[1..] == rest;
    } else {
      assert s[1..] == body[1..] + "'" + rest;
      UntilSingleFinds(body[1..], rest);
      assert body == [body[0]] + body[1..];
    }
  }

  lemma {:induction false} UntilDoubleFinds(inner: seq<Inner>, rest: string)
    requires ValidInners(inner)
    ensures UntilDouble(RenderInners(inner) + "\"" + rest) == Some((inner, rest))
  {
    var s := RenderInners(inner) + "\"" + rest;
    if inner == [] {
      assert s[1..] == rest;
    } else {
      var n := |RenderInner(inner[0])|;
      assert ValidInner(inner[0]);
      assert s[n..] == RenderInners(inner[1..]) + "\"" + rest;
      UntilDoubleFinds(inner[1..], rest);
      assert inner == [inner[0]] + inner[1..];
    }
  }

  /** Every list of valid segments is what its own rendering reads as. */
  lemma {:induction false} LexRender(gs: seq<Seg>)
    requires AllValid(gs)
    ensures Lex(Render(gs)) == Ok(gs)
  {
    if gs != [] {
      var tail := Render(gs[1..]);
      LexRender(gs[1..]);
      assert Valid(gs[0]);
      assert gs == [gs[0]] + gs[1..];
      LexStep(gs[0], tail);
    }
  }

  lemma LexStep(g: Seg, tail: string)
    requires Valid(g)
    ensures Lex(RenderSeg(g) + tail) == Before(g, Lex(tail))
  {
    var s := RenderSeg(g) + tail;
    match g
    case Space(_) => assert s[1..] == tail;
    case Bare(_) => assert s[1..] == tail;
    case Escaped(_) => assert s[2..] == tail;
    case Single(body) =>
      assert s[1..] == body + "'" + tail;
      UntilSingleFinds(body, tail);
    case Double(inner) =>
      assert s[1..] == RenderInners(inner) + "\"" + tail;
      UntilDoubleFinds(inner, tail);
  }

  lemma {:induction false} UntilSingleSound(s: string)
    requires UntilSingle(s).Some?
    ensures var (body, rest) := UntilSingle(s).value; '\'' !in body && s == body + "'" + rest
  {
    if s[0] != '\'' {
      UntilSingleSound(s[1..]);
    }
  }

  lemma {:induction false} UntilDoubleSound(s: string)
    requires UntilDouble(s).Some?
    ensures var (inner, rest) := UntilDouble(s).value;
            ValidInners(inner) && s == RenderInners(inner) + "\"" + rest
    decreases |s|
  {
    if s[0] != '"' {
      var n := if s[0] == '\\' then 2 else 1;
      UntilDoubleSound(s[n..]);
      var (inner, rest) := UntilDouble(s).value;
      assert s[..n] == RenderInner(inner[0]);
      assert inner[1..] == UntilDouble(s[n..]).value.0;
      assert s == s[..n] + s[n..];
    }
  }

  /** Every reading is valid and renders back to the input, character for character. */
  lemma {:induction false} RenderLex(s: string)
    requires Lex(s).Ok?
    ensures AllValid(Lex(s).value) && Render(Lex(s).value) == s
    decreases |s|
  {
    if s != "" {
      var gs := Lex(s).value;
      var rest;
      if s[0] == '\'' {
        UntilSingleSound(s[1..]);
        rest := UntilSingle(s[1..]).value.1;
      } else if s[0] == '"' {
        UntilDoubleSound(s[1..]);
        rest := UntilDouble(s[1..]).value.1;
      } else if s[0] == '\\' {
        rest := s[2..];
      } else {
        rest := s[1..];
      }
      RenderLex(rest);
      assert gs[1..] == Lex(rest).value;
      assert s == RenderSeg(gs[0]) + rest;
    }
  }

  /** An input splits exactly when it can be written with segments, and then into their words. */
  lemma SplitMeaning(s: string, words: seq<string>)
    ensures Words(s) == Ok(words) <==> exists gs :: AllValid(gs) && Render(gs) == s && Value(gs) == words
  {
    if Words(s) == Ok(words) {
      RenderLex(s);
    }
    if gs :| AllValid(gs) && Render(gs) == s && Value(gs) == words {
      LexRender(gs);
    }
  }

  // ------------------------------------------------------------------ when it fails

  /** Where a left-to-right reader stands after some input. */
  datatype Mode = Outside | AfterBackslash | InSingle | InDouble | InDoubleAfterBackslash

  function Advance(m: Mode, c: char): Mode {
    match m
    case Outside => if c == '\'' then InSingle else if c == '"' then InDouble
                    else if c == '\\' then AfterBackslash else Outside
    case AfterBackslash => Outside
    case InSingle => if c == '\'' then Outside else InSingle
    case InDouble => if c == '"' then Outside else if c == '\\' then InDoubleAfterBackslash else InDouble
    case InDoubleAfterBackslash => InDouble
  }

  function ModeAfter(m: Mode, s: string): Mode
    decreases |s|
  {
    if s == "" then m else ModeAfter(Advance(m, s[0]), s[1..])
  }

  lemma {:induction false} ModeOfSingle(s: string)
    ensures match UntilSingle(s)
            case None => ModeAfter(InSingle, s) == InSingle
            case Some((_, rest)) => ModeAfter(InSingle, s) == ModeAfter(Outside, rest)
  {
    if s != "" && s[0] != '\'' {
      ModeOfSingle(s[1..]);
    }
  }

  lemma {:induction false} ModeOfDouble(s: string)
    ensures match UntilDouble(s)
            case None => ModeAfter(InDouble, s) in {InDouble, InDoubleAfterBackslash}
            case Some((_, rest)) => ModeAfter(InDouble, s) == ModeAfter(Outside, rest)
    decreases |s|
  {
    if s != "" && s[0] != '"' {
      if s[0] != '\\' {
        ModeOfDouble(s[1..]);
      } else if |s| > 1 {
        assert ModeAfter(InDouble, s) == ModeAfter(InDoubleAfterBackslash, s[1..]);
        assert s[1..][1..] == s[2..];
        ModeOfDouble(s[2..]);
      } else {
        assert ModeAfter(InDoubleAfterBackslash, s[1..]) == InDoubleAfterBackslash;
      }
    }
  }

  /** Splitting fails exactly when the input ends inside quotes, or on an unquoted backslash. */
  lemma {:induction false} SplitFails(s: string)
    ensures Words(s) == Err(UnclosedQuote) <==>
            ModeAfter(Outside, s) in {InSingle, InDouble, InDoubleAfterBackslash}
    ensures Words(s) == Err(LoneBackslash) <==> ModeAfter(Outside, s) == AfterBackslash
    decreases |s|
  {
    if s != "" {
      if s[0] == '\'' {
        ModeOfSingle(s[1..]);
        if UntilSingle(s[1..]).Some? {
          SplitFails(UntilSingle(s[1..]).value.1);
        }
      } else if s[0] == '"' {
        ModeOfDouble(s[1..]);
        if UntilDouble(s[1..]).Some? {
          SplitFails(UntilDouble(s[1..]).value.1);
        }
      } else if s[0] == '\\' {
        if |s| > 1 {
          assert s[1..][1..] == s[2..];
          assert ModeAfter(Outside, s) == ModeAfter(AfterBackslash, s[1..]);
          SplitFails(s[2..]);
        } else {
          assert ModeAfter(AfterBackslash, s[1..]) == AfterBackslash;
        }
      } else {
        SplitFails(s[1..]);
      }
    }
  }

  // ----------------------------------------------------------------------- quoting

  /** Double quotes around a word, with `"` and `\` escaped. */
  function Quote(w: string): string {
    "\"" + EscapeInside(w) + "\""
  }

  function EscapeInside(w: string): string {
    if w == "" then ""
    else (if w[0] == '"' || w[0] == '\\' then ['\\', w[0]] else [w[0]]) + EscapeInside(w[1..])
  }

  function QuoteAll(words: seq<string>): string {
    if words == [] then ""
    else if |words| == 1 then Quote(words[0])
    else Quote(words[0]) + " " + QuoteAll(words[1..])
  }

  function InnersOf(w: string): seq<Inner> {
    seq(|w|, i requires 0 <= i < |w| =>
      if w[i] == '"' || w[i] == '\\' then Unescaped(w[i]) else Plain(w[i]))
  }

  lemma {:induction false} InnersOfWord(w: string)
    ensures ValidInners(InnersOf(w))
    ensures RenderInners(InnersOf(w)) == EscapeInside(w)
    ensures TextOfInners(InnersOf(w)) == w
  {
    if w != "" {
      InnersOfWord(w[1..]);
      var first := InnersOf(w)[0];
      assert InnersOf(w) == [first] + InnersOf(w[1..]);
      assert ([first] + InnersOf(w[1..]))[1..] == InnersOf(w[1..]);
      assert w == [w[0]] + w[1..];
    }
  }

  function QuotedSegs(words: seq<string>): seq<Seg> {
    if words == [] then []
    else if |words| == 1 then [Double(InnersOf(words[0]))]
    else [Double(InnersOf(words[0])), Space(' ')] + QuotedSegs(words[1..])
  }

  lemma {:induction false} QuotedSegsMeaning(words: seq<string>)
    ensures AllValid(QuotedSegs(words))
    ensures Render(QuotedSegs(words)) == QuoteAll(words)
    ensures Value(QuotedSegs(words)) == words
  {
    if |words| == 1 {
      InnersOfWord(words[0]);
      QuotedWordFirst(words[0], []);
    } else if words != [] {
      InnersOfWord(words[0]);
      QuotedSegsMeaning(words[1..]);
      var tail := QuotedSegs(words[1..]);
      var spaced := [Space(' ')] + tail;
      assert QuotedSegs(words) == [Double(InnersOf(words[0]))] + spaced;
      assert spaced[1..] == tail;
      QuotedWordFirst(words[0], spaced);
    }
  }

  lemma QuotedWordFirst(w: string, gs: seq<Seg>)
    requires !StartsInWord(gs)
    ensures Render([Double(InnersOf(w))] + gs) == Quote(w) + Render(gs)
    ensures Value([Double(InnersOf(w))] + gs) == [w] + Value(gs)
  {
    InnersOfWord(w);
    assert ([Double(InnersOf(w))] + gs)[1..] == gs;
  }

  /** Splitting undoes quoting, for any words at all: empty ones, ones with quotes or spaces. */
  lemma SplitInvertsQuoting(words: seq<string>)
    ensures Words(QuoteAll(words)) == Ok(words)
  {
    QuotedSegsMeaning(words);
    LexRender(QuotedSegs(words));
  }

  // ------------------------------------------------------------- plain white space

  predicate Unquoted(s: string) {
    '\'' !in s && '"' !in s && '\\' !in s
  }

  function PlainSegs(s: string): seq<Seg> {
    seq(|s|, i requires 0 <= i < |s| => if IsSpace(s[i]) then Space(s[i]) else Bare(s[i]))
  }

  lemma {:induction false} PlainRender(s: string)
    ensures Render(PlainSegs(s)) == s
  {
    if s != "" {
      PlainRender(s[1..]);
      assert PlainSegs(s)[1..] == PlainSegs(s[1..]);
    }
  }

  lemma {:induction false} PlainValue(s: string)
    ensures Value(PlainSegs(s)) == WhitespaceWords(s)
    decreases |s|
  {
    if s != "" {
      assert PlainSegs(s)[1..] == PlainSegs(s[1..]);
      PlainValue(s[1..]);
      if !IsSpace(s[0]) {
        var n := WordLength(s);
        var t := s[1..];
        assert WordLength(t) == n - 1;
        assert s[..n] == [s[0]] + t[..n - 1];
        assert s[n..] == t[n - 1..];
        if n > 1 {
          assert WhitespaceWords(t) == [t[..n - 1]] + WhitespaceWords(t[n - 1..]);
        } else {
          assert t[0..] == t && s[..1] == [s[0]];
          assert !StartsInWord(PlainSegs(t));
          assert Value(PlainSegs(s)) == [[s[0]]] + Value(PlainSegs(t));
          assert WhitespaceWords(s) == [s[..1]] + WhitespaceWords(t);
        }
      }
    }
  }

  /** Without quotes and backslashes, splitting is splitting at white space. */
  lemma SplitPlain(s: string)
    requires Unquoted(s)
    ensures Words(s) == Ok(WhitespaceWords(s))
  {
    PlainRender(s);
    PlainValue(s);
    LexRender(PlainSegs(s));
  }

  // ------------------------------------------------------------------- the loop

  /** The words still to come, given the word in progress and the rest of the input. */
  ghost function Pending(quote: Option<char>, have: bool, word: string, rest: string)
    : Result<seq<string>, SplitError>
    decreases |rest|
  {
    match quote
    case None =>
      (match Lex(rest)
       case Err(e) => Err(e)
       case Ok(gs) => Ok(Attach(have, word, gs)))
    case Some(q) =>
      if q == '\'' then
        match UntilSingle(rest)
        case None => Err(UnclosedQuote)
        case Some((body, after)) => Pending(None, true, word + body, after)
      else
        match UntilDouble(rest)
        case None => Err(UnclosedQuote)
        case Some((inner, after)) => Pending(None, true, word + TextOfInners(inner), after)
  }

  ghost function Attach(have: bool, word: string, gs: seq<Seg>): seq<string> {
    if !have then Value(gs)
    else if StartsInWord(gs) then [word + Value(gs)[0]] + Value(gs)[1..]
    else [word] + Value(gs)
  }

  ghost function After(out: seq<string>, r: Result<seq<string>, SplitError>): Result<seq<string>, SplitError> {
    match r
    case Ok(words) => Ok(out + words)
    case Err(e) => Err(e)
  }

  lemma AttachPiece(have: bool, word: string, g: Seg, gs: seq<Seg>)
    requires !g.Space? && (!have ==> word == "")
    ensures Attach(have, word, [g] + gs) == Attach(true, word + TextOf(g), gs)
  {
    assert ([g] + gs)[1..] == gs;
    assert !have ==> word + TextOf(g) == TextOf(g);
    if StartsInWord(gs) {
      assert word + (TextOf(g) + Value(gs)[0]) == word + TextOf(g) + Value(gs)[0];
    } else {
      assert Value([g] + gs) == [TextOf(g)] + Value(gs);
      assert ([TextOf(g)] + Value(gs))[1..] == Value(gs);
    }
  }

  lemma PendingSpace(have: bool, word: string, s: string)
    requires s != "" && IsSpace(s[0])
    ensures Pending(None, have, word, s) == After(if have then [word] else [], Pending(None, false, "", s[1..]))
  {
    if Lex(s[1..]).Ok? {
      var gs := Lex(s[1..]).value;
      assert ([Space(s[0])] + gs)[1..] == gs;
      assert Value([Space(s[0])] + gs) == Value(gs);
      assert [] + Value(gs) == Value(gs);
    }
  }

  /** A character outside quotes that belongs to a word: `c` itself, or `c` after a backslash. */
  lemma PendingPiece(have: bool, word: string, s: string, n: nat)
    requires !have ==> word == ""
    requires s != "" && s[0] != '\'' && s[0] != '"'
    requires if s[0] == '\\' then n == 2 <= |s| else n == 1 && !IsSpace(s[0])
    ensures Pending(None, have, word, s) == Pending(None, true, word + [s[n - 1]], s[n..])
  {
    if Lex(s[n..]).Ok? {
      AttachPiece(have, word, if n == 2 then Escaped(s[1]) else Bare(s[0]), Lex(s[n..]).value);
    }
  }

  lemma PendingOpen(have: bool, word: string, s: string)
    requires !have ==> word == ""
    requires s != "" && (s[0] == '\'' || s[0] == '"')
    ensures Pending(None, have, word, s) == Pending(Some(s[0]), true, word, s[1..])
  {
    if s[0] == '\'' {
      match UntilSingle(s[1..])
      case None =>
      case Some((body, after)) =>
        if Lex(after).Ok? {
          AttachPiece(have, word, Single(body), Lex(after).value);
        }
    } else {
      match UntilDouble(s[1..])
      case None =>
      case Some((inner, after)) =>
        if Lex(after).Ok? {
          AttachPiece(have, word, Double(inner), Lex(after).value);
        }
    }
  }

  lemma PendingSingle(word: string, s: string)
    requires s != "" && s[0] != '\''
    ensures Pending(Some('\''), true, word, s) == Pending(Some('\''), true, word + [s[0]], s[1..])
  {
    match UntilSingle(s[1..])
    case None =>
    case Some((body, _)) => assert word + ([s[0]] + body) == word + [s[0]] + body;
  }

  lemma PendingDouble(word: string, s: string, n: nat, p: Inner)
    requires s != "" && s[0] != '"'
    requires if s[0] == '\\' then n == 2 <= |s| && p == (if s[1] == '"' || s[1] == '\\' then Unescaped(s[1]) else Kept(s[1]))
             else n == 1 && p == Plain(s[0])
    ensures Pending(Some('"'), true, word, s) == Pending(Some('"'), true, word + TextOfInner(p), s[n..])
  {
    match UntilDouble(s[n..])
    case None =>
    case Some((inner, _)) =>
      assert ([p] + inner)[1..] == inner;
      assert word + (TextOfInner(p) + TextOfInners(inner)) == word + TextOfInner(p) + TextOfInners(inner);
  }

  lemma AfterTwice(out: seq<string>, more: seq<string>, r: Result<seq<string>, SplitError>)
    ensures After(out, After(more, r)) == After(out + more, r)
    ensures After(out + [], r) == After(out, r)
  {
    assert out + [] == out;
    if r.Ok? {
      assert out + (more + r.value) == out + more + r.value;
    }
  }

  method Split(input: string) returns (r: Result<seq<string>, SplitError>)
    ensures r == Words(input)
  {
    var out: seq<string> := [];
    var word := "";
    var haveWord := false;
    var quote: Option<char> := None;
    var i := 0;
    assert input[0..] == input;
    assert forall ws: seq<string> :: [] + ws == ws;
    while i < |input|
      invariant i <= |input|
      invariant quote in {None, Some('\''), Some('"')}
      invariant !haveWord ==> word == "" && quote == None
      invariant After(out, Pending(quote, haveWord, word, input[i..])) == Words(input)
    {
      var c := input[i];
      ghost var s := input[i..];
      i := i + 1;
      assert s[1..] == input[i..];
      if quote.Some? && quote.value == c {
        quote := None;
        assert word + "" == word;
      } else if quote == Some('\'') {
        PendingSingle(word, s);
        word := word + [c];
      } else if quote == Some('"') && c == '\\' {
        if i == |input| {
          word := word + "\\";
        } else {
          var next := input[i];
          i := i + 1;
          assert s[2..] == input[i..];
          PendingDouble(word, s, 2, if next == '"' || next == '\\' then Unescaped(next) else Kept(next));
          if next == '"' || next == '\\' {
            word := word + [next];
          } else {
            word := word + ['\\', next];
          }
        }
      } else if quote.Some? {
        PendingDouble(word, s, 1, Plain(c));
        word := word + [c];
      } else if c == '\'' || c == '"' {
        PendingOpen(haveWord, word, s);
        quote, haveWord := Some(c), true;
      } else if c == '\\' {
        if i == |input| {
          return Err(LoneBackslash);
        }
        PendingPiece(haveWord, word, s, 2);
        assert s[2..] == input[i + 1..];
        word, haveWord := word + [input[i]], true;
        i := i + 1;
      } else if IsSpace(c) {
        PendingSpace(haveWord, word, s);
        AfterTwice(out, if haveWord then [word] else [], Pending(None, false, "", s[1..]));
        if haveWord {
          out, word, haveWord := out + [word], "", false;
        }
      } else {
        PendingPiece(haveWord, word, s, 1);
        word, haveWord := word + [c], true;
      }
    }
    assert input[i..] == "";
    if quote.Some? {
      return Err(UnclosedQuote);
    }
    assert Value([]) == [] && [word] + [] == [word] && out + [] == out;
    if haveWord {
      out := out + [word];
    }
    return Ok(out);
  }
}
