/** Filling in the path template of an operation from flags, positionals and repository context. */
module PathTemplate {
  import opened Wrappers
  import opened Text

  datatype Fill = OwnerOf | NameOf

  datatype Param = Param(wire: string, flag: string, fill: Option<Fill>, pathLike: bool)

  datatype Slug = Slug(owner: string, name: string)

  /** What the command line supplied, by flag name, and the repository it resolved to. */
  datatype Given = Given(flags: map<string, string>, positionals: map<string, string>, context: Option<Slug>)

  datatype PathError = Malformed | Undeclared(wire: string) | GivenTwice(wire: string) | Missing(wire: string)

  /** A percent-encoder: the value, and whether slashes are to be kept. */
  type Encoder = (string, bool) -> string

  // ---------------------------------------------------------------------- one value

  function Resolve(p: Param, g: Given): Result<string, PathError> {
    match (MapGet(g.flags, p.flag), MapGet(g.positionals, p.flag))
    case (Some(f), Some(pos)) => if f != pos then Err(GivenTwice(p.wire)) else Ok(f)
    case (Some(f), None) => Ok(f)
    case (None, Some(pos)) => Ok(pos)
    case (None, None) =>
      match (p.fill, g.context)
      case (Some(OwnerOf), Some(slug)) => Ok(slug.owner)
      case (Some(NameOf), Some(slug)) => Ok(slug.name)
      case _ => Err(Missing(p.wire))
  }

  /** By flag, by position or both ways: the same value has the same effect, and context never overrides it. */
  lemma WayDoesNotMatter(p: Param, g: Given, v: string, context: Option<Slug>)
    requires MapGet(g.flags, p.flag) in {None, Some(v)} && MapGet(g.positionals, p.flag) in {None, Some(v)}
    requires p.flag in g.flags || p.flag in g.positionals
    ensures Resolve(p, g) == Ok(v) == Resolve(p, g.(context := context))
  {
  }

  /**
   What a parameter resolves to: the value that was given, by flag or by position; and where none
   was, the owner or the name of the repository, as it asks for.
   */
  lemma ResolveMeaning(p: Param, g: Given, v: string)
    ensures Resolve(p, g) == Ok(v) <==>
            if p.flag in g.flags || p.flag in g.positionals then
              && (p.flag in g.flags ==> g.flags[p.flag] == v)
              && (p.flag in g.positionals ==> g.positionals[p.flag] == v)
            else
              && p.fill.Some? && g.context.Some?
              && v == if p.fill == Some(OwnerOf) then g.context.value.owner else g.context.value.name
    ensures Resolve(p, g) == Err(GivenTwice(p.wire)) <==>
            p.flag in g.flags && p.flag in g.positionals && g.flags[p.flag] != g.positionals[p.flag]
    ensures Resolve(p, g) == Err(Missing(p.wire)) <==>
            p.flag !in g.flags && p.flag !in g.positionals && (p.fill.None? || g.context.None?)
  {
  }

  function FindParam(params: seq<Param>, wire: string): (r: Option<Param>)
    ensures r.Some? ==> r.value in params && r.value.wire == wire
    ensures r.None? ==> forall p :: p in params ==> p.wire != wire
  {
    if params == [] then None
    else if params[0].wire == wire then Some(params[0])
    else FindParam(params[1..], wire)
  }

  /** Of several with one name the first is found. */
  lemma {:induction false} FindParamIsFirst(params: seq<Param>, wire: string, i: nat)
    requires i < |params| && params[i].wire == wire && forall j :: 0 <= j < i ==> params[j].wire != wire
    ensures FindParam(params, wire) == Some(params[i])
    decreases i
  {
    if i > 0 {
      FindParamIsFirst(params[1..], wire, i - 1);
    }
  }

  /** What stands in the path for `{wire}`. */
  function ValueFor(params: seq<Param>, g: Given, encode: Encoder, wire: string): Result<string, PathError> {
    match FindParam(params, wire)
    case None => Err(Undeclared(wire))
    case Some(p) =>
      match Resolve(p, g)
      case Err(e) => Err(e)
      case Ok(v) => Ok(encode(v, p.pathLike))
  }

  // ----------------------------------------------------------------------- templates

  /** Literal text, then a placeholder. */
  datatype Hole = Hole(before: string, wire: string)

  /** Placeholders with the text between them; the rest is unclosed when an opening brace is not matched. */
  datatype Template = Template(holes: seq<Hole>, rest: string, closed: bool)

  /** Where `c` next stands in `t`, from `start` on. */
  function IndexFrom(t: string, c: char, start: nat): (i: nat)
    requires start <= |t|
    ensures start <= i <= |t|
    ensures i < |t| ==> t[i] == c
    ensures forall j :: start <= j < i ==> t[j] != c
  {
    var from := t[start..];
    assert forall j :: start <= j < |t| ==> t[j] == from[j - start];
    IndexOf(from, c) + start
  }

  datatype Cut = NoBrace | Unclosed | First(hole: Hole, tail: string)

  /** The first placeholder of `t`, with the text before it, and what follows it. */
  function NextHole(t: string): Cut {
    var open := IndexOf(t, '{');
    if open == |t| then NoBrace
    else
      var close := IndexFrom(t, '}', open);
      if close == |t| then Unclosed else First(Hole(t[..open], t[open + 1..close]), t[close + 1..])
  }

  function Whole(h: Hole, tail: string): string {
    h.before + "{" + h.wire + "}" + tail
  }

  predicate Plain(h: Hole) {
    '{' !in h.before && '}' !in h.wire
  }

  /** Cutting off the first placeholder loses nothing. */
  lemma NextHoleMeaning(t: string)
    ensures match NextHole(t)
            case NoBrace => '{' !in t
            case Unclosed => OpenBrace(t)
            case First(h, tail) => t == Whole(h, tail) && Plain(h) && |tail| < |t|
  {
    var open := IndexOf(t, '{');
    if open < |t| {
      var close := IndexFrom(t, '}', open);
      if close < |t| {
        CutIsWhole(t, open, close);
      } else {
        assert '}' !in t[open..];
      }
    }
  }

  lemma CutIsWhole(t: string, open: nat, close: nat)
    requires open < close < |t| && t[open] == '{' && t[close] == '}'
    ensures t == Whole(Hole(t[..open], t[open + 1..close]), t[close + 1..])
  {
    assert t == t[..open] + [t[open]] + t[open + 1..close] + [t[close]] + t[close + 1..];
  }

  /** Some opening brace has no closing one after it. */
  ghost predicate OpenBrace(t: string) {
    exists i :: 0 <= i < |t| && t[i] == '{' && '}' !in t[i..]
  }

  /** And finds what was put there. */
  lemma NextHoleOfWhole(h: Hole, tail: string)
    requires Plain(h)
    ensures NextHole(Whole(h, tail)) == First(h, tail)
  {
    var t, open := Whole(h, tail), |h.before|;
    var close := open + 1 + |h.wire|;
    assert t[..open] == h.before && t[open] == '{' && t[close] == '}';
    assert t[open + 1..close] == h.wire && t[close + 1..] == tail;
    assert forall i :: 0 <= i < open ==> t[i] == h.before[i];
    assert forall i :: open < i < close ==> t[i] == t[open + 1..close][i - open - 1];
    NextHoleAt(t, open, close);
  }

  lemma NextHoleAt(t: string, open: nat, close: nat)
    requires open < close < |t| && t[open] == '{' && t[close] == '}'
    requires (forall i :: 0 <= i < open ==> t[i] != '{') && (forall i :: open < i < close ==> t[i] != '}')
    ensures NextHole(t) == First(Hole(t[..open], t[open + 1..close]), t[close + 1..])
  {
    assert IndexOf(t, '{') == open;
    assert IndexFrom(t, '}', open) == close;
  }

  function Lex(t: string): Template
    decreases |t|
  {
    NextHoleMeaning(t);
    match NextHole(t)
    case NoBrace => Template([], t, true)
    case Unclosed => Template([], t, false)
    case First(h, tail) =>
      var more := Lex(tail);
      Template([h] + more.holes, more.rest, more.closed)
  }

  function Print(holes: seq<Hole>, rest: string): string {
    if holes == [] then rest
    else Whole(holes[0], Print(holes[1..], rest))
  }

  predicate PlainHoles(holes: seq<Hole>) {
    forall h :: h in holes ==> Plain(h)
  }

  /** Reading a template loses nothing. */
  lemma {:induction false} PrintLex(t: string)
    ensures Print(Lex(t).holes, Lex(t).rest) == t
    ensures PlainHoles(Lex(t).holes)
    ensures if Lex(t).closed then '{' !in Lex(t).rest else OpenBrace(Lex(t).rest)
    decreases |t|
  {
    NextHoleMeaning(t);
    if NextHole(t).First? {
      var h, tail := NextHole(t).hole, NextHole(t).tail;
      PrintLex(tail);
      assert ([h] + Lex(tail).holes)[1..] == Lex(tail).holes;
    }
  }

  /** And it reads what was printed: text without an opening brace, names without a closing one. */
  lemma {:induction false} LexPrint(holes: seq<Hole>, rest: string)
    requires PlainHoles(holes) && '{' !in rest
    ensures Lex(Print(holes, rest)) == Template(holes, rest, true)
  {
    if holes == [] {
      assert IndexOf(rest, '{') == |rest|;
    } else {
      LexPrint(holes[1..], rest);
      NextHoleOfWhole(holes[0], Print(holes[1..], rest));
    }
  }

  // ----------------------------------------------------------------------- rendering

  /** Every placeholder replaced, left to right, the first problem stopping it. */
  function Filled(t: Template, value: string -> Result<string, PathError>): Result<string, PathError>
    decreases |t.holes|
  {
    if t.holes == [] then if t.closed then Ok(t.rest) else Err(Malformed)
    else match value(t.holes[0].wire)
      case Err(e) => Err(e)
      case Ok(v) => Prefixed(t.holes[0].before + v, Filled(t.(holes := t.holes[1..]), value))
  }

  function Prefixed(out: string, r: Result<string, PathError>): Result<string, PathError> {
    match r
    case Ok(s) => Ok(out + s)
    case Err(e) => Err(e)
  }

  function Values(params: seq<Param>, g: Given, encode: Encoder): string -> Result<string, PathError> {
    wire => ValueFor(params, g, encode, wire)
  }

  method RenderPath(template: string, params: seq<Param>, g: Given, encode: Encoder)
    returns (r: Result<string, PathError>)
    ensures r == Filled(Lex(template), Values(params, g, encode))
  {
    var out, rest := "", template;
    ghost var value := Values(params, g, encode);
    PrefixedByNothing(Filled(Lex(rest), value));
    ghost var all := Filled(Lex(template), value);
    while true
      invariant all == Prefixed(out, Filled(Lex(rest), value))
      decreases |rest|
    {
      var open := IndexOf(rest, '{');
      Ends(rest, value);
      if open == |rest| {
        return Ok(out + rest);
      }
      var close := IndexFrom(rest, '}', open);
      if close == |rest| {
        return Err(Malformed);
      }
      var wire, tail := rest[open + 1..close], rest[close + 1..];
      OneHole(out, rest, value, rest[..open], wire, tail);
      var p := FindParam(params, wire);
      if p.None? {
        return Err(Undeclared(wire));
      }
      var v := Resolve(p.value, g);
      if v.Err? {
        return Err(v.error);
      }
      out := out + rest[..open] + encode(v.value, p.value.pathLike);
      rest := tail;
    }
  }

  lemma PrefixedByNothing(r: Result<string, PathError>)
    ensures Prefixed("", r) == r
  {
    assert r.Ok? ==> "" + r.value == r.value;
  }

  /** When the loop ends. */
  lemma Ends(t: string, value: string -> Result<string, PathError>)
    ensures NextHole(t).NoBrace? ==> Filled(Lex(t), value) == Ok(t)
    ensures NextHole(t).Unclosed? ==> Filled(Lex(t), value) == Err(Malformed)
  {
  }

  /** One round of the loop. */
  lemma OneHole(out: string, t: string, value: string -> Result<string, PathError>, before: string, wire: string, tail: string)
    requires NextHole(t) == First(Hole(before, wire), tail)
    ensures Prefixed(out, Filled(Lex(t), value)) ==
            match value(wire)
            case Err(e) => Err(e)
            case Ok(v) => Prefixed(out + before + v, Filled(Lex(tail), value))
  {
    var all, more := Lex(t), Lex(tail);
    assert all.holes[0] == Hole(before, wire) && all.holes[1..] == more.holes;
    assert all.(holes := all.holes[1..]) == more;
    if value(wire).Ok? {
      PrefixedTwice(out, before + value(wire).value, Filled(more, value));
      assert out + (before + value(wire).value) == out + before + value(wire).value;
    }
  }

  lemma PrefixedTwice(a: string, b: string, r: Result<string, PathError>)
    ensures Prefixed(a, Prefixed(b, r)) == Prefixed(a + b, r)
  {
    assert r.Ok? ==> a + (b + r.value) == a + b + r.value;
  }

  /** A path comes out exactly when every brace is matched and every placeholder has a value. */
  lemma {:induction false} FilledMeaning(t: Template, value: string -> Result<string, PathError>)
    ensures Filled(t, value).Ok? <==> t.closed && forall h :: h in t.holes ==> value(h.wire).Ok?
    decreases |t.holes|
  {
    if t.holes != [] {
      FilledMeaning(t.(holes := t.holes[1..]), value);
      assert t.holes == [t.holes[0]] + t.holes[1..];
    }
  }

  /** The text between placeholders as it is, and each of them replaced by its value. */
  function Spelled(holes: seq<Hole>, values: seq<string>, rest: string): string
    requires |holes| == |values|
  {
    if holes == [] then rest else holes[0].before + values[0] + Spelled(holes[1..], values[1..], rest)
  }

  ghost predicate HasValues(holes: seq<Hole>, values: seq<string>, value: string -> Result<string, PathError>) {
    |values| == |holes| && forall i :: 0 <= i < |holes| ==> value(holes[i].wire) == Ok(values[i])
  }

  /** What comes out is the template with every placeholder replaced by its own value. */
  lemma {:induction false} FilledText(t: Template, value: string -> Result<string, PathError>, values: seq<string>)
    requires HasValues(t.holes, values, value)
    ensures Filled(t, value) == if t.closed then Ok(Spelled(t.holes, values, t.rest)) else Err(Malformed)
    decreases |t.holes|
  {
    if t.holes != [] {
      var more := t.(holes := t.holes[1..]);
      assert value(t.holes[0].wire) == Ok(values[0]);
      assert HasValues(more.holes, values[1..], value) by {
        assert forall i :: 0 <= i < |more.holes| ==> more.holes[i] == t.holes[i + 1] && values[1..][i] == values[i + 1];
      }
      FilledText(more, value, values[1..]);
    }
  }

  /** The first placeholder without a value is what is reported. */
  lemma {:induction false} FirstProblem(t: Template, value: string -> Result<string, PathError>, k: nat)
    requires k < |t.holes| && value(t.holes[k].wire).Err?
    requires forall i :: 0 <= i < k ==> value(t.holes[i].wire).Ok?
    ensures Filled(t, value) == Err(value(t.holes[k].wire).error)
    decreases k
  {
    if k > 0 {
      assert value(t.holes[0].wire).Ok?;
      FirstProblem(t.(holes := t.holes[1..]), value, k - 1);
    }
  }

  /** With every placeholder standing for itself, the template comes out as it went in. */
  lemma {:induction false} SpelledAsItself(holes: seq<Hole>, rest: string)
    ensures Spelled(holes, seq(|holes|, i requires 0 <= i < |holes| => "{" + holes[i].wire + "}"), rest) == Print(holes, rest)
  {
    if holes != [] {
      var own := seq(|holes|, i requires 0 <= i < |holes| => "{" + holes[i].wire + "}");
      var h, more := holes[0], holes[1..];
      assert own[1..] == seq(|more|, i requires 0 <= i < |more| => "{" + more[i].wire + "}");
      SpelledAsItself(more, rest);
      assert h.before + ("{" + h.wire + "}") + Print(more, rest) == Whole(h, Print(more, rest));
    }
  }

  /** With an encoder that escapes braces, no placeholder can be left in the path, whatever the values. */
  lemma {:induction false} NoBraceIsLeft(t: Template, value: string -> Result<string, PathError>)
    requires Filled(t, value).Ok?
    requires PlainHoles(t.holes) && (t.closed ==> '{' !in t.rest)
    requires forall w :: value(w).Ok? ==> '{' !in value(w).value
    ensures '{' !in Filled(t, value).value
    decreases |t.holes|
  {
    if t.holes != [] {
      assert Plain(t.holes[0]);
      NoBraceIsLeft(t.(holes := t.holes[1..]), value);
    }
  }

  /** So the assertion that ends rendering never fails. */
  lemma RenderedPathIsComplete(template: string, params: seq<Param>, g: Given, encode: Encoder)
    requires Filled(Lex(template), Values(params, g, encode)).Ok?
    requires forall v, b :: '{' !in encode(v, b)
    ensures '{' !in Filled(Lex(template), Values(params, g, encode)).value
  {
    PrintLex(template);
    NoBraceIsLeft(Lex(template), Values(params, g, encode));
  }
}
