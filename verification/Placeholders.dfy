/**
 The guard that lets a Go template be read as JSON: finding its placeholders, checking them, and
 substituting the two known ones.
 */
module Placeholders {
  import opened Text

  const OPEN := "{{"
  const CLOSE := "}}"
  const SUB_URL := "{{AppSubUrl | JSEscape}}"
  const VERSION := "{{AppVer | JSEscape}}"
  const EXPECTED: seq<string> := [SUB_URL, VERSION]

  /** Every `{{ ... }}`, in order; an unterminated one runs to the end. */
  function PlaceholdersIn(s: string): seq<string>
    decreases |s|
  {
    var start := Find(s, OPEN);
    if start == -1 then []
    else
      var after := s[start..];
      var end := Find(after, CLOSE);
      if end == -1 then [after] else [after[..end + 2]] + PlaceholdersIn(after[end + 2..])
  }

  method FindPlaceholders(s: string) returns (out: seq<string>)
    ensures out == PlaceholdersIn(s)
  {
    out := [];
    var rest := s;
    var done := false;
    while !done
      invariant out + (if done then [] else PlaceholdersIn(rest)) == PlaceholdersIn(s)
      decreases !done, |rest|
    {
      var start := Find(rest, OPEN);
      if start == -1 {
        done := true;
      } else {
        var after := rest[start..];
        var end := Find(after, CLOSE);
        if end == -1 {
          out := out + [after];
          done := true;
        } else {
          out := out + [after[..end + 2]];
          rest := after[end + 2..];
        }
      }
    }
  }

  /** The first `{{` begins a placeholder; without a `}}` behind it that runs to the end of the text. */
  lemma UnterminatedRunsOn(s: string, i: nat)
    requires Find(s, OPEN) == i <= |s| && Find(s[i..], CLOSE) == -1
    ensures PlaceholdersIn(s) == [s[i..]]
  {
  }

  /** With one it ends there, and the search goes on behind it. */
  lemma PlaceholderEnds(s: string, after: string, n: nat)
    requires 0 <= Find(s, OPEN) <= |s| && after == s[Find(s, OPEN)..] && Find(after, CLOSE) == n
    ensures n + 2 <= |after| && PlaceholdersIn(s) == [after[..n + 2]] + PlaceholdersIn(after[n + 2..])
  {
  }

  datatype Verdict = Accepted | Unexpected(names: set<string>) | WrongCount(count: nat)

  /** How often each placeholder occurs. */
  method CountPlaceholders(found: seq<string>) returns (counts: map<string, nat>)
    ensures forall p :: p in counts <==> p in found
    ensures forall p :: p in counts ==> counts[p] == multiset(found)[p]
  {
    counts := map[];
    for i := 0 to |found|
      invariant forall p :: p in counts <==> p in found[..i]
      invariant forall p :: p in counts ==> counts[p] == multiset(found[..i])[p]
    {
      assert found[..i + 1] == found[..i] + [found[i]];
      var before := if found[i] in counts then counts[found[i]] else 0;
      assert found[i] !in counts ==> multiset(found[..i])[found[i]] == 0;
      counts := counts[found[i] := before + 1];
    }
    assert found[..|found|] == found;
  }

  method CheckPlaceholders(s: string) returns (r: Verdict)
    ensures r == Accepted <==> Passes(s)
    ensures r.Unexpected? ==> r.names != {} && r.names == set p | p in PlaceholdersIn(s) && p !in EXPECTED
    ensures r.Unexpected? <==> exists p :: p in PlaceholdersIn(s) && p !in EXPECTED
    ensures r.WrongCount? ==> r.count == |PlaceholdersIn(s)| != |EXPECTED|
  {
    var found := FindPlaceholders(s);
    var counts := CountPlaceholders(found);
    var unexpected := set p | p in counts.Keys && p !in EXPECTED;
    if unexpected != {} {
      assert unexpected == set p | p in found && p !in EXPECTED;
      assert exists p :: p in found && p !in EXPECTED;
      return Unexpected(unexpected);
    }
    forall i | 0 <= i < |found| ensures found[i] in EXPECTED {
      var f := found[i];
      assert f in counts;
      assert f !in EXPECTED ==> f in unexpected;
    }
    if |found| != |EXPECTED| {
      return WrongCount(|found|);
    }
    return Accepted;
  }

  /** All placeholders are known ones, and there are as many as there are known ones. */
  ghost predicate Passes(s: string) {
    var found := PlaceholdersIn(s);
    |found| == |EXPECTED| && forall i :: 0 <= i < |found| ==> found[i] in EXPECTED
  }

  // ------------------------------------------------------------------ text between them

  ghost predicate NoOpen(s: string) {
    forall i :: 0 <= i < |s| - 1 ==> !(s[i] == '{' && s[i + 1] == '{')
  }

  /** No `{{` inside, and no `{` at the end that a following one could complete. */
  ghost predicate Clean(s: string) {
    NoOpen(s) && (s != "" ==> s[|s| - 1] != '{')
  }

  /** `{{`, a text without braces, `}}`. */
  ghost predicate IsTag(p: string) {
    && |p| >= 4 && p[..2] == "{{" && p[|p| - 2..] == "}}"
    && forall i :: 2 <= i < |p| - 2 ==> p[i] != '{' && p[i] != '}'
  }

  lemma ExpectedAreTags()
    ensures IsTag(SUB_URL) && IsTag(VERSION) && SUB_URL != VERSION
  {
    assert |SUB_URL| == 24 && |VERSION| == 21;
  }

  lemma TwoBraces(s: string, c: char, i: nat)
    ensures OccursAt(s, [c, c], i) <==> i + 1 < |s| && s[i] == c && s[i + 1] == c
  {
    if i + 2 <= |s| {
      assert s[i..i + 2] == [s[i], s[i + 1]];
    }
  }

  lemma FindOpenMeaning(s: string)
    ensures var i := Find(s, OPEN);
            if i == -1 then NoOpen(s)
            else 0 <= i && i + 1 < |s| && s[i] == '{' && s[i + 1] == '{' && Clean(s[..i])
  {
    var i := Find(s, OPEN);
    assert OPEN == ['{', '{'];
    forall j: nat ensures OccursAt(s, OPEN, j) <==> j + 1 < |s| && s[j] == '{' && s[j + 1] == '{' {
      TwoBraces(s, '{', j);
    }
    if i == -1 {
      forall j | 0 <= j < |s| - 1 ensures !(s[j] == '{' && s[j + 1] == '{') {
        assert !OccursAt(s, OPEN, j);
      }
    } else {
      forall j | 0 <= j < i ensures !(s[j] == '{' && s[j + 1] == '{') {
        assert !OccursAt(s, OPEN, j);
      }
    }
  }

  /** The first `{{` after clean text is the one that follows it. */
  lemma FindOpenIs(a: string, rest: string)
    requires Clean(a) && |rest| >= 2 && rest[0] == '{' && rest[1] == '{'
    ensures Find(a + rest, OPEN) == |a|
  {
    var s := a + rest;
    assert OPEN == ['{', '{'];
    TwoBraces(s, '{', |a|);
    forall j: nat | j < |a| ensures !OccursAt(s, OPEN, j) {
      TwoBraces(s, '{', j);
    }
  }

  lemma FindCloseIs(p: string, rest: string)
    requires IsTag(p)
    ensures Find(p + rest, CLOSE) == |p| - 2
  {
    var s := p + rest;
    assert CLOSE == ['}', '}'];
    assert p[|p| - 2] == p[|p| - 2..][0] && p[|p| - 1] == p[|p| - 2..][1];
    TwoBraces(s, '}', |p| - 2);
    forall j: nat | j < |p| - 2 ensures !OccursAt(s, CLOSE, j) {
      TwoBraces(s, '}', j);
      assert p[0] == p[..2][0] && p[1] == p[..2][1];
    }
  }

  lemma TagHead(p: string)
    requires IsTag(p)
    ensures p[0] == '{' && p[1] == '{' && forall i :: 2 <= i < |p| ==> p[i] != '{'
  {
    assert p[0] == p[..2][0] && p[1] == p[..2][1];
    assert p[|p| - 2] == p[|p| - 2..][0] && p[|p| - 1] == p[|p| - 2..][1];
  }

  /** Clean text, a tag, and the rest: the tag is found first. */
  lemma PlaceholdersAfter(a: string, p: string, rest: string)
    requires Clean(a) && IsTag(p)
    ensures PlaceholdersIn(a + (p + rest)) == [p] + PlaceholdersIn(rest)
  {
    var s := a + (p + rest);
    TagHead(p);
    FindOpenIs(a, p + rest);
    assert s[|a|..] == p + rest;
    FindCloseIs(p, rest);
    assert (p + rest)[..|p|] == p && (p + rest)[|p|..] == rest;
  }

  lemma NoPlaceholders(s: string)
    ensures PlaceholdersIn(s) == [] <==> NoOpen(s)
  {
    FindOpenMeaning(s);
    assert NoOpen(s) ==> Find(s, OPEN) == -1;
  }

  /** A template taken apart at two tags. */
  datatype Parts = Parts(a: string, p: string, b: string, q: string, c: string)

  function Whole(x: Parts): string {
    x.a + (x.p + (x.b + (x.q + x.c)))
  }

  ghost predicate Splits(x: Parts, s: string) {
    Whole(x) == s && Clean(x.a) && Clean(x.b) && NoOpen(x.c) && x.p in EXPECTED && x.q in EXPECTED
  }

  /** The first placeholder found, taken off the template. */
  lemma TakeFirst(s: string) returns (a: string, rest: string)
    requires PlaceholdersIn(s) != [] && IsTag(PlaceholdersIn(s)[0])
    ensures var p := PlaceholdersIn(s)[0];
            s == a + (p + rest) && Clean(a) && PlaceholdersIn(s)[1..] == PlaceholdersIn(rest)
  {
    FindOpenMeaning(s);
    var start := Find(s, OPEN);
    var after := s[start..];
    var end := Find(after, CLOSE);
    if end == -1 {
      Unterminated(after);
    }
    a, rest := s[..start], after[end + 2..];
    assert PlaceholdersIn(s) == [after[..end + 2]] + PlaceholdersIn(rest);
    assert after == after[..end + 2] + rest;
  }

  lemma Unterminated(s: string)
    requires Find(s, CLOSE) == -1
    ensures !IsTag(s)
  {
    assert s + "" == s;
    if IsTag(s) {
      FindCloseIs(s, "");
    }
  }

  /**
   What the guard really accepts: any two occurrences of known placeholders, in clean text. Nothing
   makes them be the two different ones.
   */
  lemma GuardMeaning(s: string)
    ensures Passes(s) <==> exists x :: Splits(x, s)
  {
    ExpectedAreTags();
    if Passes(s) {
      var found := PlaceholdersIn(s);
      assert found[0] in EXPECTED && found[1] in EXPECTED;
      var a, rest := TakeFirst(s);
      assert PlaceholdersIn(rest)[0] == found[1];
      var b, c := TakeFirst(rest);
      assert PlaceholdersIn(c) == [];
      NoPlaceholders(c);
      assert Splits(Parts(a, found[0], b, found[1], c), s);
    }
    if x :| Splits(x, s) {
      SplitFound(x, s);
    }
  }

  lemma SplitFound(x: Parts, s: string)
    requires Splits(x, s)
    ensures PlaceholdersIn(s) == [x.p, x.q]
  {
    ExpectedAreTags();
    PlaceholdersAfter(x.a, x.p, x.b + (x.q + x.c));
    PlaceholdersAfter(x.b, x.q, x.c);
    NoPlaceholders(x.c);
  }

  /** A template with one placeholder twice passes, though its documentation says otherwise. */
  lemma RepeatedPlaceholderPasses(s: string)
    requires s == VERSION + VERSION
    ensures Passes(s) && SUB_URL !in PlaceholdersIn(s)
  {
    var x := Parts("", VERSION, "", VERSION, "");
    assert Whole(x) == s;
    assert Splits(x, s);
    GuardMeaning(s);
    SplitFound(x, s);
    ExpectedAreTags();
  }

  /** The documented guard, each known placeholder exactly once, holds when the two found differ. */
  lemma DocumentedGuard(s: string)
    requires Passes(s)
    ensures multiset(PlaceholdersIn(s)) == multiset(EXPECTED) <==> PlaceholdersIn(s)[0] != PlaceholdersIn(s)[1]
  {
    var found := PlaceholdersIn(s);
    ExpectedAreTags();
    assert found == [found[0], found[1]];
    assert found[0] in EXPECTED && found[1] in EXPECTED;
    assert multiset(found) == multiset{found[0], found[1]} && multiset(EXPECTED) == multiset{SUB_URL, VERSION};
    if found[0] == found[1] {
      assert multiset(found)[found[0]] == 2 && multiset(EXPECTED)[found[0]] == 1;
    }
  }

  // -------------------------------------------------------------------- substituting

  /** The two replacements of `canonicalize`, one after the other. */
  function Substitute(template: string, version: string): string {
    Replace(Replace(template, VERSION, version), SUB_URL, "")
  }

  lemma {:induction false} ReplaceAfterClean(a: string, rest: string, pat: string, with: string)
    requires Clean(a) && IsTag(pat)
    ensures Replace(a + rest, pat, with) == a + Replace(rest, pat, with)
    decreases |a|
  {
    if a == "" {
      assert a + rest == rest;
    } else {
      var tail, more := a[1..], Replace(rest, pat, with);
      CleanTail(a);
      NoTagBeforeEnd(a, rest, pat);
      ReplaceStep(a + rest, pat, with);
      HeadAndTail(a, rest);
      HeadAndTail(a, more);
      ReplaceAfterClean(tail, rest, pat, with);
    }
  }

  lemma HeadAndTail(a: string, rest: string)
    requires a != ""
    ensures (a + rest)[0] == a[0] && (a + rest)[1..] == a[1..] + rest && a + rest == [a[0]] + (a[1..] + rest)
  {
  }

  lemma NoTagBeforeEnd(a: string, rest: string, pat: string)
    requires Clean(a) && a != "" && IsTag(pat)
    ensures !(pat <= a + rest)
  {
    CleanTail(a);
    NoTagHere(pat, a + rest);
  }

  lemma CleanTail(a: string)
    requires Clean(a) && a != ""
    ensures Clean(a[1..]) && (|a| == 1 || a[0] != '{' || a[1] != '{') && (|a| == 1 ==> a[0] != '{')
  {
  }

  lemma ReplaceStep(s: string, pat: string, with: string)
    requires s != "" && pat != "" && !(pat <= s)
    ensures Replace(s, pat, with) == [s[0]] + Replace(s[1..], pat, with)
  {
  }

  lemma {:induction false} ReplaceNothing(c: string, pat: string, with: string)
    requires NoOpen(c) && IsTag(pat)
    ensures Replace(c, pat, with) == c
  {
    if c != "" {
      NoTagHere(pat, c);
      ReplaceNothing(c[1..], pat, with);
    }
  }

  /** A text that does not start with `{{` does not start with a tag. */
  lemma NoTagHere(pat: string, s: string)
    requires IsTag(pat) && (|s| < 2 || s[0] != '{' || s[1] != '{')
    ensures !(pat <= s)
  {
    TagHead(pat);
  }

  /** A text starts with at most one tag. */
  lemma OneTagHere(p: string, rest: string, pat: string)
    requires IsTag(p) && IsTag(pat) && pat <= p + rest
    ensures p == pat
  {
    var s := p + rest;
    var after := s[|pat|..];
    assert s == pat + after;
    FindCloseIs(p, rest);
    FindCloseIs(pat, after);
    assert s[..|p|] == p && s[..|pat|] == pat;
  }

  lemma ReplaceTag(p: string, rest: string, pat: string, with: string)
    requires IsTag(p) && IsTag(pat)
    ensures Replace(p + rest, pat, with) == (if p == pat then with else p) + Replace(rest, pat, with)
  {
    var s := p + rest;
    if p == pat {
      assert s[|p|..] == rest;
    } else {
      if pat <= s {
        OneTagHere(p, rest, pat);
      }
      ReplaceOther(p, rest, pat, with);
    }
  }

  lemma ReplaceOther(p: string, rest: string, pat: string, with: string)
    requires IsTag(p) && IsTag(pat) && !(pat <= p + rest)
    ensures Replace(p + rest, pat, with) == p + Replace(rest, pat, with)
  {
    var s, two := p + rest, p[2..];
    TagHead(p);
    ReplaceStep(s, pat, with);
    var one := s[1..];
    assert one[0] == '{' && one[1] == p[2] != '{';
    NoTagHere(pat, one);
    ReplaceStep(one, pat, with);
    assert one[1..] == two + rest;
    ReplaceAfterClean(two, rest, pat, with);
    assert p == ['{'] + (['{'] + two);
  }

  /** Replacing one tag in a template taken apart. */
  lemma ReplaceParts(x: Parts, pat: string, with: string)
    requires Clean(x.a) && Clean(x.b) && NoOpen(x.c) && IsTag(pat)
    requires IsTag(x.p) || Clean(x.p)
    requires IsTag(x.q) || Clean(x.q)
    ensures Replace(Whole(x), pat, with)
         == Whole(x.(p := if x.p == pat then with else x.p, q := if x.q == pat then with else x.q))
  {
    TagHead(pat);
    ReplaceNothing(x.c, pat, with);
    ReplaceMiddle(x.q, x.c, pat, with);
    ReplaceAfterClean(x.b, x.q + x.c, pat, with);
    ReplaceMiddle(x.p, x.b + (x.q + x.c), pat, with);
    ReplaceAfterClean(x.a, x.p + (x.b + (x.q + x.c)), pat, with);
  }

  lemma ReplaceMiddle(p: string, rest: string, pat: string, with: string)
    requires IsTag(pat) && (IsTag(p) || Clean(p))
    ensures Replace(p + rest, pat, with) == (if p == pat then with else p) + Replace(rest, pat, with)
  {
    if IsTag(p) {
      ReplaceTag(p, rest, pat, with);
    } else {
      ReplaceAfterClean(p, rest, pat, with);
    }
  }

  lemma CleanParts(a: string, b: string)
    requires Clean(a)
    ensures Clean(b) ==> Clean(a + b)
    ensures NoOpen(b) ==> NoOpen(a + b)
  {
    var s := a + b;
    if NoOpen(b) {
      forall i | 0 <= i < |s| - 1 ensures !(s[i] == '{' && s[i + 1] == '{') {
        if i >= |a| {
          assert s[i] == b[i - |a|] && s[i + 1] == b[i + 1 - |a|];
        }
      }
    }
  }

  function Filled(p: string, version: string): string {
    if p == VERSION then version else ""
  }

  /**
   A template that passes the guard, filled in with a version that holds no `{`: both
   placeholders are gone, all other text is kept, and no `{{` is left or has come into being.
   */
  lemma SubstitutionIsComplete(template: string, version: string, x: Parts)
    requires Splits(x, template) && '{' !in version
    ensures Substitute(template, version)
         == Whole(Parts(x.a, Filled(x.p, version), x.b, Filled(x.q, version), x.c))
    ensures NoOpen(Substitute(template, version)) && PlaceholdersIn(Substitute(template, version)) == []
  {
    ExpectedAreTags();
    var y := x.(p := if x.p == VERSION then version else x.p, q := if x.q == VERSION then version else x.q);
    ReplaceParts(x, VERSION, version);
    TagHead(SUB_URL);
    ReplaceParts(y, SUB_URL, "");
    var z := Parts(x.a, Filled(x.p, version), x.b, Filled(x.q, version), x.c);
    assert Substitute(template, version) == Whole(z);
    CleanParts(z.q, z.c);
    CleanParts(z.b, z.q + z.c);
    CleanParts(z.p, z.b + (z.q + z.c));
    CleanParts(z.a, z.p + (z.b + (z.q + z.c)));
    NoPlaceholders(Whole(z));
  }

  /** The same for every template the guard lets through. */
  lemma GuardedTemplateIsFilled(template: string, version: string)
    requires Passes(template) && '{' !in version
    ensures !Contains(Substitute(template, version), OPEN)
  {
    GuardMeaning(template);
    var x :| Splits(x, template);
    SubstitutionIsComplete(template, version, x);
    var s := Substitute(template, version);
    assert OPEN == ['{', '{'];
    forall i: nat ensures !OccursAt(s, OPEN, i) {
      TwoBraces(s, '{', i);
    }
  }
}
