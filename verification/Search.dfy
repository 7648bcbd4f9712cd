/** `fjo raw search`: matching words against operations and ranking what matches. */
module Search {
  import opened Text
  import opened Sequences

  datatype Op = Op(group: string, command: string, summary: string, path: string)

  datatype Hit = Hit(op: Op, score: nat)

  // --------------------------------------------------------------------- normalizing

  function NormalizeChar(c: char): char {
    if c in {'-', '_', '/', '{', '}', '.'} then ' '
    else if 'A' <= c <= 'Z' then 'a' + (c - 'A')
    else c
  }

  function Normalize(s: string): string {
    seq(|s|, i requires 0 <= i < |s| => NormalizeChar(s[i]))
  }

  predicate IsSeparator(c: char) {
    c == '-' || c == '_' || c == '/' || c == '{' || c == '}' || c == '.'
  }

  predicate IsUpper(c: char) {
    'A' <= c <= 'Z'
  }

  /** Both part words, or both are the same letter, great or small. */
  predicate Alike(c: char, d: char) {
    || c == d
    || ((c == ' ' || IsSeparator(c)) && (d == ' ' || IsSeparator(d)))
    || (IsUpper(c) && d as int - 'a' as int == c as int - 'A' as int)
    || (IsUpper(d) && c as int - 'a' as int == d as int - 'A' as int)
  }

  lemma NormalizeCharMeaning(c: char, d: char)
    ensures NormalizeChar(c) == NormalizeChar(d) <==> Alike(c, d)
    ensures NormalizeChar(c) == c <==> !IsUpper(c) && !IsSeparator(c)
    ensures NormalizeChar(NormalizeChar(c)) == NormalizeChar(c)
  {
  }

  /**
   Two texts are searched alike exactly when they differ in case and in what separates words only;
   each is searched as the one of them in lower case with spaces.
   */
  lemma NormalizeMeaning(s: string, t: string)
    ensures Normalize(s) == Normalize(t) <==> |s| == |t| && forall i :: 0 <= i < |s| ==> Alike(s[i], t[i])
    ensures Normalize(s) == s <==> forall i :: 0 <= i < |s| ==> !IsUpper(s[i]) && !IsSeparator(s[i])
    ensures Normalize(Normalize(s)) == Normalize(s)
  {
    forall i | 0 <= i < |s| && i < |t| ensures Normalize(s)[i] == Normalize(t)[i] <==> Alike(s[i], t[i]) {
      NormalizeCharMeaning(s[i], t[i]);
    }
    forall i | 0 <= i < |s| ensures Normalize(s)[i] == s[i] <==> !IsUpper(s[i]) && !IsSeparator(s[i]) {
      NormalizeCharMeaning(s[i], s[i]);
    }
    assert |Normalize(s)| == |s| && |Normalize(t)| == |t|;
    assert Normalize(Normalize(s)) == Normalize(s);
  }

  // -------------------------------------------------------------------- subsequences

  /** Each character of `needle` is looked for in what the previous one left of `hay`. */
  predicate IsSubsequence(hay: string, needle: string)
    decreases |needle|
  {
    needle == ""
    || var i := IndexOf(hay, needle[0]); i < |hay| && IsSubsequence(hay[i + 1..], needle[1..])
  }

  /** `at` places the characters of `needle` in `hay`, from left to right. */
  ghost predicate Embeds(hay: string, needle: string, at: seq<nat>) {
    && |at| == |needle|
    && (forall k :: 0 <= k < |at| ==> at[k] < |hay| && hay[at[k]] == needle[k])
    && (forall j, k :: 0 <= j < k < |at| ==> at[j] < at[k])
  }

  ghost predicate Embeddable(hay: string, needle: string) {
    exists at :: Embeds(hay, needle, at)
  }

  /** An embedding into a suffix, seen in the whole. */
  lemma EmbedsInWhole(hay: string, needle: string, i: nat, at: seq<nat>)
    requires needle != "" && i < |hay| && hay[i] == needle[0]
    requires Embeds(hay[i + 1..], needle[1..], at)
    ensures Embeddable(hay, needle)
  {
    var all := seq(|needle|, k requires 0 <= k < |needle| => if k == 0 then i else at[k - 1] + i + 1);
    forall k | 0 <= k < |all| ensures all[k] < |hay| && hay[all[k]] == needle[k] {
      if k > 0 {
        assert hay[i + 1..][at[k - 1]] == needle[1..][k - 1];
      }
    }
    assert Embeds(hay, needle, all);
  }

  lemma EmbedsInSuffix(hay: string, needle: string, i: nat, at: seq<nat>)
    requires needle != "" && Embeds(hay, needle, at) && i <= at[0]
    ensures Embeddable(hay[i + 1..], needle[1..])
  {
    var rest := seq(|needle| - 1, k requires 0 <= k < |needle| - 1 => assert at[0] < at[k + 1]; at[k + 1] - i - 1);
    forall k | 0 <= k < |rest| ensures rest[k] < |hay[i + 1..]| && hay[i + 1..][rest[k]] == needle[1..][k] {
      assert at[0] < at[k + 1];
    }
    assert Embeds(hay[i + 1..], needle[1..], rest);
  }

  /** Taking the earliest character each time misses no embedding. */
  lemma {:induction false} IsSubsequenceMeaning(hay: string, needle: string)
    ensures IsSubsequence(hay, needle) <==> Embeddable(hay, needle)
    decreases |needle|
  {
    if needle == "" {
      assert Embeds(hay, needle, []);
    } else {
      var i := IndexOf(hay, needle[0]);
      if i < |hay| {
        IsSubsequenceMeaning(hay[i + 1..], needle[1..]);
        if IsSubsequence(hay, needle) {
          var at :| Embeds(hay[i + 1..], needle[1..], at);
          EmbedsInWhole(hay, needle, i, at);
        }
      }
      if Embeddable(hay, needle) {
        var at :| Embeds(hay, needle, at);
        assert hay[at[0]] == needle[0];
        assert i <= at[0];
        EmbedsInSuffix(hay, needle, i, at);
      }
    }
  }

  lemma SubstringEmbeds(hay: string, needle: string)
    requires Contains(hay, needle)
    ensures Embeddable(hay, needle)
  {
    var i: nat :| OccursAt(hay, needle, i);
    var at := seq(|needle|, k requires 0 <= k < |needle| => i + k);
    forall k | 0 <= k < |needle| ensures hay[at[k]] == needle[k] {
      assert hay[i..i + |needle|][k] == needle[k];
    }
    assert Embeds(hay, needle, at);
  }

  // ------------------------------------------------------------------------ scoring

  function Score(hay: string, needle: string, weight: nat): nat {
    var at := Find(hay, needle);
    if at == 0 then weight * 6
    else if at > 0 then if hay[at - 1] == ' ' then weight * 5 else weight * 4
    else if IsSubsequence(hay, needle) then weight
    else 0
  }

  /** What a score says about the match, for any positive weight. */
  lemma ScoreMeaning(hay: string, needle: string, weight: nat)
    requires weight > 0
    ensures Score(hay, needle, weight) > 0 <==> Embeddable(hay, needle)
    ensures Score(hay, needle, weight) >= 4 * weight <==> Contains(hay, needle)
    ensures Score(hay, needle, weight) <= 6 * weight
    ensures Score(hay, needle, weight) == 6 * weight <==> needle <= hay
    ensures Score(hay, needle, weight) in {0, weight, 4 * weight, 5 * weight, 6 * weight}
    ensures !Contains(hay, needle) ==> Score(hay, needle, weight) <= weight
  {
    ContainsFind(hay, needle);
    IsSubsequenceMeaning(hay, needle);
    if Contains(hay, needle) {
      SubstringEmbeds(hay, needle);
    }
    if needle <= hay {
      assert OccursAt(hay, needle, 0);
    }
  }

  /** The first occurrence of `needle` is at `i`, not at the start of the text but of a word. */
  predicate FirstAtWordStart(hay: string, needle: string, i: nat) {
    0 < i < |hay| && OccursAt(hay, needle, i) && hay[i - 1] == ' ' && forall j: nat :: j < i ==> !OccursAt(hay, needle, j)
  }

  /** Five weights are for a first occurrence that starts a word. */
  lemma WordStartScores(hay: string, needle: string, weight: nat)
    requires weight > 0 && needle != ""
    ensures Score(hay, needle, weight) == 5 * weight <==> exists i :: FirstAtWordStart(hay, needle, i)
  {
    var at := Find(hay, needle);
    if Score(hay, needle, weight) == 5 * weight {
      assert at > 0 && FirstAtWordStart(hay, needle, at);
    }
    if i :| FirstAtWordStart(hay, needle, i) {
      assert at == i;
    }
  }

  /** Only the first occurrence is looked at, so a later one at the start of a word earns nothing extra. */
  lemma OnlyTheFirstOccurrenceCounts()
    ensures OccursAt("blog log", "log", 5) && "blog log"[4] == ' '
    ensures Score("blog log", "log", 1) == 4
  {
    var hay, needle := "blog log", "log";
    assert hay[1..4] == needle && hay[5..8] == needle;
    assert OccursAt(hay, needle, 1) && !OccursAt(hay, needle, 0) by {
      assert hay[0..3][0] == 'b';
    }
    ContainsFind(hay, needle);
  }

  function Max(a: nat, b: nat): nat {
    if a < b then b else a
  }

  /** The best score of one word over the four fields. */
  function Best(op: Op, needle: string): nat {
    Max(Max(Score(Normalize(op.command), needle, 6), Score(Normalize(op.group), needle, 3)),
        Max(Score(Normalize(op.summary), needle, 3), Score(Normalize(op.path), needle, 2)))
  }

  function TotalScore(op: Op, needles: seq<string>): nat {
    if needles == [] then 0 else TotalScore(op, needles[..|needles| - 1]) + Best(op, needles[|needles| - 1])
  }

  /** The fields with their weights. */
  function Weighted(op: Op): seq<(string, nat)> {
    [(op.command, 6), (op.group, 3), (op.summary, 3), (op.path, 2)]
  }

  /** It is the score in some field, and no other field scores more. */
  lemma BestMeaning(op: Op, needle: string)
    ensures forall f :: f in Weighted(op) ==> Score(Normalize(f.0), needle, f.1) <= Best(op, needle)
    ensures exists f :: f in Weighted(op) && Score(Normalize(f.0), needle, f.1) == Best(op, needle)
  {
    assert Weighted(op)[0] == (op.command, 6) && Weighted(op)[1] == (op.group, 3);
    assert Weighted(op)[2] == (op.summary, 3) && Weighted(op)[3] == (op.path, 2);
  }

  /** Words score one by one, so that their order does not matter. */
  lemma {:induction false} TotalIsSum(op: Op, a: seq<string>, b: seq<string>)
    ensures TotalScore(op, a + b) == TotalScore(op, a) + TotalScore(op, b)
    ensures b != [] && |b| == 1 ==> TotalScore(op, b) == Best(op, b[0])
    decreases |b|
  {
    if b == [] {
      assert a + b == a;
    } else {
      var n := |b| - 1;
      TotalIsSum(op, a, b[..n]);
      assert (a + b)[..|a + b| - 1] == a + b[..n];
    }
  }

  predicate MatchesAll(op: Op, needles: seq<string>) {
    forall n :: n in needles ==> Best(op, n) > 0
  }

  /** The fields of an operation, as they are searched. */
  function Haystacks(op: Op): set<string> {
    {Normalize(op.command), Normalize(op.group), Normalize(op.summary), Normalize(op.path)}
  }

  ghost predicate InSomeField(op: Op, needle: string) {
    exists hay :: hay in Haystacks(op) && Contains(hay, needle)
  }

  lemma FieldScores(op: Op, needle: string)
    ensures var c := Score(Normalize(op.command), needle, 6);
            && (c >= 24 <==> Contains(Normalize(op.command), needle)) && (c > 6 ==> c >= 24)
            && c <= 36 && (c == 36 <==> needle <= Normalize(op.command))
    ensures Score(Normalize(op.group), needle, 3) <= 18
    ensures Score(Normalize(op.summary), needle, 3) <= 18
    ensures Score(Normalize(op.path), needle, 2) <= 12
  {
    ScoreMeaning(Normalize(op.command), needle, 6);
    ScoreMeaning(Normalize(op.group), needle, 3);
    ScoreMeaning(Normalize(op.summary), needle, 3);
    ScoreMeaning(Normalize(op.path), needle, 2);
  }

  /** A word in the command name outweighs anything found elsewhere, and nothing beats starting with it. */
  lemma CommandNameOutweighs(op: Op, needle: string)
    ensures Best(op, needle) >= 24 <==> Contains(Normalize(op.command), needle)
    ensures Best(op, needle) <= 36
    ensures Best(op, needle) == 36 <==> needle <= Normalize(op.command)
  {
    FieldScores(op, needle);
  }

  lemma FieldMeaning(op: Op, needle: string, hay: string, weight: nat)
    requires hay in Haystacks(op) && weight in {2, 3, 6}
    ensures Score(hay, needle, weight) >= 8 ==> InSomeField(op, needle)
    ensures !InSomeField(op, needle) ==> Score(hay, needle, weight) <= 6
    ensures Contains(hay, needle) ==> Score(hay, needle, weight) >= 8
    ensures Score(hay, needle, weight) > 0 <==> Embeddable(hay, needle)
  {
    ScoreMeaning(hay, needle, weight);
  }

  /** A word found as it is, in any field, outweighs any that is merely spread over one. */
  lemma SubstringOutweighs(op: Op, needle: string)
    ensures InSomeField(op, needle) ==> Best(op, needle) >= 8
    ensures !InSomeField(op, needle) ==> Best(op, needle) <= 6
  {
    FieldMeaning(op, needle, Normalize(op.command), 6);
    FieldMeaning(op, needle, Normalize(op.group), 3);
    FieldMeaning(op, needle, Normalize(op.summary), 3);
    FieldMeaning(op, needle, Normalize(op.path), 2);
  }

  ghost predicate SpreadOverSomeField(op: Op, needle: string) {
    exists hay :: hay in Haystacks(op) && Embeddable(hay, needle)
  }

  /** A word counts as matched exactly when its characters appear, in order, in some field. */
  lemma MatchMeaning(op: Op, needle: string)
    ensures Best(op, needle) > 0 <==> SpreadOverSomeField(op, needle)
  {
    FieldMeaning(op, needle, Normalize(op.command), 6);
    FieldMeaning(op, needle, Normalize(op.group), 3);
    FieldMeaning(op, needle, Normalize(op.summary), 3);
    FieldMeaning(op, needle, Normalize(op.path), 2);
  }

  // ------------------------------------------------------------------------ ranking

  function OpKey(o: Op): (string, string) {
    (o.group, o.command)
  }

  /** What hits are ranked by: the score, then the operation's name. */
  function Rank(h: Hit): (nat, (string, string)) {
    (h.score, OpKey(h.op))
  }

  predicate Before(a: Hit, b: Hit) {
    a.score > b.score || (a.score == b.score && PairLess(OpKey(a.op), OpKey(b.op)))
  }

  lemma BeforeTrichotomy(a: Hit, b: Hit)
    ensures (if Before(a, b) then 1 else 0) + (if Before(b, a) then 1 else 0) + (if Rank(a) == Rank(b) then 1 else 0) == 1
  {
    PairTrichotomy(OpKey(a.op), OpKey(b.op));
  }

  lemma BeforeTransitive(a: Hit, b: Hit, c: Hit)
    requires Before(a, b) && !Before(c, b)
    ensures Before(a, c)
  {
    BeforeTrichotomy(b, c);
    if Before(b, c) && a.score == b.score == c.score {
      PairTransitive(OpKey(a.op), OpKey(b.op), OpKey(c.op));
    }
  }

  /** Later hits never rank before earlier ones. */
  ghost predicate Ordered(hits: seq<Hit>) {
    forall i, j :: 0 <= i < j < |hits| ==> !Before(hits[j], hits[i])
  }

  function InsertHit(sorted: seq<Hit>, h: Hit): (r: seq<Hit>)
    ensures multiset(r) == multiset(sorted) + multiset{h}
  {
    if sorted == [] then [h]
    else if Before(h, sorted[0]) then [h] + sorted
    else
      assert sorted == [sorted[0]] + sorted[1..];
      [sorted[0]] + InsertHit(sorted[1..], h)
  }

  /** A stable sort; `SortIsDetermined` says there is no other outcome. */
  function SortHits(hits: seq<Hit>): (r: seq<Hit>)
    ensures multiset(r) == multiset(hits)
  {
    if hits == [] then []
    else
      var n := |hits| - 1;
      assert hits == hits[..n] + [hits[n]];
      InsertHit(SortHits(hits[..n]), hits[n])
  }

  lemma {:induction false} InsertOrdered(s: seq<Hit>, h: Hit)
    requires Ordered(s)
    ensures Ordered(InsertHit(s, h))
  {
    if s != [] {
      if Before(h, s[0]) {
        forall j | 0 <= j < |s| ensures !Before(s[j], h) {
          BeforeTrichotomy(s[0], s[0]);
          assert j == 0 || !Before(s[j], s[0]);
          BeforeTransitive(h, s[0], s[j]);
          BeforeTrichotomy(h, s[j]);
        }
      } else {
        InsertOrdered(s[1..], h);
        var rest := InsertHit(s[1..], h);
        forall j | 0 <= j < |rest| ensures !Before(rest[j], s[0]) {
          assert rest[j] in multiset(rest);
          if rest[j] != h {
            var i :| 0 <= i < |s[1..]| && s[1..][i] == rest[j];
            assert !Before(s[i + 1], s[0]);
          }
        }
      }
    }
  }

  lemma {:induction false} SortOrdered(hits: seq<Hit>)
    ensures Ordered(SortHits(hits))
  {
    if hits != [] {
      SortOrdered(hits[..|hits| - 1]);
      InsertOrdered(SortHits(hits[..|hits| - 1]), hits[|hits| - 1]);
    }
  }

  lemma {:induction false} FilterNone<T>(s: seq<T>, keep: T -> bool)
    requires forall x :: x in s ==> !keep(x)
    ensures Filter(s, keep) == []
  {
    if s != [] {
      FilterNone(s[1..], keep);
    }
  }

  /** A hit goes in behind those it ties with. */
  lemma {:induction false} InsertKeepsTies(s: seq<Hit>, h: Hit, k: (nat, (string, string)))
    requires Ordered(s)
    ensures Filter(InsertHit(s, h), Has(Rank, k)) == Filter(s, Has(Rank, k)) + if Rank(h) == k then [h] else []
  {
    if s != [] {
      if Before(h, s[0]) {
        assert ([h] + s)[1..] == s;
        if Rank(h) == k {
          forall x | x in s ensures Rank(x) != k {
            var j :| 0 <= j < |s| && s[j] == x;
            BeforeTrichotomy(s[0], s[0]);
            assert j == 0 || !Before(s[j], s[0]);
            BeforeTransitive(h, s[0], x);
            BeforeTrichotomy(h, x);
          }
          FilterNone(s, Has(Rank, k));
        }
      } else {
        InsertKeepsTies(s[1..], h, k);
        assert ([s[0]] + InsertHit(s[1..], h))[1..] == InsertHit(s[1..], h);
      }
    }
  }

  lemma SortTie(sorted: seq<Hit>, hits: seq<Hit>, k: (nat, (string, string)))
    requires hits != [] && Ordered(sorted)
    requires Filter(sorted, Has(Rank, k)) == Filter(hits[..|hits| - 1], Has(Rank, k))
    ensures Filter(InsertHit(sorted, hits[|hits| - 1]), Has(Rank, k)) == Filter(hits, Has(Rank, k))
  {
    var init, last := hits[..|hits| - 1], hits[|hits| - 1];
    InsertKeepsTies(sorted, last, k);
    FilterSnoc(init, last, Has(Rank, k));
    assert hits == init + [last];
  }

  lemma {:induction false} SortKeepsTie(hits: seq<Hit>, k: (nat, (string, string)))
    ensures Filter(SortHits(hits), Has(Rank, k)) == Filter(hits, Has(Rank, k))
  {
    if hits != [] {
      SortKeepsTie(hits[..|hits| - 1], k);
      SortOrdered(hits[..|hits| - 1]);
      SortTie(SortHits(hits[..|hits| - 1]), hits, k);
    }
  }

  /** Hits that tie stay in the order in which they were found. */
  lemma SortKeepsTies(hits: seq<Hit>)
    ensures SameByKey(SortHits(hits), hits, Rank)
  {
    forall k ensures Filter(SortHits(hits), Has(Rank, k)) == Filter(hits, Has(Rank, k)) {
      SortKeepsTie(hits, k);
    }
  }

  lemma HeadsAgree(a: seq<Hit>, b: seq<Hit>)
    requires a != [] && Ordered(a) && Ordered(b) && SameByKey(a, b, Rank)
    ensures b != [] && a[0] == b[0] && SameByKey(a[1..], b[1..], Rank)
  {
    var i := FirstInOther(a, b, Rank);
    var j := FirstInOther(b, a, Rank);
    assert j == 0 || !Before(a[j], a[0]);
    assert i == 0 || !Before(b[i], b[0]);
    BeforeTrichotomy(a[0], b[0]);
    assert Without(b, 0) == b[1..];
  }

  /** Two ordered rankings that agree within every tie are the same. */
  lemma {:induction false} SortIsDetermined(a: seq<Hit>, b: seq<Hit>)
    requires Ordered(a) && Ordered(b) && SameByKey(a, b, Rank)
    ensures a == b
  {
    if a == [] {
      EmptyByKey(b, Rank);
    } else {
      HeadsAgree(a, b);
      SortIsDetermined(a[1..], b[1..]);
      assert a == [a[0]] + a[1..] && b == [b[0]] + b[1..];
    }
  }

  // ---------------------------------------------------------------------- searching

  /** The words to look for: normalized, blank ones left out. */
  function Needles(terms: seq<string>): seq<string> {
    if terms == [] then []
    else
      var t := Normalize(terms[0]);
      if Trim(t) == "" then Needles(terms[1..]) else [t] + Needles(terms[1..])
  }

  /** The term is more than separators and white space. */
  predicate IsWord(term: string) {
    Trim(Normalize(term)) != ""
  }

  /**
   Every term that is a word is looked for, normalized, once for each time it is given and in that
   order: `at` lists where they stand.
   */
  lemma NeedlesMeaning(terms: seq<string>) returns (at: seq<nat>)
    ensures Places(at, terms, IsWord)
    ensures Needles(terms) == seq(|at|, k requires 0 <= k < |at| => Normalize(terms[at[k]]))
  {
    NeedlesAreFiltered(terms);
    at := FilterMeaning(terms, IsWord);
  }

  lemma {:induction false} NeedlesAreFiltered(terms: seq<string>)
    ensures Needles(terms) == Mapped(Filter(terms, IsWord), Normalize)
  {
    if terms != [] {
      NeedlesAreFiltered(terms[1..]);
    }
  }

  lemma NeedleExactly(terms: seq<string>, needle: string)
    ensures needle in Needles(terms) <==> exists i :: 0 <= i < |terms| && IsWord(terms[i]) && Normalize(terms[i]) == needle
  {
    var at := NeedlesMeaning(terms);
    if needle in Needles(terms) {
      var k :| 0 <= k < |at| && Normalize(terms[at[k]]) == needle;
      assert IsWord(terms[at[k]]);
    }
    if i :| 0 <= i < |terms| && IsWord(terms[i]) && Normalize(terms[i]) == needle {
      var k :| 0 <= k < |at| && at[k] == i;
      assert Needles(terms)[k] == needle;
    }
  }

  function HitsOf(ops: seq<Op>, needles: seq<string>): seq<Hit> {
    if ops == [] then []
    else
      var n := |ops| - 1;
      var op := ops[n];
      if MatchesAll(op, needles) then HitsOf(ops[..n], needles) + [Hit(op, TotalScore(op, needles))]
      else HitsOf(ops[..n], needles)
  }

  function Truncated<T>(s: seq<T>, limit: nat): seq<T> {
    if |s| <= limit then s else s[..limit]
  }

  function Ranking(ops: seq<Op>, terms: seq<string>, limit: nat): seq<Hit> {
    if Needles(terms) == [] then [] else Truncated(SortHits(HitsOf(ops, Needles(terms))), limit)
  }

  /** The loop over the words: nothing when one of them does not match. */
  method Rate(op: Op, needles: seq<string>) returns (total: nat, matchedAll: bool)
    ensures matchedAll == MatchesAll(op, needles)
    ensures matchedAll ==> total == TotalScore(op, needles)
  {
    total, matchedAll := 0, true;
    for i := 0 to |needles|
      invariant total == TotalScore(op, needles[..i])
      invariant MatchesAll(op, needles[..i])
    {
      assert needles[..i + 1][..i] == needles[..i];
      var best := Best(op, needles[i]);
      if best == 0 {
        matchedAll := false;
        return;
      }
      total := total + best;
    }
    assert needles[..|needles|] == needles;
  }

  method Search(ops: seq<Op>, terms: seq<string>, limit: nat) returns (hits: seq<Hit>)
    ensures hits == Ranking(ops, terms, limit)
  {
    var needles := Needles(terms);
    if needles == [] {
      return [];
    }
    hits := [];
    for i := 0 to |ops|
      invariant hits == HitsOf(ops[..i], needles)
    {
      assert ops[..i + 1][..i] == ops[..i];
      var total, matchedAll := Rate(ops[i], needles);
      if matchedAll {
        hits := hits + [Hit(ops[i], total)];
      }
    }
    assert ops[..|ops|] == ops;
    hits := SortHits(hits);
    if |hits| > limit {
      hits := hits[..limit];
    }
  }

  lemma {:induction false} HitsMeaning(ops: seq<Op>, needles: seq<string>, h: Hit)
    ensures h in HitsOf(ops, needles) <==> h.op in ops && MatchesAll(h.op, needles) && h.score == TotalScore(h.op, needles)
  {
    if ops != [] {
      var n := |ops| - 1;
      HitsMeaning(ops[..n], needles, h);
      assert ops == ops[..n] + [ops[n]];
    }
  }

  /** What truncation keeps, and what it drops. */
  lemma Dropped<T>(s: seq<T>, limit: nat) returns (rest: seq<T>)
    ensures s == Truncated(s, limit) + rest
    ensures |Truncated(s, limit)| <= limit && (rest != [] ==> |Truncated(s, limit)| == limit)
  {
    rest := if |s| <= limit then [] else s[limit..];
  }

  /**
   The outcome is the best `limit` matches: together with some `rest` it is every matching
   operation with its score, nothing in `rest` ranks before anything shown, and there is a `rest`
   only when the limit is used up.
   */
  lemma SearchIsBest(ops: seq<Op>, terms: seq<string>, limit: nat) returns (rest: seq<Hit>)
    requires Needles(terms) != []
    ensures var shown := Ranking(ops, terms, limit);
            && multiset(shown) + multiset(rest) == multiset(HitsOf(ops, Needles(terms)))
            && Ordered(shown)
            && (forall x, y :: x in shown && y in rest ==> !Before(y, x))
            && |shown| <= limit && (rest != [] ==> |shown| == limit)
  {
    var needles := Needles(terms);
    var all, shown := SortHits(HitsOf(ops, needles)), Ranking(ops, terms, limit);
    rest := Dropped(all, limit);
    SortOrdered(HitsOf(ops, needles));
    OrderedSplit(shown, rest);
  }

  lemma OrderedSplit(shown: seq<Hit>, rest: seq<Hit>)
    requires Ordered(shown + rest)
    ensures Ordered(shown) && forall x, y :: x in shown && y in rest ==> !Before(y, x)
  {
    var all := shown + rest;
    forall i, j | 0 <= i < j < |shown| ensures !Before(shown[j], shown[i]) {
      assert all[i] == shown[i] && all[j] == shown[j];
    }
    forall x, y | x in shown && y in rest ensures !Before(y, x) {
      var i :| 0 <= i < |shown| && shown[i] == x;
      var j :| 0 <= j < |rest| && rest[j] == y;
      assert all[i] == x && all[|shown| + j] == y;
    }
  }

  /** A matching operation is left out only when the limit is used up on operations that do not rank after it. */
  lemma LeftOutRanksLast(ops: seq<Op>, terms: seq<string>, limit: nat, op: Op)
    requires Needles(terms) != [] && op in ops && MatchesAll(op, Needles(terms))
    ensures var h, shown := Hit(op, TotalScore(op, Needles(terms))), Ranking(ops, terms, limit);
            h in shown || (|shown| == limit && forall x :: x in shown ==> !Before(h, x))
  {
    var h := Hit(op, TotalScore(op, Needles(terms)));
    HitsMeaning(ops, Needles(terms), h);
    var rest := SearchIsBest(ops, terms, limit);
    assert h in multiset(HitsOf(ops, Needles(terms)));
    assert h in multiset(Ranking(ops, terms, limit)) + multiset(rest);
  }

  /** Every term that is a word appears in some field, its characters in order. */
  ghost predicate Answers(op: Op, terms: seq<string>) {
    forall i :: 0 <= i < |terms| && IsWord(terms[i]) ==> SpreadOverSomeField(op, Normalize(terms[i]))
  }

  lemma AnswersExactly(op: Op, terms: seq<string>)
    ensures MatchesAll(op, Needles(terms)) <==> Answers(op, terms)
  {
    forall n ensures Best(op, n) > 0 <==> SpreadOverSomeField(op, n) {
      MatchMeaning(op, n);
    }
    forall n ensures n in Needles(terms) <==> exists i :: 0 <= i < |terms| && IsWord(terms[i]) && Normalize(terms[i]) == n {
      NeedleExactly(terms, n);
    }
  }

  /** An operation is a hit exactly when it answers to all of the terms. */
  lemma HitExactly(ops: seq<Op>, terms: seq<string>, op: Op)
    ensures (exists h :: h in HitsOf(ops, Needles(terms)) && h.op == op) <==> op in ops && Answers(op, terms)
  {
    AnswersExactly(op, terms);
    forall h ensures h in HitsOf(ops, Needles(terms)) <==>
                     h.op in ops && MatchesAll(h.op, Needles(terms)) && h.score == TotalScore(h.op, Needles(terms))
    {
      HitsMeaning(ops, Needles(terms), h);
    }
    if op in ops && Answers(op, terms) {
      assert Hit(op, TotalScore(op, Needles(terms))) in HitsOf(ops, Needles(terms));
    }
  }

  /** Every operation shown answers to all of the terms. */
  lemma ShownMatches(ops: seq<Op>, terms: seq<string>, limit: nat, h: Hit)
    requires h in Ranking(ops, terms, limit)
    ensures h.op in ops && Answers(h.op, terms)
  {
    var hits := HitsOf(ops, Needles(terms));
    assert h in SortHits(hits);
    assert h in multiset(SortHits(hits)) && h in hits;
    HitExactly(ops, terms, h.op);
  }

  /** Without a word to look for nothing is shown, not everything. */
  lemma NothingToLookFor(ops: seq<Op>, terms: seq<string>, limit: nat)
    requires forall i :: 0 <= i < |terms| ==> !IsWord(terms[i])
    ensures Ranking(ops, terms, limit) == []
  {
    if Needles(terms) != [] {
      NeedleExactly(terms, Needles(terms)[0]);
    }
  }

  /** And every one that does is shown, in its place, when the limit allows for all of them. */
  lemma AllAnswersAreShown(ops: seq<Op>, terms: seq<string>, limit: nat, op: Op)
    requires op in ops && Answers(op, terms) && |ops| <= limit
    requires exists i :: 0 <= i < |terms| && IsWord(terms[i])
    ensures exists h :: h in Ranking(ops, terms, limit) && h.op == op
  {
    HitExactly(ops, terms, op);
    var h :| h in HitsOf(ops, Needles(terms)) && h.op == op;
    var i :| 0 <= i < |terms| && IsWord(terms[i]);
    NeedleExactly(terms, Normalize(terms[i]));
    NoMoreHits(ops, Needles(terms));
    var sorted := SortHits(HitsOf(ops, Needles(terms)));
    assert |sorted| == |multiset(sorted)| == |multiset(HitsOf(ops, Needles(terms)))|;
    assert h in multiset(sorted);
  }

  lemma {:induction false} NoMoreHits(ops: seq<Op>, needles: seq<string>)
    ensures |HitsOf(ops, needles)| <= |ops|
  {
    if ops != [] {
      NoMoreHits(ops[..|ops| - 1], needles);
    }
  }

  // ------------------------------------------------------- independence of table order

  ghost predicate DistinctNames(ops: seq<Op>) {
    forall i, j :: 0 <= i < j < |ops| ==> OpKey(ops[i]) != OpKey(ops[j])
  }

  ghost predicate StrictlyOrdered(hits: seq<Hit>) {
    forall i, j :: 0 <= i < j < |hits| ==> Before(hits[i], hits[j])
  }

  /** Operations with different names never tie. */
  lemma {:induction false} NeverTied(ops: seq<Op>, needles: seq<string>)
    requires DistinctNames(ops)
    ensures StrictlyOrdered(SortHits(HitsOf(ops, needles)))
  {
    if ops != [] {
      var n := |ops| - 1;
      NeverTied(ops[..n], needles);
      var hits := HitsOf(ops[..n], needles);
      if MatchesAll(ops[n], needles) {
        var h := Hit(ops[n], TotalScore(ops[n], needles));
        assert (hits + [h])[..|hits|] == hits;
        forall x | x in SortHits(hits) ensures Rank(x) != Rank(h) {
          assert x in multiset(hits);
          HitsMeaning(ops[..n], needles, x);
        }
        InsertStrictly(SortHits(hits), h);
      }
    }
  }

  lemma {:induction false} InsertStrictly(s: seq<Hit>, h: Hit)
    requires StrictlyOrdered(s) && forall x :: x in s ==> Rank(x) != Rank(h)
    ensures StrictlyOrdered(InsertHit(s, h))
  {
    if s != [] {
      BeforeTrichotomy(h, s[0]);
      if Before(h, s[0]) {
        forall j | 0 <= j < |s| ensures Before(h, s[j]) {
          if j > 0 {
            BeforeTrichotomy(s[0], s[j]);
            BeforeTransitive(h, s[0], s[j]);
          }
        }
      } else {
        InsertStrictly(s[1..], h);
        var rest := InsertHit(s[1..], h);
        forall j | 0 <= j < |rest| ensures Before(s[0], rest[j]) {
          assert rest[j] in multiset(rest);
          if rest[j] != h {
            var i :| 0 <= i < |s[1..]| && s[1..][i] == rest[j];
            assert Before(s[0], s[i + 1]);
          }
        }
      }
    }
  }

  lemma {:induction false} StrictIsDetermined(a: seq<Hit>, b: seq<Hit>)
    requires StrictlyOrdered(a) && StrictlyOrdered(b) && forall h :: h in a <==> h in b
    ensures a == b
  {
    SameEmptiness(a, b);
    if a != [] {
      assert a[0] in b && b[0] in a;
      BeforeTrichotomy(a[0], b[0]);
      assert a[0] == b[0];
      StrictTail(a);
      StrictTail(b);
      forall h ensures h in a[1..] <==> h in b[1..] {
        assert h in a <==> h in b;
      }
      StrictIsDetermined(a[1..], b[1..]);
    }
  }

  lemma StrictTail(a: seq<Hit>)
    requires a != [] && StrictlyOrdered(a)
    ensures forall h :: h in a[1..] <==> h in a && h != a[0]
  {
    BeforeTrichotomy(a[0], a[0]);
    assert forall j :: 1 <= j < |a| ==> a[1..][j - 1] == a[j] && Before(a[0], a[j]);
  }

  /** However the table is ordered, the same operations give the same result. */
  lemma SearchIgnoresTableOrder(a: seq<Op>, b: seq<Op>, terms: seq<string>, limit: nat)
    requires DistinctNames(a) && DistinctNames(b) && forall o :: o in a <==> o in b
    ensures Ranking(a, terms, limit) == Ranking(b, terms, limit)
  {
    var needles := Needles(terms);
    var x, y := SortHits(HitsOf(a, needles)), SortHits(HitsOf(b, needles));
    NeverTied(a, needles);
    NeverTied(b, needles);
    forall h ensures h in x <==> h in y {
      HitsMeaning(a, needles, h);
      HitsMeaning(b, needles, h);
      assert h in multiset(x) <==> h in multiset(HitsOf(a, needles));
      assert h in multiset(y) <==> h in multiset(HitsOf(b, needles));
    }
    StrictIsDetermined(x, y);
  }

  // --------------------------------------------------------------- what ranks first

  /** Word for word at least as good, and better for one of them. */
  lemma {:induction false} BetterEverywhere(a: Op, b: Op, needles: seq<string>)
    requires needles != [] && forall n :: n in needles ==> Best(a, n) > Best(b, n)
    ensures TotalScore(a, needles) > TotalScore(b, needles)
  {
    var init, last := needles[..|needles| - 1], needles[|needles| - 1];
    assert Best(a, last) > Best(b, last);
    if init != [] {
      BetterEverywhere(a, b, init);
    }
  }

  /** Operations that hold every word as it is come before those that hold none of them so. */
  lemma SubstringsComeFirst(a: Hit, b: Hit, needles: seq<string>)
    requires needles != [] && a.score == TotalScore(a.op, needles) && b.score == TotalScore(b.op, needles)
    requires forall n :: n in needles ==> InSomeField(a.op, n) && !InSomeField(b.op, n)
    ensures Before(a, b)
  {
    forall n | n in needles ensures Best(a.op, n) > Best(b.op, n) {
      SubstringOutweighs(a.op, n);
      SubstringOutweighs(b.op, n);
    }
    BetterEverywhere(a.op, b.op, needles);
  }

  /** Operations named by every word come before those whose name holds none of them, whatever their summaries say. */
  lemma CommandNamesComeFirst(a: Hit, b: Hit, needles: seq<string>)
    requires needles != [] && a.score == TotalScore(a.op, needles) && b.score == TotalScore(b.op, needles)
    requires forall n :: n in needles ==> Contains(Normalize(a.op.command), n) && !Contains(Normalize(b.op.command), n)
    ensures Before(a, b)
  {
    forall n | n in needles ensures Best(a.op, n) > Best(b.op, n) {
      CommandNameOutweighs(a.op, n);
      CommandNameOutweighs(b.op, n);
    }
    BetterEverywhere(a.op, b.op, needles);
  }
}
