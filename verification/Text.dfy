/**
 Strings as sequences of Unicode scalar values: the order `str` compares by, white space,
 trimming, and the left-to-right `replace`.
 */
module Text {

  /** `char::is_whitespace`: the Unicode White_Space property. */
  predicate IsSpace(c: char) {
    || '\t' <= c <= '\r'
    || c == ' '
    || c == '\U{0085}'
    || c == '\U{00A0}'
    || c == '\U{1680}'
    || '\U{2000}' <= c <= '\U{200A}'
    || c == '\U{2028}'
    || c == '\U{2029}'
    || c == '\U{202F}'
    || c == '\U{205F}'
    || c == '\U{3000}'
  }

  function TrimStart(s: string): string {
    if s != "" && IsSpace(s[0]) then TrimStart(s[1..]) else s
  }

  function TrimEnd(s: string): string {
    if s != "" && IsSpace(s[|s| - 1]) then TrimEnd(s[..|s| - 1]) else s
  }

  function Trim(s: string): string {
    TrimEnd(TrimStart(s))
  }

  /** The words `split_whitespace` yields. */
  function WhitespaceWords(s: string): seq<string> {
    if s == "" then []
    else if IsSpace(s[0]) then WhitespaceWords(s[1..])
    else
      var n := WordLength(s);
      [s[..n]] + WhitespaceWords(s[n..])
  }

  /** How many leading characters of `s` are not white space. */
  function WordLength(s: string): (n: nat)
    ensures n <= |s|
    ensures forall i :: 0 <= i < n ==> !IsSpace(s[i])
    ensures n == |s| || IsSpace(s[n])
    ensures s != "" && !IsSpace(s[0]) ==> n > 0
  {
    if s == "" || IsSpace(s[0]) then 0 else 1 + WordLength(s[1..])
  }

  predicate StartsWithDash(s: string) {
    s != "" && s[0] == '-'
  }

  // ------------------------------------------------------------------ order

  /** `<` on `str`. UTF-8 keeps code point order, so comparing characters is comparing bytes. */
  predicate Less(a: string, b: string) {
    if b == "" then false
    else if a == "" then true
    else if a[0] == b[0] then Less(a[1..], b[1..])
    else a[0] < b[0]
  }

  lemma {:induction false} LessTrichotomy(a: string, b: string)
    ensures (if Less(a, b) then 1 else 0) + (if Less(b, a) then 1 else 0) + (if a == b then 1 else 0) == 1
  {
    if a != "" && b != "" && a[0] == b[0] {
      LessTrichotomy(a[1..], b[1..]);
      assert a == [a[0]] + a[1..] && b == [b[0]] + b[1..];
    }
  }

  lemma {:induction false} LessTransitive(a: string, b: string, c: string)
    requires Less(a, b) && Less(b, c)
    ensures Less(a, c)
  {
    if a != "" && a[0] == b[0] == c[0] {
      LessTransitive(a[1..], b[1..], c[1..]);
    }
  }

  predicate IsLeast(k: string, s: set<string>) {
    k in s && forall x :: x in s ==> x == k || Less(k, x)
  }

  lemma {:induction false} LeastExists(s: set<string>) returns (k: string)
    requires s != {}
    ensures IsLeast(k, s)
    decreases s
  {
    var x :| x in s;
    if s == {x} {
      k := x;
    } else {
      assert s - {x} != {};
      var y := LeastExists(s - {x});
      LessTrichotomy(x, y);
      k := if Less(x, y) then x else y;
      forall z | z in s ensures z == k || Less(k, z) {
        if Less(x, y) && z != x && z != y {
          LessTransitive(x, y, z);
        }
      }
    }
  }

  lemma LeastIsUnique(s: set<string>)
    requires s != {}
    ensures exists k :: k in s && IsLeast(k, s)
    ensures forall j, k :: IsLeast(j, s) && IsLeast(k, s) ==> j == k
  {
    var least := LeastExists(s);
    forall j, k | IsLeast(j, s) && IsLeast(k, s) ensures j == k {
      LessTrichotomy(j, k);
    }
  }

  function Least(s: set<string>): (k: string)
    requires s != {}
    ensures IsLeast(k, s)
  {
    LeastIsUnique(s);
    var k :| k in s && IsLeast(k, s);
    k
  }

  ghost predicate Increasing(r: seq<string>) {
    forall i, j :: 0 <= i < j < |r| ==> Less(r[i], r[j])
  }

  /** The members of `s` in ascending order, as an ordered map lists its keys. */
  function InOrder(s: set<string>): (r: seq<string>)
    ensures forall k :: k in r <==> k in s
    ensures Increasing(r)
  {
    if s == {} then [] else [Least(s)] + InOrder(s - {Least(s)})
  }

  lemma SameEmptiness<T>(a: seq<T>, b: seq<T>)
    requires forall k :: k in a <==> k in b
    ensures a == [] <==> b == []
  {
    if |a| > 0 {
      assert a[0] in a;
    }
    if |b| > 0 {
      assert b[0] in b;
    }
  }

  /** There is one ascending list of the members of a set. */
  lemma {:induction false} IncreasingIsDetermined(a: seq<string>, b: seq<string>)
    requires Increasing(a) && Increasing(b) && forall k :: k in a <==> k in b
    ensures a == b
  {
    SameEmptiness(a, b);
    if a != [] {
      assert a[0] in b && b[0] in a;
      LessTrichotomy(a[0], b[0]);
      LessTrichotomy(a[0], a[0]);
      assert a[0] == b[0];
      forall k ensures k in a[1..] <==> k in b[1..] {
        assert k in a[1..] <==> k in a && k != a[0];
        assert k in b[1..] <==> k in b && k != b[0];
      }
      IncreasingIsDetermined(a[1..], b[1..]);
    }
  }

  /** The order of pairs of strings. */
  predicate PairLess(a: (string, string), b: (string, string)) {
    Less(a.0, b.0) || (a.0 == b.0 && Less(a.1, b.1))
  }

  lemma PairTrichotomy(a: (string, string), b: (string, string))
    ensures (if PairLess(a, b) then 1 else 0) + (if PairLess(b, a) then 1 else 0) + (if a == b then 1 else 0) == 1
  {
    LessTrichotomy(a.0, b.0);
    LessTrichotomy(a.1, b.1);
  }

  lemma PairTransitive(a: (string, string), b: (string, string), c: (string, string))
    requires PairLess(a, b) && PairLess(b, c)
    ensures PairLess(a, c)
  {
    LessTrichotomy(a.0, b.0);
    LessTrichotomy(b.0, c.0);
    if a.0 == b.0 == c.0 {
      LessTransitive(a.1, b.1, c.1);
    } else if a.0 != b.0 && b.0 != c.0 {
      LessTransitive(a.0, b.0, c.0);
    }
  }

  // --------------------------------------------------------------- substrings

  /** The first position of `c`, or the length. */
  function IndexOf(s: string, c: char): (i: nat)
    ensures i <= |s|
    ensures i < |s| ==> s[i] == c
    ensures forall j :: 0 <= j < i ==> s[j] != c
  {
    if s == "" || s[0] == c then 0 else 1 + IndexOf(s[1..], c)
  }

  /** `pat` occurs in `s` at index `i`. */
  predicate OccursAt(s: string, pat: string, i: nat) {
    i + |pat| <= |s| && s[i..i + |pat|] == pat
  }

  ghost predicate Contains(s: string, pat: string) {
    exists i: nat :: OccursAt(s, pat, i)
  }

  /** `str::replace`: every non-overlapping occurrence, found from the left. */
  function Replace(s: string, pat: string, with: string): string
    requires pat != ""
  {
    if s == "" then ""
    else if pat <= s then with + Replace(s[|pat|..], pat, with)
    else [s[0]] + Replace(s[1..], pat, with)
  }

  /** `str::find`: the first index at which `pat` occurs, or -1. */
  function Find(s: string, pat: string): int {
    FindFrom(s, pat, 0)
  }

  function FindFrom(s: string, pat: string, i: nat): (r: int)
    ensures r == -1 || (i <= r && OccursAt(s, pat, r))
    ensures forall j: nat :: i <= j && (r == -1 || j < r) ==> !OccursAt(s, pat, j)
    decreases |s| - i
  {
    if i + |pat| > |s| then -1
    else if OccursAt(s, pat, i) then i
    else FindFrom(s, pat, i + 1)
  }

  lemma ContainsFind(s: string, pat: string)
    ensures Contains(s, pat) <==> Find(s, pat) >= 0
  {
    if Find(s, pat) >= 0 {
      assert OccursAt(s, pat, Find(s, pat));
    }
  }

  // --------------------------------------------------------------------- numerals

  function Digit(d: nat): char
    requires d < 10
  {
    '0' + d as char
  }

  function Decimal(n: nat): (s: string)
    ensures s != ""
    ensures |s| == 1 <==> n < 10
  {
    if n < 10 then [Digit(n)] else Decimal(n / 10) + [Digit(n % 10)]
  }

  lemma {:induction false} DecimalIsInjective(m: nat, n: nat)
    requires Decimal(m) == Decimal(n)
    ensures m == n
  {
    var a, b := Decimal(m), Decimal(n);
    assert a[|a| - 1] == Digit(m % 10) && b[|b| - 1] == Digit(n % 10);
    assert m < 10 <==> n < 10;
    if m >= 10 {
      assert Decimal(m / 10) == a[..|a| - 1] && Decimal(n / 10) == b[..|b| - 1];
      DecimalIsInjective(m / 10, n / 10);
    }
  }

  // ------------------------------------------------------------ splitting and joining

  /** The pieces between occurrences of `c`; always at least one. */
  function SplitOn(s: string, c: char): (r: seq<string>)
    ensures r != []
  {
    if s == "" then [""]
    else
      var rest := SplitOn(s[1..], c);
      if s[0] == c then [""] + rest else [[s[0]] + rest[0]] + rest[1..]
  }

  function Joined(pieces: seq<string>, c: char): string
    requires pieces != []
  {
    if |pieces| == 1 then pieces[0] else pieces[0] + [c] + Joined(pieces[1..], c)
  }

  /** Splitting at the `c` in front of `tail` yields `piece` first. */
  lemma {:induction false} SplitFirst(piece: string, tail: string, c: char)
    requires c !in piece
    ensures SplitOn(piece + [c] + tail, c) == [piece] + SplitOn(tail, c)
  {
    var s := piece + [c] + tail;
    if piece == "" {
      assert s[1..] == tail;
    } else {
      assert s[1..] == piece[1..] + [c] + tail;
      SplitFirst(piece[1..], tail, c);
      assert [piece[0]] + piece[1..] == piece;
    }
  }

  lemma {:induction false} SplitWhole(piece: string, c: char)
    requires c !in piece
    ensures SplitOn(piece, c) == [piece]
  {
    if piece != "" {
      SplitWhole(piece[1..], c);
      assert [piece[0]] + piece[1..] == piece;
    }
  }

  predicate WithoutChar(pieces: seq<string>, c: char) {
    forall i :: 0 <= i < |pieces| ==> c !in pieces[i]
  }

  lemma {:induction false} SplitUndoesJoin(pieces: seq<string>, c: char)
    requires pieces != [] && WithoutChar(pieces, c)
    ensures SplitOn(Joined(pieces, c), c) == pieces
  {
    if |pieces| == 1 {
      SplitWhole(pieces[0], c);
    } else {
      SplitUndoesJoin(pieces[1..], c);
      SplitFirst(pieces[0], Joined(pieces[1..], c), c);
    }
  }

  lemma {:induction false} JoinUndoesSplit(s: string, c: char)
    ensures WithoutChar(SplitOn(s, c), c) && s == Joined(SplitOn(s, c), c)
  {
    if s != "" {
      JoinUndoesSplit(s[1..], c);
    }
  }
}
