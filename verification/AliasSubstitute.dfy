/**
 `$1`..`$9` substitution in the words of an alias expansion.

 What one word becomes is described position by position: each character of the template
 contributes a piece that depends only on the template around it, so the text of an argument is
 never looked at again.
 */
module AliasSubstitute {
  import opened Wrappers

  /** A placeholder starts at position `p` of `w`. */
  predicate IsRef(w: string, p: int) {
    0 <= p && p + 1 < |w| && w[p] == '$' && '1' <= w[p + 1] <= '9'
  }

  /** Which argument the placeholder at `p` names, counting from zero. */
  function RefIndex(w: string, p: int): (i: nat)
    requires IsRef(w, p)
    ensures i < 9
  {
    w[p + 1] as int - '1' as int
  }

  /** What position `p` of the template contributes to the text. */
  function Piece(w: string, args: seq<string>, p: nat): string
    requires p < |w|
  {
    if IsRef(w, p) then (if RefIndex(w, p) < |args| then args[RefIndex(w, p)] else "")
    else if IsRef(w, p - 1) then ""
    else [w[p]]
  }

  /** The pieces of the first `n` positions, in order. */
  function Rendered(w: string, args: seq<string>, n: nat): string
    requires n <= |w|
  {
    if n == 0 then "" else Rendered(w, args, n - 1) + Piece(w, args, n - 1)
  }

  /** A placeholder for argument `i` starts before position `n` of `w`. */
  ghost predicate RefersBefore(w: string, n: int, i: int) {
    exists p :: p < n && IsRef(w, p) && RefIndex(w, p) == i
  }

  ghost predicate Refers(words: seq<string>, i: int) {
    exists k :: 0 <= k < |words| && RefersBefore(words[k], |words[k]|, i)
  }

  /** The placeholders are `$1` to `$9`, which name the first to the ninth argument. */
  lemma RefExactly(w: string, p: nat, n: nat)
    requires p + 2 <= |w|
    ensures (IsRef(w, p) && RefIndex(w, p) == n) <==>
            n < 9 && w[p..p + 2] == ["$1", "$2", "$3", "$4", "$5", "$6", "$7", "$8", "$9"][n]
  {
    assert w[p..p + 2] == [w[p], w[p + 1]];
  }

  /** Words that name an argument that was not given. */
  ghost predicate Missing(words: seq<string>, args: seq<string>) {
    exists i :: i >= |args| && Refers(words, i)
  }

  /** The arguments not marked as used; only the first nine can be marked. */
  function Leftovers(args: seq<string>, used: seq<bool>): seq<string> {
    if args == [] then []
    else
      var last := |args| - 1;
      Leftovers(args[..last], used) + (if last < |used| && used[last] then [] else [args[last]])
  }

  /** `used` marks exactly the arguments that `words` refer to. */
  ghost predicate Marks(used: seq<bool>, words: seq<string>) {
    |used| == 9 && forall i :: 0 <= i < 9 ==> (used[i] <==> Refers(words, i))
  }

  ghost function MarksOf(words: seq<string>): (used: seq<bool>)
    ensures Marks(used, words)
  {
    seq(9, i => Refers(words, i))
  }

  /** The first missing argument met when reading `w` from `p` on, counting from one; zero if none. */
  function FirstMissing(w: string, args: seq<string>, p: nat): nat
    requires p <= |w|
    decreases |w| - p
  {
    if p == |w| then 0
    else if IsRef(w, p) && RefIndex(w, p) >= |args| then RefIndex(w, p) + 1
    else FirstMissing(w, args, p + 1)
  }

  function FirstMissingIn(words: seq<string>, args: seq<string>): nat {
    if words == [] then 0
    else if FirstMissing(words[0], args, 0) > 0 then FirstMissing(words[0], args, 0)
    else FirstMissingIn(words[1..], args)
  }

  /** What a substitution yields: the words, and the arguments that are appended after them. */
  datatype Outcome = Outcome(words: seq<string>, leftover: seq<string>)

  /** `Err(n)`: the words need at least `n` arguments. */
  ghost function Substituted(words: seq<string>, args: seq<string>): Result<Outcome, nat> {
    var n := FirstMissingIn(words, args);
    if n > 0 then Err(n)
    else Ok(Outcome(
      seq(|words|, k requires 0 <= k < |words| => Rendered(words[k], args, |words[k]|)),
      Leftovers(args, MarksOf(words))))
  }

  /** The inner loop: one word, marking the arguments it uses. */
  method SubstituteWord(w: string, args: seq<string>, used: array<bool>) returns (r: Result<string, nat>)
    requires used.Length == 9
    modifies used
    ensures r == if FirstMissing(w, args, 0) > 0 then Err(FirstMissing(w, args, 0)) else Ok(Rendered(w, args, |w|))
    ensures r.Ok? ==> forall i :: 0 <= i < 9 ==> (used[i] <==> old(used[i]) || RefersBefore(w, |w|, i))
  {
    var rendered := "";
    var p := 0;
    while p < |w|
      invariant p <= |w| && !IsRef(w, p - 1)
      invariant rendered == Rendered(w, args, p)
      invariant FirstMissing(w, args, p) == FirstMissing(w, args, 0)
      invariant forall i :: 0 <= i < 9 ==> (used[i] <==> old(used[i]) || RefersBefore(w, p, i))
    {
      var c := w[p];
      if c == '$' && p + 1 < |w| && '1' <= w[p + 1] <= '9' {
        var idx := w[p + 1] as int - '1' as int;
        assert IsRef(w, p) && !IsRef(w, p + 1);
        if idx >= |args| {
          return Err(idx + 1);
        }
        PieceOfRef(w, args, p);
        RefersStep(w, p, 2);
        used[idx] := true;
        rendered := rendered + args[idx];
        p := p + 2;
      } else {
        RefersStep(w, p, 1);
        rendered := rendered + [c];
        p := p + 1;
      }
    }
    return Ok(rendered);
  }

  lemma PieceOfRef(w: string, args: seq<string>, p: nat)
    requires IsRef(w, p) && RefIndex(w, p) < |args|
    ensures Rendered(w, args, p + 2) == Rendered(w, args, p) + args[RefIndex(w, p)]
  {
    assert !IsRef(w, p + 1);
    assert Rendered(w, args, p + 1) == Rendered(w, args, p) + args[RefIndex(w, p)];
    assert Piece(w, args, p + 1) == "";
  }

  method Substitute(words: seq<string>, args: seq<string>) returns (r: Result<Outcome, nat>)
    ensures r == Substituted(words, args)
  {
    var used := new bool[9](_ => false);
    var out: seq<string> := [];
    var k := 0;
    assert words[0..] == words;
    while k < |words|
      invariant k <= |words|
      invariant IsRendered(out, words, args, k)
      invariant FirstMissingIn(words[k..], args) == FirstMissingIn(words, args)
      invariant MarksSoFar(used[..], words, k)
    {
      MissingFirst(words, args, k);
      MarksStep(words, k);
      var rendered := SubstituteWord(words[k], args, used);
      if rendered.Err? {
        return Err(rendered.error);
      }
      out := out + [rendered.value];
      k := k + 1;
    }
    assert words[..k] == words && words[k..] == [];
    MarksAreDetermined(words, used[..]);
    RenderedIsAll(out, words, args);
    return Ok(Outcome(out, Leftovers(args, used[..])));
  }

  /** The first `k` words rendered. */
  predicate IsRendered(out: seq<string>, words: seq<string>, args: seq<string>, k: nat) {
    |out| == k <= |words| && forall j :: 0 <= j < k ==> out[j] == Rendered(words[j], args, |words[j]|)
  }

  /** `used` marks what the first `k` words refer to. */
  ghost predicate MarksSoFar(used: seq<bool>, words: seq<string>, k: nat) {
    k <= |words| && Marks(used, words[..k])
  }

  lemma MarksStep(words: seq<string>, k: nat)
    requires k < |words|
    ensures forall i :: Refers(words[..k + 1], i) <==> Refers(words[..k], i) || RefersBefore(words[k], |words[k]|, i)
  {
    RefersAppend(words[..k], words[k]);
    assert words[..k + 1] == words[..k] + [words[k]];
  }

  lemma RenderedIsAll(out: seq<string>, words: seq<string>, args: seq<string>)
    requires IsRendered(out, words, args, |words|)
    ensures out == seq(|words|, k requires 0 <= k < |words| => Rendered(words[k], args, |words[k]|))
  {
  }

  lemma MarksAreDetermined(words: seq<string>, used: seq<bool>)
    requires Marks(used, words)
    ensures used == MarksOf(words)
  {
  }

  lemma MissingFirst(words: seq<string>, args: seq<string>, k: nat)
    requires k < |words|
    ensures FirstMissingIn(words[k..], args) ==
            if FirstMissing(words[k], args, 0) > 0 then FirstMissing(words[k], args, 0)
            else FirstMissingIn(words[k + 1..], args)
  {
    assert words[k..][0] == words[k] && words[k..][1..] == words[k + 1..];
  }

  lemma RefersStep(w: string, p: nat, step: nat)
    requires p < |w| && step == (if IsRef(w, p) then 2 else 1)
    ensures forall i :: RefersBefore(w, p + step, i) <==>
                        RefersBefore(w, p, i) || (IsRef(w, p) && RefIndex(w, p) == i)
  {
    assert IsRef(w, p) ==> !IsRef(w, p + 1);
    forall i ensures RefersBefore(w, p + step, i) <==>
                     RefersBefore(w, p, i) || (IsRef(w, p) && RefIndex(w, p) == i)
    {
      if IsRef(w, p) && RefIndex(w, p) == i {
        assert RefersBefore(w, p + step, i);
      }
    }
  }

  lemma RefersAppend(words: seq<string>, w: string)
    ensures forall i :: Refers(words + [w], i) <==> Refers(words, i) || RefersBefore(w, |w|, i)
  {
    var all := words + [w];
    forall i ensures Refers(all, i) <==> Refers(words, i) || RefersBefore(w, |w|, i) {
      if Refers(words, i) {
        var k :| 0 <= k < |words| && RefersBefore(words[k], |words[k]|, i);
        assert all[k] == words[k];
      }
      if RefersBefore(w, |w|, i) {
        assert all[|words|] == w;
      }
    }
  }

  // --------------------------------------------------------------- what it means

  lemma {:induction false} FirstMissingMeaning(w: string, args: seq<string>, p: nat)
    requires p <= |w|
    ensures var n := FirstMissing(w, args, p);
            if n == 0 then forall q :: p <= q && IsRef(w, q) ==> RefIndex(w, q) < |args|
            else n > |args| && exists q :: p <= q && IsRef(w, q) && RefIndex(w, q) == n - 1
    decreases |w| - p
  {
    if p < |w| {
      if IsRef(w, p) && RefIndex(w, p) >= |args| {
      } else {
        FirstMissingMeaning(w, args, p + 1);
      }
    }
  }

  /** It fails exactly when a placeholder names an argument beyond those given. */
  lemma {:induction false} SubstituteFails(words: seq<string>, args: seq<string>)
    ensures Substituted(words, args).Err? <==> Missing(words, args)
    ensures Substituted(words, args).Err? ==>
              Substituted(words, args).error > |args| && Refers(words, Substituted(words, args).error - 1)
  {
    if words != [] {
      var w, rest := words[0], words[1..];
      var n := FirstMissing(w, args, 0);
      FirstMissingMeaning(w, args, 0);
      SubstituteFails(rest, args);
      RefersCons(words);
      if n > 0 {
        assert RefersBefore(w, |w|, n - 1);
        assert Missing(words, args);
      } else {
        assert forall i :: i >= |args| ==> !RefersBefore(w, |w|, i);
        assert Missing(words, args) <==> Missing(rest, args);
        assert Substituted(words, args).Err? <==> Substituted(rest, args).Err?;
      }
    }
  }

  lemma RefersCons(words: seq<string>)
    requires words != []
    ensures forall i :: Refers(words, i) <==> RefersBefore(words[0], |words[0]|, i) || Refers(words[1..], i)
  {
    forall i ensures Refers(words, i) <==> RefersBefore(words[0], |words[0]|, i) || Refers(words[1..], i) {
      if Refers(words, i) && !RefersBefore(words[0], |words[0]|, i) {
        var k :| 0 <= k < |words| && RefersBefore(words[k], |words[k]|, i);
        assert words[1..][k - 1] == words[k];
      }
      if Refers(words[1..], i) {
        var k :| 0 <= k < |words[1..]| && RefersBefore(words[1..][k], |words[1..][k]|, i);
        assert words[k + 1] == words[1..][k];
      }
    }
  }

  /** `idx` lists, in increasing order, exactly the indices below `n` that satisfy `p`. */
  ghost predicate Lists(idx: seq<int>, n: nat, p: int -> bool) {
    && (forall a, b :: 0 <= a < b < |idx| ==> idx[a] < idx[b])
    && (forall a :: 0 <= a < |idx| ==> 0 <= idx[a] < n && p(idx[a]))
    && (forall i :: 0 <= i < n && p(i) ==> i in idx)
  }

  lemma {:induction false} LeftoversMeaning(args: seq<string>, used: seq<bool>) returns (idx: seq<int>)
    ensures Lists(idx, |args|, i => !(0 <= i < |used| && used[i]))
    ensures Leftovers(args, used) == seq(|idx|, k requires 0 <= k < |idx| => args[idx[k]])
  {
    if args == [] {
      idx := [];
    } else {
      var last := |args| - 1;
      idx := LeftoversMeaning(args[..last], used);
      ListsOneMore(idx, last, i => !(0 <= i < |used| && used[i]));
      PicksOneMore(args, idx);
      if last >= |used| || !used[last] {
        idx := idx + [last];
      }
    }
  }

  lemma PicksOneMore(args: seq<string>, idx: seq<int>)
    requires args != [] && forall k :: 0 <= k < |idx| ==> 0 <= idx[k] < |args| - 1
    ensures var last := |args| - 1;
            && seq(|idx|, k requires 0 <= k < |idx| => args[..last][idx[k]]) ==
               seq(|idx|, k requires 0 <= k < |idx| => args[idx[k]])
            && seq(|idx| + 1, k requires 0 <= k < |idx| + 1 => args[(idx + [last])[k]]) ==
               seq(|idx|, k requires 0 <= k < |idx| => args[idx[k]]) + [args[last]]
  {
  }

  lemma ListsOneMore(idx: seq<int>, n: nat, p: int -> bool)
    requires Lists(idx, n, p)
    ensures if p(n) then Lists(idx + [n], n + 1, p) else Lists(idx, n + 1, p)
  {
    assert (idx + [n])[|idx|] == n && forall i :: i in idx ==> i in idx + [n];
  }

  /**
   Nothing is lost: the leftovers are, in their order, exactly the arguments no placeholder
   names. An argument from the tenth on is never named.
   */
  lemma LeftoverMeaning(words: seq<string>, args: seq<string>) returns (idx: seq<int>)
    requires Substituted(words, args).Ok?
    ensures Lists(idx, |args|, i => !Refers(words, i))
    ensures forall i :: 9 <= i < |args| ==> i in idx
    ensures Substituted(words, args).value.leftover
         == seq(|idx|, k requires 0 <= k < |idx| => args[idx[k]])
  {
    idx := LeftoversMeaning(args, MarksOf(words));
    RefersBelowNine(words);
  }

  lemma RefersBelowNine(words: seq<string>)
    ensures forall i :: Refers(words, i) ==> 0 <= i < 9
  {
  }

  /** Substitution works on the parts of a word separately, unless it cuts a placeholder in two. */
  lemma {:induction false} RenderedParts(a: string, b: string, w: string, args: seq<string>, n: nat)
    requires w == a + b && n <= |b| && !IsRef(w, |a| - 1)
    ensures Rendered(w, args, |a| + n) == Rendered(a, args, |a|) + Rendered(b, args, n)
  {
    if n > 0 {
      RenderedParts(a, b, w, args, n - 1);
      PieceShift(a, b, args, n - 1);
      Assoc(Rendered(a, args, |a|), Rendered(b, args, n - 1), Piece(b, args, n - 1));
    } else {
      RenderedPrefix(a, b, args, |a|);
      assert Rendered(a, args, |a|) + "" == Rendered(a, args, |a|);
    }
  }

  lemma Assoc(x: string, y: string, z: string)
    ensures (x + y) + z == x + (y + z)
  {
  }

  lemma PieceShift(a: string, b: string, args: seq<string>, k: nat)
    requires k < |b| && !IsRef(a + b, |a| - 1)
    ensures Piece(a + b, args, |a| + k) == Piece(b, args, k)
  {
    var w := a + b;
    assert w[|a| + k] == b[k];
    assert k + 1 < |b| ==> w[|a| + k + 1] == b[k + 1];
    assert k > 0 ==> w[|a| + k - 1] == b[k - 1];
    assert IsRef(w, |a| + k) <==> IsRef(b, k);
    assert k > 0 ==> (IsRef(w, |a| + k - 1) <==> IsRef(b, k - 1));
  }

  lemma {:induction false} RenderedPrefix(a: string, b: string, args: seq<string>, n: nat)
    requires n <= |a| && !IsRef(a + b, |a| - 1)
    ensures Rendered(a + b, args, n) == Rendered(a, args, n)
  {
    if n > 0 {
      RenderedPrefix(a, b, args, n - 1);
      PieceSame(a, b, args, n - 1);
    }
  }

  lemma PieceSame(a: string, b: string, args: seq<string>, k: nat)
    requires k < |a| && !IsRef(a + b, |a| - 1)
    ensures Piece(a + b, args, k) == Piece(a, args, k)
  {
    var w := a + b;
    assert w[k] == a[k] && (k + 1 < |a| ==> w[k + 1] == a[k + 1]) && (k > 0 ==> w[k - 1] == a[k - 1]);
    assert IsRef(w, k) <==> IsRef(a, k);
    assert IsRef(w, k - 1) <==> IsRef(a, k - 1);
  }

  /** The text of an argument lands in the word as it is, even when it reads like a placeholder. */
  lemma ArgumentVerbatim(before: string, mid: string, after: string, w: string, args: seq<string>, n: nat)
    requires w == before + (mid + after) && n == |mid + after|
    requires |mid| == 2 && IsRef(mid, 0) && RefIndex(mid, 0) < |args|
    requires before == "" || before[|before| - 1] != '$'
    ensures Rendered(w, args, |before| + n)
         == Rendered(before, args, |before|) + (args[RefIndex(mid, 0)] + Rendered(after, args, n - 2))
  {
    RenderedParts(before, mid + after, w, args, n);
    RefThenTail(mid, after, mid + after, args, n - 2);
  }

  lemma RefThenTail(mid: string, after: string, w: string, args: seq<string>, n: nat)
    requires w == mid + after && n == |after|
    requires |mid| == 2 && IsRef(mid, 0) && RefIndex(mid, 0) < |args|
    ensures Rendered(w, args, 2 + n) == args[RefIndex(mid, 0)] + Rendered(after, args, n)
  {
    assert w[1] == mid[1] && !IsRef(w, 1);
    RenderedParts(mid, after, w, args, n);
    PieceOfRef(mid, args, 0);
    assert Rendered(mid, args, 2) == "" + args[RefIndex(mid, 0)] == args[RefIndex(mid, 0)];
  }

  ghost predicate NoRefs(w: string) {
    forall p :: !IsRef(w, p)
  }

  /** A word without placeholders stands for itself. */
  lemma {:induction false} NoRefsVerbatim(w: string, args: seq<string>, n: nat)
    requires NoRefs(w) && n <= |w|
    ensures Rendered(w, args, n) == w[..n]
  {
    if n > 0 {
      NoRefsVerbatim(w, args, n - 1);
    }
  }

  lemma NothingNamed(words: seq<string>)
    requires forall i :: 0 <= i < |words| ==> NoRefs(words[i])
    ensures forall i :: !Refers(words, i)
  {
  }

  lemma {:induction false} AllLeftOver(args: seq<string>, used: seq<bool>)
    requires forall i :: 0 <= i < |used| ==> !used[i]
    ensures Leftovers(args, used) == args
  {
    if args != [] {
      AllLeftOver(args[..|args| - 1], used);
    }
  }

  /** A word that is a placeholder for the first argument becomes that argument. */
  lemma LoneReference(w: string, args: seq<string>)
    requires |w| == 2 && IsRef(w, 0) && RefIndex(w, 0) == 0 && args != []
    ensures Substituted([w], args) == Ok(Outcome([args[0]], args[1..]))
  {
    LoneReferenceText(w, args);
    assert FirstMissingIn([w][1..], args) == 0 && FirstMissingIn([w], args) == 0;
    LoneReferenceMarks(w);
    OnlyFirstUsed(args, MarksOf([w]));
    assert Substituted([w], args).value.words == [args[0]];
  }

  lemma LoneReferenceMarks(w: string)
    requires |w| == 2 && IsRef(w, 0) && RefIndex(w, 0) == 0
    ensures forall i :: 0 <= i < 9 ==> (MarksOf([w])[i] <==> i == 0)
  {
    assert !IsRef(w, 1);
    assert RefersBefore(w, |w|, 0);
    assert Refers([w], 0) by { assert RefersBefore([w][0], |w|, 0); }
    forall i | 0 < i < 9 ensures !Refers([w], i) {
      assert !RefersBefore(w, |w|, i);
    }
  }

  lemma LoneReferenceText(w: string, args: seq<string>)
    requires |w| == 2 && IsRef(w, 0) && RefIndex(w, 0) == 0 && args != []
    ensures Rendered(w, args, 2) == args[0] && FirstMissing(w, args, 0) == 0
  {
    assert !IsRef(w, 1);
    PieceOfRef(w, args, 0);
    assert Rendered(w, args, 2) == Rendered(w, args, 0) + args[0] == args[0];
    assert FirstMissing(w, args, 2) == 0 && FirstMissing(w, args, 1) == 0;
  }

  lemma {:induction false} OnlyFirstUsed(args: seq<string>, used: seq<bool>)
    requires args != [] && used != [] && forall i :: 0 <= i < |used| ==> (used[i] <==> i == 0)
    ensures Leftovers(args, used) == args[1..]
  {
    var n := |args| - 1;
    if n > 0 {
      OnlyFirstUsed(args[..n], used);
      assert args[1..] == args[..n][1..] + [args[n]];
    } else {
      assert Leftovers(args[..0], used) == [];
    }
  }
}
