/**
 `--body-file` with flag overrides: JSON Pointers in the notation of sections 3 and 4 of RFC 6901,
 setting one location of a document in place, and merging a list of overrides.
 */
module Pointer {
  import opened Wrappers
  import opened Text
  import opened Json
  import opened Sequences

  // ------------------------------------------------------------------- the notation

  /** Two passes, `~1` before `~0`. */
  function Unescape(token: string): string {
    Replace(Replace(token, "~1", "/"), "~0", "~")
  }

  function UnescapeAll(tokens: seq<string>): seq<string> {
    seq(|tokens|, i requires 0 <= i < |tokens| => Unescape(tokens[i]))
  }

  function Parse(pointer: string): (r: Option<Path>)
    ensures r.Some? ==> r.value != []
  {
    if pointer == "" || pointer[0] != '/' then None
    else Some(UnescapeAll(SplitOn(pointer[1..], '/')))
  }

  function Escape(token: string): string {
    if token == "" then ""
    else EscapeChar(token[0]) + Escape(token[1..])
  }

  function EscapeChar(c: char): string {
    if c == '~' then "~0" else if c == '/' then "~1" else [c]
  }

  function EscapeAll(p: Path): seq<string> {
    seq(|p|, i requires 0 <= i < |p| => Escape(p[i]))
  }

  /** The reference tokens of `p`, each after a `/`. */
  function Print(p: Path): string {
    if p == [] then "" else "/" + Joined(EscapeAll(p), '/')
  }

  /** One left-to-right pass: `~1` is `/`, `~0` is `~`, and everything else stands for itself. */
  function Decode(token: string): string {
    if token == "" then ""
    else if "~1" <= token then "/" + Decode(token[2..])
    else if "~0" <= token then "~" + Decode(token[2..])
    else [token[0]] + Decode(token[1..])
  }

  lemma ReplaceHead(c: char, s: string, pat: string, with: string)
    requires |pat| == 2 && !(pat <= [c] + s)
    ensures Replace([c] + s, pat, with) == [c] + Replace(s, pat, with)
  {
    assert ([c] + s)[1..] == s;
  }

  /** What the first pass leaves in front. */
  lemma FirstPassHead(s: string)
    ensures var r := Replace(s, "~1", "/");
            if s == "" then r == ""
            else r != "" && r[0] == (if "~1" <= s then '/' else s[0])
  {
  }

  /** The two passes in this order never disagree with a single one, whatever the token. */
  lemma {:induction false} UnescapeIsDecode(token: string)
    ensures Unescape(token) == Decode(token)
    decreases |token|
  {
    if token != "" {
      var c := token[0];
      if "~1" <= token {
        var rest := Replace(token[2..], "~1", "/");
        UnescapeIsDecode(token[2..]);
        assert Replace(token, "~1", "/") == "/" + rest;
        assert (['/'] + rest)[0] == '/';
        ReplaceHead('/', rest, "~0", "~");
      } else if "~0" <= token {
        var rest := Replace(token[2..], "~1", "/");
        UnescapeIsDecode(token[2..]);
        assert token[1..][1..] == token[2..] && token[1] == '0';
        assert Replace(token[1..], "~1", "/") == ['0'] + rest;
        var once := Replace(token, "~1", "/");
        assert once == ['~'] + (['0'] + rest);
        assert "~0" <= once && once[2..] == rest;
      } else {
        var rest := Replace(token[1..], "~1", "/");
        UnescapeIsDecode(token[1..]);
        assert Replace(token, "~1", "/") == [c] + rest;
        FirstPassHead(token[1..]);
        assert !("~0" <= [c] + rest);
        ReplaceHead(c, rest, "~0", "~");
      }
    }
  }

  /** The other order of the two passes is wrong: it reads `~01` as `/`. */
  lemma WrongOrderDiffers()
    ensures Replace(Replace("~01", "~0", "~"), "~1", "/") == "/"
    ensures Unescape("~01") == "~1"
  {
    UnescapeIsDecode("~01");
    var t, once := "~01", "~1";
    assert t[2..] == "1" && t[2..][1..] == "";
    assert Replace("1", "~0", "~") == "1" && Replace(t, "~0", "~") == "~" + "1" == once;
    assert once[2..] == "" && Replace(once, "~1", "/") == "/" + "";
    assert t[1] == '0' && "~0" <= t;
    assert Decode("1") == "1" && Decode(t) == "~" + "1";
  }

  lemma {:induction false} DecodeEscape(token: string)
    ensures Decode(Escape(token)) == token
    ensures '/' !in Escape(token)
  {
    if token != "" {
      DecodeEscape(token[1..]);
      var rest := Escape(token[1..]);
      var code := EscapeChar(token[0]);
      assert Escape(token) == code + rest;
      DecodeCode(token[0], rest);
      assert token == [token[0]] + token[1..];
    }
  }

  lemma DecodeCode(c: char, rest: string)
    ensures Decode(EscapeChar(c) + rest) == [c] + Decode(rest) && '/' !in EscapeChar(c)
  {
    var s := EscapeChar(c) + rest;
    assert s[|EscapeChar(c)|..] == rest;
    if c == '~' {
      assert s[1] == '0' && "~0" <= s && !("~1" <= s);
    } else if c == '/' {
      assert "~1" <= s;
    } else {
      assert s[0] == c;
    }
  }

  lemma UnescapeEscape(token: string)
    ensures Unescape(Escape(token)) == token && '/' !in Escape(token)
  {
    DecodeEscape(token);
    UnescapeIsDecode(Escape(token));
  }

  /** A printed pointer parses back to the tokens it was printed from, whatever they hold. */
  lemma ParsePrint(p: Path)
    requires p != []
    ensures Parse(Print(p)) == Some(p)
  {
    var pieces := EscapeAll(p);
    forall i | 0 <= i < |p| ensures Unescape(pieces[i]) == p[i] && '/' !in pieces[i] {
      UnescapeEscape(p[i]);
    }
    SplitUndoesJoin(pieces, '/');
    assert Print(p)[1..] == Joined(pieces, '/');
    assert UnescapeAll(pieces) == p;
  }

  /** Every `~` starts one of the two escapes, as the grammar of RFC 6901 demands. */
  predicate WellEscaped(token: string) {
    forall i :: 0 <= i < |token| && token[i] == '~' ==> i + 1 < |token| && token[i + 1] in "01"
  }

  lemma {:induction false} EscapeDecode(token: string)
    requires WellEscaped(token) && '/' !in token
    ensures Escape(Decode(token)) == token
    decreases |token|
  {
    if token != "" {
      var n := if token[0] == '~' then 2 else 1;
      EscapeTail(token, n);
      assert token == token[..n] + token[n..];
      var rest := Decode(token[n..]);
      assert Decode(token)[1..] == rest;
      EscapeDecode(token[n..]);
    }
  }

  lemma EscapeTail(token: string, n: nat)
    requires WellEscaped(token) && n <= |token|
    ensures WellEscaped(token[n..])
  {
    var t := token[n..];
    forall i | 0 <= i < |t| && t[i] == '~' ensures i + 1 < |t| && t[i + 1] in "01" {
      assert token[n + i] == '~';
    }
  }

  predicate AllWellEscaped(pieces: seq<string>) {
    forall i :: 0 <= i < |pieces| ==> WellEscaped(pieces[i])
  }

  lemma EscapeUnescapeAll(pieces: seq<string>)
    requires AllWellEscaped(pieces) && WithoutChar(pieces, '/')
    ensures EscapeAll(UnescapeAll(pieces)) == pieces
  {
    forall i | 0 <= i < |pieces| ensures Escape(Unescape(pieces[i])) == pieces[i] {
      UnescapeIsDecode(pieces[i]);
      EscapeDecode(pieces[i]);
    }
  }

  /** A pointer written to the grammar is the only way to write the location it names. */
  lemma PrintParse(pointer: string)
    requires Parse(pointer).Some? && AllWellEscaped(SplitOn(pointer[1..], '/'))
    ensures Print(Parse(pointer).value) == pointer
  {
    JoinUndoesSplit(pointer[1..], '/');
    EscapeUnescapeAll(SplitOn(pointer[1..], '/'));
  }

  // ------------------------------------------------------------- setting one location

  datatype PointerError =
    | NotAPointer
    /** What lies at the place of that name is in the way. */
    | NotAnObject(place: string)

  /** The tokens walked so far, as they are joined for messages: unescaped. */
  function Slashed(p: Path): string {
    if p == [] then "" else Slashed(p[..|p| - 1]) + "/" + p[|p| - 1]
  }

  /** `rsplit_once`: what stands in front of the last `c`, and nothing when there is none. */
  function BeforeLast(s: string, c: char): string {
    if s == "" then "" else if s[|s| - 1] == c then s[..|s| - 1] else BeforeLast(s[..|s| - 1], c)
  }

  /** The name given to what is in the way of token `n`. */
  function PlaceBefore(p: Path, n: nat): string
    requires n < |p|
  {
    BeforeLast(Slashed(p[..n + 1]), '/')
  }

  lemma {:induction false} BeforeLastOf(a: string, t: string, c: char)
    ensures BeforeLast(a + [c] + t, c) == if c in t then a + [c] + BeforeLast(t, c) else a
    decreases |t|
  {
    var s := a + [c] + t;
    if t == "" {
      assert s[..|s| - 1] == a;
    } else {
      var init := t[..|t| - 1];
      assert s[|s| - 1] == t[|t| - 1] && s[..|s| - 1] == a + [c] + init;
      BeforeLastOf(a, init, c);
    }
  }

  /** The place named is the one in the way exactly when the token behind it holds no slash. */
  lemma PlaceIsPrefixExactly(p: Path, n: nat)
    requires n < |p|
    ensures PlaceBefore(p, n) == Slashed(p[..n]) <==> '/' !in p[n]
  {
    assert p[..n + 1][..n] == p[..n];
    BeforeLastOf(Slashed(p[..n]), p[n], '/');
  }

  /** With `/x` in the way, setting `/x/a~1b` blames `/x/a`; and so for all such tokens. */
  lemma SlashInTokenMisleads(x: string, a: string, b: string)
    requires '/' !in b
    ensures Parse(Print([x, a + "/" + b])) == Some([x, a + "/" + b])
    ensures PlaceBefore([x, a + "/" + b], 1) == "/" + x + "/" + a
    ensures Slashed([x, a + "/" + b][..1]) == "/" + x
  {
    var t := a + "/" + b;
    var p := [x, t];
    ParsePrint(p);
    assert p[..1] == [x] && p[..2] == p && [x][..0] == [];
    assert Slashed([x]) == "" + "/" + x == "/" + x;
    BeforeLastOf("/" + x, t, '/');
    BeforeLastOf(a, b, '/');
    assert '/' in t by { assert t[|a|] == '/'; }
    assert "/" + x + "/" + a == ("/" + x) + "/" + a;
  }

  /** An object with one of its keys taken out to be worked on. */
  type Frame = (map<string, Json>, string)

  /** The document around a place deep inside it. */
  function Plug(trail: seq<Frame>, v: Json): Json {
    if trail == [] then v
    else
      var n := |trail| - 1;
      Plug(trail[..n], Obj(trail[n].0[trail[n].1 := v]))
  }

  lemma PlugLast(trail: seq<Frame>, f: Frame, v: Json)
    ensures Plug(trail + [f], v) == Plug(trail, Obj(f.0[f.1 := v]))
  {
    assert (trail + [f])[..|trail|] == trail;
  }

  /** A write below the cursor, seen from the root. */
  function PutBelow(trail: seq<Frame>, v: Json, p: Path, x: Json): Option<Json>
    requires p != []
  {
    match Put(v, p, x)
    case None => None
    case Some(c) => Some(Plug(trail, c))
  }

  class Document {
    var root: Json

    constructor (root: Json)
      ensures this.root == root
    {
      this.root := root;
    }

    /**
     Walks down to the last token, creating missing objects in the document as it goes. When it
     fails, the document is what it was: nothing had been created yet.
     */
    method SetPointer(pointer: string, value: Json) returns (r: Option<PointerError>)
      modifies this
      ensures match Parse(pointer)
              case None => r == Some(NotAPointer) && root == old(root)
              case Some(p) =>
                if Put(old(root), p, value).Some? then r.None? && Some(root) == Put(old(root), p, value)
                else
                  && root == old(root)
                  && exists n: nat ::
                       && n < |p| && BlockedAt(root, p, n)
                       && (forall k :: 0 <= k < n ==> !BlockedAt(root, p, k))
                       && r == Some(NotAnObject(PlaceBefore(p, n)))
    {
      if pointer == "" || pointer[0] != '/' {
        return Some(NotAPointer);
      }
      var p := UnescapeAll(SplitOn(pointer[1..], '/'));
      var trail: seq<Frame> := [];
      var cur, soFar := root, "";
      StartWalking(root, p, value);
      for i := 0 to |p| - 1
        invariant Walking(old(root), root, trail, cur, p, i, value)
        invariant soFar == Slashed(p[..i])
      {
        assert p[..i + 1][..i] == p[..i];
        soFar := soFar + "/" + p[i];
        if !cur.Obj? {
          BlockedWalk(old(root), root, trail, cur, p, i, value);
          return Some(NotAnObject(BeforeLast(soFar, '/')));
        }
        WalkOn(old(root), root, trail, cur, p, i, value);
        var entries := cur.entries;
        if p[i] !in entries {
          entries := entries[p[i] := EMPTY];
        }
        trail, cur := trail + [(entries, p[i])], entries[p[i]];
        root := Plug(trail, cur);
      }
      var last := |p| - 1;
      assert p[..last + 1][..last] == p[..last];
      soFar := soFar + "/" + p[last];
      if !cur.Obj? {
        BlockedWalk(old(root), root, trail, cur, p, last, value);
        return Some(NotAnObject(BeforeLast(soFar, '/')));
      }
      DoneWalking(old(root), root, trail, cur, p, value);
      root := Plug(trail, Obj(cur.entries[p[last] := value]));
      return None;
    }
  }

  /** The cursor stands at `cur`, in front of token `i`, in a document that began as `was` and is now `root`. */
  ghost predicate Walking(was: Json, root: Json, trail: seq<Frame>, cur: Json, p: Path, i: nat, x: Json) {
    && i < |p|
    && root == Plug(trail, cur)
    && PutBelow(trail, cur, p[i..], x) == Put(was, p, x)
    && (match Get(was, p[..i]) case Some(c) => cur == c && root == was case None => cur == EMPTY)
    && forall k :: 0 <= k < i ==> !BlockedAt(was, p, k)
  }

  lemma StartWalking(root: Json, p: Path, x: Json)
    requires p != []
    ensures Walking(root, root, [], root, p, 0, x)
  {
    assert p[0..] == p;
  }

  lemma WalkOn(was: Json, root: Json, trail: seq<Frame>, cur: Json, p: Path, i: nat, x: Json)
    requires Walking(was, root, trail, cur, p, i, x) && i < |p| - 1 && cur.Obj?
    ensures var entries := cur.entries[p[i] := MemberOrNew(cur.entries, p[i])];
            var more := trail + [(entries, p[i])];
            && (p[i] in cur.entries ==> entries == cur.entries)
            && Walking(was, Plug(more, entries[p[i]]), more, entries[p[i]], p, i + 1, x)
  {
    var entries := cur.entries[p[i] := MemberOrNew(cur.entries, p[i])];
    Descend(trail, cur, entries, p[i..], x);
    GetOneMore(was, p, i);
    assert p[i..][1..] == p[i + 1..];
    assert p[i] in cur.entries ==> entries == cur.entries;
  }

  lemma BlockedWalk(was: Json, root: Json, trail: seq<Frame>, cur: Json, p: Path, i: nat, x: Json)
    requires Walking(was, root, trail, cur, p, i, x) && !cur.Obj?
    ensures root == was && Put(was, p, x).None?
    ensures BlockedAt(was, p, i) && forall k :: 0 <= k < i ==> !BlockedAt(was, p, k)
  {
  }

  lemma DoneWalking(was: Json, root: Json, trail: seq<Frame>, cur: Json, p: Path, x: Json)
    requires p != [] && Walking(was, root, trail, cur, p, |p| - 1, x) && cur.Obj?
    ensures Put(was, p, x) == Some(Plug(trail, Obj(cur.entries[p[|p| - 1] := x])))
  {
    var rest := p[|p| - 1..];
    assert |rest| == 1 && rest[0] == p[|p| - 1];
  }

  lemma Descend(trail: seq<Frame>, cur: Json, entries: map<string, Json>, p: Path, x: Json)
    requires |p| > 1 && cur.Obj? && entries == cur.entries[p[0] := MemberOrNew(cur.entries, p[0])]
    ensures PutBelow(trail + [(entries, p[0])], entries[p[0]], p[1..], x) == PutBelow(trail, cur, p, x)
    ensures p[0] in cur.entries ==> Plug(trail + [(entries, p[0])], entries[p[0]]) == Plug(trail, cur)
  {
    var child := entries[p[0]];
    PlugLast(trail, (entries, p[0]), child);
    assert entries[p[0] := child] == entries;
    assert p[0] in cur.entries ==> entries == cur.entries;
    match Put(child, p[1..], x)
    case None =>
    case Some(c) =>
      PlugLast(trail, (entries, p[0]), c);
      assert entries[p[0] := c] == cur.entries[p[0] := c];
  }

  lemma {:induction false} GetOneMore(v: Json, p: Path, i: nat)
    requires i < |p|
    ensures Get(v, p[..i + 1]) ==
            match Get(v, p[..i])
            case None => None
            case Some(c) => Child(c, p[i])
    decreases i
  {
    if i > 0 {
      assert p[..i + 1][1..] == p[1..][..i] && p[..i][1..] == p[1..][..i - 1];
      if Child(v, p[0]).Some? {
        GetOneMore(Child(v, p[0]).value, p[1..], i - 1);
      }
    }
  }

  // ----------------------------------------------------------------------- merging

  datatype Override = Override(pointer: string, value: Json)

  function PutOverride(r: Option<Json>, o: Override): Option<Json> {
    match Parse(o.pointer)
    case None => None
    case Some(p) => Then(r, p, o.value)
  }

  /** All overrides, first to last. */
  function Applied(r: Option<Json>, os: seq<Override>): Option<Json>
    decreases |os|
  {
    if os == [] then r else Applied(PutOverride(r, os[0]), os[1..])
  }

  datatype MergeError = BodyIsNoObject | BadOverride(error: PointerError)

  /** Writing `o` to `v` fails, for the reason `e`. */
  ghost predicate FailsFor(v: Json, o: Override, e: PointerError) {
    match Parse(o.pointer)
    case None => e == NotAPointer
    case Some(p) =>
      exists n: nat ::
        && n < |p| && BlockedAt(v, p, n) && (forall k :: 0 <= k < n ==> !BlockedAt(v, p, k))
        && e == NotAnObject(PlaceBefore(p, n))
  }

  /** The first of the overrides that fails, fails for the reason `e`. */
  ghost predicate FailsInTurn(v: Json, os: seq<Override>, e: PointerError)
    decreases |os|
  {
    os != []
    && match PutOverride(Some(v), os[0])
       case None => FailsFor(v, os[0], e)
       case Some(next) => FailsInTurn(next, os[1..], e)
  }

  method Merge(base: Json, overrides: seq<Override>) returns (r: Result<Json, MergeError>)
    ensures match Applied(Some(base), overrides)
            case Some(v) => r == Ok(v)
            case None =>
              && r.Err?
              && if base.Obj? then r.error.BadOverride? && FailsInTurn(base, overrides, r.error.error)
                 else r.error == BodyIsNoObject
  {
    if overrides == [] {
      return Ok(base);
    }
    if !base.Obj? {
      NonObjectTakesNone(base, overrides);
      return Err(BodyIsNoObject);
    }
    var doc := new Document(base);
    assert overrides[0..] == overrides;
    for i := 0 to |overrides|
      invariant Applied(Some(doc.root), overrides[i..]) == Applied(Some(base), overrides)
      invariant forall e :: FailsInTurn(doc.root, overrides[i..], e) ==> FailsInTurn(base, overrides, e)
    {
      var o := overrides[i];
      assert overrides[i..][0] == o && overrides[i..][1..] == overrides[i + 1..];
      ghost var before := doc.root;
      var failed := doc.SetPointer(o.pointer, o.value);
      if failed.Some? {
        assert PutOverride(Some(before), o) == None && FailsFor(before, o, failed.value);
        NothingAfterFailure(overrides[i + 1..]);
        return Err(BadOverride(failed.value));
      }
    }
    return Ok(doc.root);
  }

  lemma {:induction false} NothingAfterFailure(os: seq<Override>)
    ensures Applied(None, os) == None
  {
    if os != [] {
      NothingAfterFailure(os[1..]);
    }
  }

  lemma NonObjectTakesNone(base: Json, os: seq<Override>)
    requires os != [] && !base.Obj?
    ensures Applied(Some(base), os) == None
  {
    NothingAfterFailure(os[1..]);
  }

  /** The pointers of two overrides, when both are pointers, do not lie on one another's way. */
  predicate Independent(a: Override, b: Override) {
    Parse(a.pointer).Some? && Parse(b.pointer).Some? ==>
      Incomparable(Parse(a.pointer).value, Parse(b.pointer).value)
  }

  predicate PairwiseIndependent(os: seq<Override>) {
    forall i, j :: 0 <= i < j < |os| ==> Independent(os[i], os[j])
  }

  lemma OverridesCommute(r: Option<Json>, a: Override, b: Override)
    requires Independent(a, b)
    ensures PutOverride(PutOverride(r, a), b) == PutOverride(PutOverride(r, b), a)
  {
    if r.Some? && Parse(a.pointer).Some? && Parse(b.pointer).Some? {
      PutsCommute(r.value, Parse(a.pointer).value, a.value, Parse(b.pointer).value, b.value);
    }
  }

  lemma {:induction false} MoveToFront(r: Option<Json>, os: seq<Override>, k: nat)
    requires k < |os| && forall j :: 0 <= j < k ==> Independent(Without(os, k)[j], os[k])
    ensures Applied(r, os) == Applied(PutOverride(r, os[k]), Without(os, k))
    decreases k
  {
    if k == 0 {
      assert os[..0] + os[1..] == os[1..];
    } else {
      var rest := Without(os, k);
      assert rest[0] == os[0] && rest[1..] == Without(os[1..], k - 1);
      MoveToFront(PutOverride(r, os[0]), os[1..], k - 1);
      OverridesCommute(r, os[0], os[k]);
    }
  }

  /**
   The order of overrides that do not lie on one another's way does not matter: neither for
   whether the merge succeeds nor for the body it yields.
   */
  lemma {:induction false} MergeOrderFree(r: Option<Json>, a: seq<Override>, b: seq<Override>)
    requires PairwiseIndependent(a) && multiset(a) == multiset(b)
    ensures Applied(r, a) == Applied(r, b)
    decreases |a|
  {
    assert |a| == |multiset(a)| == |multiset(b)| == |b|;
    if a != [] {
      var k := FindFirst(a, b);
      FirstIsIndependent(a, Without(b, k), k, b[k]);
      MoveToFront(r, b, k);
      MergeOrderFree(PutOverride(r, a[0]), a[1..], Without(b, k));
    }
  }

  lemma FirstIsIndependent(a: seq<Override>, rest: seq<Override>, k: nat, o: Override)
    requires a != [] && o == a[0] && PairwiseIndependent(a) && multiset(a[1..]) == multiset(rest) && k <= |rest|
    ensures forall j :: 0 <= j < k ==> Independent(rest[j], o)
  {
    forall j | 0 <= j < k ensures Independent(rest[j], o) {
      assert rest[j] in multiset(a[1..]);
      var i :| 0 <= i < |a[1..]| && a[1..][i] == rest[j];
      assert Independent(a[0], a[i + 1]);
    }
  }

  /** Away from every override the merged body reads like the base. */
  lemma {:induction false} MergeFrame(v: Json, os: seq<Override>, q: Path)
    requires Applied(Some(v), os).Some?
    requires forall i :: 0 <= i < |os| && Parse(os[i].pointer).Some? ==> Incomparable(Parse(os[i].pointer).value, q)
    ensures Get(Applied(Some(v), os).value, q) == Get(v, q)
    decreases |os|
  {
    if os != [] {
      if PutOverride(Some(v), os[0]).None? {
        NothingAfterFailure(os[1..]);
        assert false;
      }
      var p := Parse(os[0].pointer).value;
      PutFrame(v, p, os[0].value, q);
      MergeFrame(PutOverride(Some(v), os[0]).value, os[1..], q);
    }
  }

  /** An override shows in the merged body when no later one lies on its way, or it on theirs. */
  lemma {:induction false} LastOverrideWins(v: Json, os: seq<Override>, k: nat, p: Path)
    requires k < |os| && Parse(os[k].pointer) == Some(p) && Applied(Some(v), os).Some?
    requires forall j :: k < j < |os| ==> Independent(os[k], os[j])
    ensures Get(Applied(Some(v), os).value, p) == Some(os[k].value)
    decreases |os|
  {
    if PutOverride(Some(v), os[0]).None? {
      NothingAfterFailure(os[1..]);
      assert false;
    }
    var after := PutOverride(Some(v), os[0]).value;
    if k == 0 {
      PutGet(v, p, os[0].value, []);
      assert p + [] == p;
      forall i | 0 <= i < |os[1..]| && Parse(os[1..][i].pointer).Some?
        ensures Incomparable(Parse(os[1..][i].pointer).value, p)
      {
        assert Independent(os[0], os[i + 1]);
      }
      MergeFrame(after, os[1..], p);
    } else {
      LastOverrideWins(after, os[1..], k - 1, p);
    }
  }

  /** An earlier override of the same pointer leaves no trace. */
  lemma RepeatedOverride(r: Option<Json>, a: Override, b: Override, os: seq<Override>)
    requires Parse(a.pointer) == Parse(b.pointer)
    ensures Applied(r, [a, b] + os) == Applied(r, [b] + os)
  {
    assert ([a, b] + os)[1..] == [b] + os && ([b] + os)[1..] == os;
    if r.Some? && Parse(a.pointer).Some? {
      var p := Parse(a.pointer).value;
      PutFailsAlike(r.value, p, a.value, b.value);
      if Put(r.value, p, a.value).Some? {
        PutPut(r.value, p, a.value, b.value);
      }
    }
  }

  // ------------------------------------------------------------------- the request body

  /** A body flag of the operation: its pointer, and its value when it was given. */
  type BodyFlag = (string, Option<Json>)

  /** The flags that were given, in the order in which the operation lists them. */
  function Given(flags: seq<BodyFlag>): seq<Override> {
    if flags == [] then []
    else if flags[0].1.None? then Given(flags[1..])
    else [Override(flags[0].0, flags[0].1.value)] + Given(flags[1..])
  }

  predicate SomeGiven(flags: seq<BodyFlag>) {
    exists k :: 0 <= k < |flags| && flags[k].1.Some?
  }

  /** Every flag that was given, written in turn, first to last. */
  function InTurn(r: Option<Json>, flags: seq<BodyFlag>): Option<Json>
    decreases |flags|
  {
    if flags == [] then r
    else
      var (pointer, value) := flags[0];
      match value
      case None => InTurn(r, flags[1..])
      case Some(v) => InTurn(PutOverride(r, Override(pointer, v)), flags[1..])
  }

  /** The first flag that cannot be written fails for the reason `e`. */
  ghost predicate FlagFails(v: Json, flags: seq<BodyFlag>, e: PointerError)
    decreases |flags|
  {
    flags != []
    && match flags[0].1
       case None => FlagFails(v, flags[1..], e)
       case Some(x) =>
         var o := Override(flags[0].0, x);
         match PutOverride(Some(v), o)
         case None => FailsFor(v, o, e)
         case Some(next) => FlagFails(next, flags[1..], e)
  }

  /** `build_body`: no file and no flags send nothing, unless the operation requires a body. */
  method BuildBody(file: Option<Json>, flags: seq<BodyFlag>, required: bool) returns (r: Result<Option<Json>, MergeError>)
    ensures file.None? && !SomeGiven(flags) ==> r == Ok(if required then Some(EMPTY) else None)
    ensures file.Some? || SomeGiven(flags) ==>
              var base := match file { case Some(v) => v case None => EMPTY };
              match InTurn(Some(base), flags)
              case Some(v) => r == Ok(Some(v))
              case None =>
                && r.Err?
                && if base.Obj? then r.error.BadOverride? && FlagFails(base, flags, r.error.error)
                   else r.error == BodyIsNoObject
  {
    var overrides: seq<Override> := [];
    assert flags[0..] == flags;
    for i := 0 to |flags|
      invariant overrides + Given(flags[i..]) == Given(flags)
    {
      assert flags[i..][0] == flags[i] && flags[i..][1..] == flags[i + 1..];
      var (pointer, value) := flags[i];
      if value.Some? {
        overrides := overrides + [Override(pointer, value.value)];
      }
    }
    assert overrides == Given(flags);
    GivenIsSome(flags);
    if file.None? && overrides == [] {
      return Ok(if required then Some(EMPTY) else None);
    }
    var base := if file.Some? then file.value else EMPTY;
    GivenInTurn(Some(base), flags);
    var merged := Merge(base, overrides);
    if merged.Err? {
      if base.Obj? {
        GivenFails(base, flags, merged.error.error);
      }
      return Err(merged.error);
    }
    return Ok(Some(merged.value));
  }

  lemma {:induction false} GivenIsSome(flags: seq<BodyFlag>)
    ensures Given(flags) != [] <==> SomeGiven(flags)
  {
    if flags != [] {
      GivenIsSome(flags[1..]);
      assert forall k :: 0 <= k < |flags[1..]| ==> flags[1..][k] == flags[k + 1];
      if k :| 0 <= k < |flags| && flags[k].1.Some? {
        assert k > 0 ==> flags[1..][k - 1].1.Some?;
      }
    }
  }

  /** The overrides collected are the flags given, one after the other, and fail where these do. */
  lemma {:induction false} GivenInTurn(r: Option<Json>, flags: seq<BodyFlag>)
    ensures Applied(r, Given(flags)) == InTurn(r, flags)
    decreases |flags|
  {
    if flags != [] {
      var rest := flags[1..];
      if flags[0].1.None? {
        GivenInTurn(r, rest);
      } else {
        var o := Override(flags[0].0, flags[0].1.value);
        assert ([o] + Given(rest))[1..] == Given(rest);
        GivenInTurn(PutOverride(r, o), rest);
      }
    }
  }

  lemma {:induction false} GivenFails(v: Json, flags: seq<BodyFlag>, e: PointerError)
    ensures FailsInTurn(v, Given(flags), e) <==> FlagFails(v, flags, e)
    decreases |flags|
  {
    if flags != [] {
      var rest := flags[1..];
      if flags[0].1.None? {
        GivenFails(v, rest, e);
      } else {
        var o := Override(flags[0].0, flags[0].1.value);
        assert ([o] + Given(rest))[1..] == Given(rest);
        if PutOverride(Some(v), o).Some? {
          GivenFails(PutOverride(Some(v), o).value, rest, e);
        }
      }
    }
  }

  lemma {:induction false} NoTurnAfterFailure(flags: seq<BodyFlag>)
    ensures InTurn(None, flags) == None
  {
    if flags != [] {
      NoTurnAfterFailure(flags[1..]);
    }
  }

  /** The flag was not given, or writes to a place that `q` has nothing to do with. */
  predicate OffTheWay(f: BodyFlag, q: Path) {
    f.1.Some? && Parse(f.0).Some? ==> Incomparable(Parse(f.0).value, q)
  }

  /** Away from every flag that was given the body reads like the file. */
  lemma {:induction false} BodyFrame(v: Json, flags: seq<BodyFlag>, q: Path)
    requires InTurn(Some(v), flags).Some? && forall k :: 0 <= k < |flags| ==> OffTheWay(flags[k], q)
    ensures Get(InTurn(Some(v), flags).value, q) == Get(v, q)
    decreases |flags|
  {
    if flags != [] {
      var rest := flags[1..];
      assert forall k :: 0 <= k < |rest| ==> OffTheWay(rest[k], q) by {
        assert forall k :: 0 <= k < |rest| ==> rest[k] == flags[k + 1];
      }
      NoTurnAfterFailure(rest);
      assert OffTheWay(flags[0], q);
      if flags[0].1.Some? {
        PutFrame(v, Parse(flags[0].0).value, flags[0].1.value, q);
        BodyFrame(PutOverride(Some(v), Override(flags[0].0, flags[0].1.value)).value, rest, q);
      } else {
        BodyFrame(v, rest, q);
      }
    }
  }

  /** Every flag that was given is in the body, unless a later one writes above it, below it or to the same place. */
  lemma {:induction false} BodyHoldsEveryFlag(v: Json, flags: seq<BodyFlag>, k: nat, p: Path)
    requires InTurn(Some(v), flags).Some? && k < |flags| && flags[k].1.Some? && Parse(flags[k].0) == Some(p)
    requires forall j :: k < j < |flags| ==> OffTheWay(flags[j], p)
    ensures Get(InTurn(Some(v), flags).value, p) == flags[k].1
    decreases k
  {
    var rest := flags[1..];
    NoTurnAfterFailure(rest);
    var next := if flags[0].1.Some? then PutOverride(Some(v), Override(flags[0].0, flags[0].1.value)) else Some(v);
    if k > 0 {
      assert forall j :: k - 1 < j < |rest| ==> rest[j] == flags[j + 1];
      BodyHoldsEveryFlag(next.value, rest, k - 1, p);
    } else {
      PutGet(v, p, flags[0].1.value, []);
      assert p + [] == p;
      assert forall j :: 0 <= j < |rest| ==> rest[j] == flags[j + 1];
      BodyFrame(next.value, rest, p);
    }
  }

  /** A body file without any body flag is sent as it is, object or not. */
  lemma {:induction false} FileAloneIsSent(v: Json, flags: seq<BodyFlag>)
    requires !SomeGiven(flags)
    ensures InTurn(Some(v), flags) == Some(v)
    decreases |flags|
  {
    if flags != [] {
      assert forall k :: 0 <= k < |flags[1..]| ==> flags[1..][k] == flags[k + 1];
      FileAloneIsSent(v, flags[1..]);
    }
  }
}
