/**
 JSON values, reading one location, and writing one location.

 A location is a list of object keys. `Put` is what both editors of the repository do to a
 document: create missing objects on the way and set the last key, or fail on anything on the
 way that is not an object.
 */
module Json {
  import opened Wrappers
  import opened Text

  datatype Json =
    | Null
    | Bool(b: bool)
    | Number(repr: string)
    | Str(s: string)
    | Arr(items: seq<Json>)
    | Obj(entries: map<string, Json>)

  type Path = seq<string>

  /** An array index as a pointer token writes it: digits, and no leading zero. */
  function ArrayIndex(token: string): (r: Option<nat>) {
    if token == "" || (token[0] == '0' && |token| > 1) then None else Digits(token)
  }

  function Digits(token: string): (r: Option<nat>) {
    if token == "" then Some(0)
    else
      var c := token[|token| - 1];
      if !('0' <= c <= '9') then None
      else match Digits(token[..|token| - 1])
        case None => None
        case Some(n) => Some(10 * n + (c as int - '0' as int))
  }

  /** The value one token away from `v`. */
  function Child(v: Json, token: string): (r: Option<Json>)
    ensures r.Some? ==> r.value < v
  {
    match v
    case Obj(entries) => if token in entries then Some(entries[token]) else None
    case Arr(items) =>
      (match ArrayIndex(token)
       case Some(i) => if i < |items| then Some(items[i]) else None
       case None => None)
    case _ => None
  }

  /** What is found at `p`, arrays included. */
  function Get(v: Json, p: Path): Option<Json> {
    if p == [] then Some(v)
    else match Child(v, p[0])
      case None => None
      case Some(c) => Get(c, p[1..])
  }

  lemma {:induction false} DigitsOfDecimal(n: nat)
    ensures Digits(Decimal(n)) == Some(n)
    ensures n > 0 ==> Decimal(n)[0] != '0'
  {
    if n < 10 {
      assert [Digit(n)][..0] == "";
    } else {
      DigitsOfDecimal(n / 10);
      assert Decimal(n)[..|Decimal(n)| - 1] == Decimal(n / 10);
    }
  }

  lemma {:induction false} DecimalOfDigits(token: string, n: nat)
    requires token != "" && Digits(token) == Some(n) && (token[0] == '0' ==> |token| == 1)
    ensures token == Decimal(n)
  {
    var last := token[|token| - 1];
    var d := last as int - '0' as int;
    assert token == token[..|token| - 1] + [last] && last == Digit(d);
    if |token| > 1 {
      var m := Digits(token[..|token| - 1]).value;
      assert n == 10 * m + d;
      NotAllZero(token[..|token| - 1]);
      DecimalOfDigits(token[..|token| - 1], m);
    }
  }

  lemma {:induction false} NotAllZero(token: string)
    requires token != "" && token[0] != '0' && Digits(token).Some?
    ensures Digits(token).value > 0
  {
    if |token| > 1 {
      NotAllZero(token[..|token| - 1]);
    } else {
      assert token[..0] == "";
    }
  }

  /** The indices are the decimal numerals. */
  lemma ArrayIndexMeaning(token: string, n: nat)
    ensures ArrayIndex(token) == Some(n) <==> token == Decimal(n)
  {
    DigitsOfDecimal(n);
    if ArrayIndex(token) == Some(n) {
      DecimalOfDigits(token, n);
    }
    assert n == 0 ==> Decimal(n) == ['0'];
  }

  /** So an element is found under its index, and none behind the end. */
  lemma GetItem(items: seq<Json>, i: nat)
    ensures Get(Arr(items), [Decimal(i)]) == if i < |items| then Some(items[i]) else None
  {
    ArrayIndexMeaning(Decimal(i), i);
  }

  const EMPTY: Json := Obj(map[])

  /** The member of an object, or the empty object that would be created in its place. */
  function MemberOrNew(entries: map<string, Json>, key: string): Json {
    if key in entries then entries[key] else EMPTY
  }

  /** `v` with the location `p` set to `x`. */
  function Put(v: Json, p: Path, x: Json): Option<Json>
    requires p != []
    decreases |p|
  {
    if !v.Obj? then None
    else if |p| == 1 then Some(Obj(v.entries[p[0] := x]))
    else match Put(MemberOrNew(v.entries, p[0]), p[1..], x)
      case None => None
      case Some(c) => Some(Obj(v.entries[p[0] := c]))
  }

  // --------------------------------------------------------------------- lens laws

  /** Neither location lies on the way to the other. */
  predicate Incomparable(p: Path, q: Path) {
    !(p <= q) && !(q <= p)
  }

  /** What was written is what is read, at the location and below it. */
  lemma {:induction false} PutGet(v: Json, p: Path, x: Json, below: Path)
    requires p != [] && Put(v, p, x).Some?
    ensures Get(Put(v, p, x).value, p + below) == Get(x, below)
    decreases |p|
  {
    assert (p + below)[1..] == p[1..] + below;
    if |p| > 1 {
      PutGet(MemberOrNew(v.entries, p[0]), p[1..], x, below);
    } else {
      assert p[1..] + below == below;
    }
  }

  /** Every location off the written one reads as before. */
  lemma {:induction false} PutFrame(v: Json, p: Path, x: Json, q: Path)
    requires p != [] && Put(v, p, x).Some? && Incomparable(p, q)
    ensures Get(Put(v, p, x).value, q) == Get(v, q)
    decreases |p|
  {
    if p[0] == q[0] {
      IncomparableTails(p, q);
      var child := MemberOrNew(v.entries, p[0]);
      PutFrame(child, p[1..], x, q[1..]);
      if p[0] !in v.entries {
        assert Get(EMPTY, q[1..]) == None;
      }
    }
  }

  lemma IncomparableTails(p: Path, q: Path)
    requires Incomparable(p, q) && p[0] == q[0]
    ensures |p| > 1 && |q| > 1 && Incomparable(p[1..], q[1..])
  {
    assert p == [p[0]] + p[1..] && q == [q[0]] + q[1..];
  }

  /** Every location on the way holds an object that changed in one key only. */
  lemma {:induction false} PutPrefix(v: Json, p: Path, x: Json, n: nat)
    requires n < |p| && Put(v, p, x).Some?
    ensures match Get(Put(v, p, x).value, p[..n])
            case None => false
            case Some(after) =>
              && after.Obj? && p[n] in after.entries
              && (match Get(v, p[..n])
                  case None => after.entries.Keys == {p[n]}
                  case Some(before) => before.Obj? && after.entries == before.entries[p[n] := after.entries[p[n]]])
    decreases n
  {
    if n > 0 {
      assert p[..n][1..] == p[1..][..n - 1];
      PutPrefix(MemberOrNew(v.entries, p[0]), p[1..], x, n - 1);
      if p[0] !in v.entries && n > 1 {
        assert Get(EMPTY, p[..n][1..]) == None;
      }
    }
  }

  /** Something on the way to `p` exists and is not an object. */
  ghost predicate Blocked(v: Json, p: Path) {
    exists n :: 0 <= n < |p| && BlockedAt(v, p, n)
  }

  predicate BlockedAt(v: Json, p: Path, n: nat)
    requires n < |p|
  {
    Get(v, p[..n]).Some? && !Get(v, p[..n]).value.Obj?
  }

  /** Writing fails exactly when something on the way is in it. */
  lemma {:induction false} PutFails(v: Json, p: Path, x: Json)
    requires p != []
    ensures Put(v, p, x).None? <==> Blocked(v, p)
    decreases |p|
  {
    if !v.Obj? {
      assert p[..0] == [] && BlockedAt(v, p, 0);
    } else {
      assert p[..0] == [] && !BlockedAt(v, p, 0);
      if |p| > 1 {
        var child := MemberOrNew(v.entries, p[0]);
        PutFails(child, p[1..], x);
        forall n | 1 <= n < |p| ensures BlockedAt(v, p, n) <==> p[0] in v.entries && BlockedAt(child, p[1..], n - 1) {
          assert p[..n][1..] == p[1..][..n - 1];
        }
        if p[0] !in v.entries {
          NewIsFree(p[1..]);
        } else if Blocked(child, p[1..]) {
          var k :| 0 <= k < |p[1..]| && BlockedAt(child, p[1..], k);
          assert BlockedAt(v, p, k + 1);
        }
      }
    }
  }

  lemma NewIsFree(p: Path)
    ensures !Blocked(EMPTY, p)
  {
    forall n | 0 <= n < |p| ensures !BlockedAt(EMPTY, p, n) {
    }
  }

  /** A second write to the same location replaces the first. */
  lemma {:induction false} PutPut(v: Json, p: Path, x: Json, y: Json)
    requires p != [] && Put(v, p, x).Some?
    ensures Put(Put(v, p, x).value, p, y) == Put(v, p, y)
    decreases |p|
  {
    var first := Put(v, p, x).value;
    if |p| > 1 {
      PutPut(MemberOrNew(v.entries, p[0]), p[1..], x, y);
    }
    if Put(v, p, y).Some? {
      assert first.entries[p[0] := Put(v, p, y).value.entries[p[0]]] == Put(v, p, y).value.entries;
    }
  }

  /** A second write to the same location fails exactly when a first one does. */
  lemma {:induction false} PutFailsAlike(v: Json, p: Path, x: Json, y: Json)
    requires p != []
    ensures Put(v, p, x).None? <==> Put(v, p, y).None?
    decreases |p|
  {
    if v.Obj? && |p| > 1 {
      PutFailsAlike(MemberOrNew(v.entries, p[0]), p[1..], x, y);
    }
  }

  /** Writing what is there already changes nothing. */
  lemma {:induction false} GetPut(v: Json, p: Path)
    requires p != [] && Get(v, p).Some? && !Blocked(v, p)
    ensures Put(v, p, Get(v, p).value) == Some(v)
    decreases |p|
  {
    assert p[..0] == [] && !BlockedAt(v, p, 0);
    var child := v.entries[p[0]];
    assert v.entries[p[0] := child] == v.entries;
    if |p| > 1 {
      forall n | 0 <= n < |p[1..]| ensures !BlockedAt(child, p[1..], n) {
        assert p[..n + 1][1..] == p[1..][..n];
        assert !BlockedAt(v, p, n + 1);
      }
      GetPut(child, p[1..]);
    }
  }

  function Then(r: Option<Json>, p: Path, x: Json): Option<Json>
    requires p != []
  {
    match r
    case None => None
    case Some(v) => Put(v, p, x)
  }

  /** Writes to incomparable locations commute, in success and in the result. */
  lemma {:induction false} PutsCommute(v: Json, p: Path, x: Json, q: Path, y: Json)
    requires p != [] && q != [] && Incomparable(p, q)
    ensures Then(Put(v, p, x), q, y) == Then(Put(v, q, y), p, x)
    decreases |p|
  {
    if v.Obj? {
      var e := v.entries;
      if p[0] == q[0] {
        IncomparableTails(p, q);
        PutsCommute(MemberOrNew(e, p[0]), p[1..], x, q[1..], y);
        ThenInside(v, p, x, q, y);
        ThenInside(v, q, y, p, x);
      } else {
        PutsBeside(v, p, x, q, y);
      }
    }
  }

  lemma PutsBeside(v: Json, p: Path, x: Json, q: Path, y: Json)
    requires p != [] && q != [] && p[0] != q[0] && v.Obj?
    ensures Then(Put(v, p, x), q, y) == Then(Put(v, q, y), p, x)
  {
    ThenBeside(v, p, x, q, y);
    ThenBeside(v, q, y, p, x);
    if Put(v, p, x).Some? && Put(v, q, y).Some? {
      var a, b := Put(v, p, x).value.entries[p[0]], Put(v, q, y).value.entries[q[0]];
      assert v.entries[p[0] := a][q[0] := b] == v.entries[q[0] := b][p[0] := a];
    }
  }

  /** Two writes below the same key are two writes to its member. */
  lemma ThenInside(v: Json, p: Path, x: Json, q: Path, y: Json)
    requires |p| > 1 && |q| > 1 && p[0] == q[0] && v.Obj?
    ensures Then(Put(v, p, x), q, y) ==
            match Then(Put(MemberOrNew(v.entries, p[0]), p[1..], x), q[1..], y)
            case None => None
            case Some(c) => Some(Obj(v.entries[p[0] := c]))
  {
    match Put(MemberOrNew(v.entries, p[0]), p[1..], x)
    case None =>
    case Some(c) =>
      match Put(c, q[1..], y)
      case None =>
      case Some(d) => assert v.entries[p[0] := c][p[0] := d] == v.entries[p[0] := d];
  }

  /** A write below one key leaves a write below another key what it was. */
  lemma ThenBeside(v: Json, p: Path, x: Json, q: Path, y: Json)
    requires p != [] && q != [] && p[0] != q[0] && v.Obj?
    ensures Put(v, p, x).Some? ==> p[0] in Put(v, p, x).value.entries
    ensures Put(v, q, y).Some? ==> q[0] in Put(v, q, y).value.entries
    ensures Then(Put(v, p, x), q, y) ==
            if Put(v, p, x).None? || Put(v, q, y).None? then None
            else Some(Obj(v.entries[p[0] := Put(v, p, x).value.entries[p[0]]][q[0] := Put(v, q, y).value.entries[q[0]]]))
  {
    PutIsUpdate(v, p, x);
    PutIsUpdate(v, q, y);
    if Put(v, p, x).Some? {
      var w := Put(v, p, x).value;
      PutIsUpdate(w, q, y);
      assert MemberOrNew(w.entries, q[0]) == MemberOrNew(v.entries, q[0]);
    }
  }

  /** What the member `p[0]` becomes. */
  function NewMember(v: Json, p: Path, x: Json): Option<Json>
    requires p != [] && v.Obj?
  {
    if |p| == 1 then Some(x) else Put(MemberOrNew(v.entries, p[0]), p[1..], x)
  }

  /** A write replaces one member of the root. */
  lemma PutIsUpdate(v: Json, p: Path, x: Json)
    requires p != [] && v.Obj?
    ensures Put(v, p, x) == match NewMember(v, p, x) case None => None case Some(c) => Some(Obj(v.entries[p[0] := c]))
  {
  }
}
