/**
 `-f`/`-F` fields: reading a bracket key, and folding fields into one request body.
 */
module Fields {
  import opened Wrappers
  import opened Text
  import opened Json
  import opened Sequences

  /** A bracket: a key, or `[]`, which appends to an array. */
  datatype Seg = Key(key: string) | Push

  datatype KeyError = NoName | Unclosed | ExpectedOpen

  // -------------------------------------------------------------------- bracket keys

  function SegOf(inner: string): Seg {
    if inner == "" then Push else Key(inner)
  }

  function Segments(rest: string): Result<seq<Seg>, KeyError>
    decreases |rest|
  {
    if rest == "" then Ok([])
    else
      var close := IndexOf(rest, ']');
      if close == |rest| then Err(Unclosed)
      else if rest[0] != '[' then Err(ExpectedOpen)
      else Prepend([SegOf(rest[1..close])], Segments(rest[close + 1..]))
  }

  function Prepend(segs: seq<Seg>, r: Result<seq<Seg>, KeyError>): Result<seq<Seg>, KeyError> {
    match r
    case Err(e) => Err(e)
    case Ok(more) => Ok(segs + more)
  }

  function SplitKeySpec(key: string): Result<(string, seq<Seg>), KeyError> {
    var open := IndexOf(key, '[');
    if open == |key| then Ok((key, []))
    else if open == 0 then Err(NoName)
    else match Segments(key[open..])
      case Err(e) => Err(e)
      case Ok(segs) => Ok((key[..open], segs))
  }

  method SplitKey(key: string) returns (r: Result<(string, seq<Seg>), KeyError>)
    ensures r == SplitKeySpec(key)
  {
    var open := IndexOf(key, '[');
    if open == |key| {
      return Ok((key, []));
    }
    var name := key[..open];
    if name == "" {
      return Err(NoName);
    }
    var segs: seq<Seg> := [];
    var rest := key[open..];
    PrependNone(rest);
    while rest != ""
      invariant Segments(key[open..]) == Prepend(segs, Segments(rest))
      decreases |rest|
    {
      var close := IndexOf(rest, ']');
      if close == |rest| {
        return Err(Unclosed);
      }
      if rest[0] != '[' {
        return Err(ExpectedOpen);
      }
      var inner := rest[1..close];
      PrependTwice(segs, SegOf(inner), Segments(rest[close + 1..]));
      segs := segs + [SegOf(inner)];
      rest := rest[close + 1..];
    }
    assert segs + [] == segs;
    return Ok((name, segs));
  }

  lemma PrependNone(rest: string)
    ensures Prepend([], Segments(rest)) == Segments(rest)
  {
    if Segments(rest).Ok? {
      assert [] + Segments(rest).value == Segments(rest).value;
    }
  }

  lemma PrependTwice(segs: seq<Seg>, g: Seg, r: Result<seq<Seg>, KeyError>)
    ensures Prepend(segs, Prepend([g], r)) == Prepend(segs + [g], r)
  {
    if r.Ok? {
      assert segs + ([g] + r.value) == segs + [g] + r.value;
    }
  }

  function PrintSegs(segs: seq<Seg>): string {
    if segs == [] then ""
    else (match segs[0] case Key(k) => "[" + k + "]" case Push => "[]") + PrintSegs(segs[1..])
  }

  function PrintKey(name: string, segs: seq<Seg>): string {
    name + PrintSegs(segs)
  }

  predicate Writable(name: string, segs: seq<Seg>) {
    && '[' !in name && (segs != [] ==> name != "")
    && WritableSegs(segs)
  }

  predicate WritableSegs(segs: seq<Seg>) {
    forall i :: 0 <= i < |segs| && segs[i].Key? ==> segs[i].key != "" && ']' !in segs[i].key
  }

  lemma IndexOfAt(s: string, c: char, i: nat)
    requires i < |s| && s[i] == c && forall j :: 0 <= j < i ==> s[j] != c
    ensures IndexOf(s, c) == i
  {
    var k := IndexOf(s, c);
    assert !(k > i) && !(k < i);
  }

  lemma SegmentsOf(inner: string, after: string)
    requires ']' !in inner
    ensures Segments("[" + inner + "]" + after) == Prepend([SegOf(inner)], Segments(after))
  {
    var s := "[" + inner + "]" + after;
    var close := |inner| + 1;
    assert forall j :: 1 <= j < close ==> s[j] == inner[j - 1];
    IndexOfAt(s, ']', close);
    assert s[1..close] == inner && s[close + 1..] == after;
  }

  lemma {:induction false} SegmentsPrint(segs: seq<Seg>)
    requires WritableSegs(segs)
    ensures Segments(PrintSegs(segs)) == Ok(segs)
  {
    if segs != [] {
      var g, rest := segs[0], segs[1..];
      SegmentsPrint(rest);
      PrintSegsCons(g, if g.Key? then g.key else "", rest);
      SegmentsOf(if g.Key? then g.key else "", PrintSegs(rest));
      assert segs == [g] + rest;
    }
  }

  lemma {:induction false} PrintSegments(rest: string)
    requires Segments(rest).Ok?
    ensures WritableSegs(Segments(rest).value) && PrintSegs(Segments(rest).value) == rest
    decreases |rest|
  {
    if rest != "" {
      var close := IndexOf(rest, ']');
      var inner, after := rest[1..close], rest[close + 1..];
      PrintSegments(after);
      assert ']' !in inner;
      PrintSegsCons(SegOf(inner), inner, Segments(after).value);
      CutAtClose(rest, close);
    }
  }

  lemma CutAtClose(s: string, close: nat)
    requires 0 < close < |s| && s[0] == '[' && s[close] == ']'
    ensures s == "[" + s[1..close] + "]" + s[close + 1..]
  {
  }

  lemma PrintSegsCons(g: Seg, inner: string, segs: seq<Seg>)
    requires g == SegOf(inner) && ']' !in inner && WritableSegs(segs)
    ensures WritableSegs([g] + segs) && PrintSegs([g] + segs) == "[" + inner + "]" + PrintSegs(segs)
  {
    assert ([g] + segs)[1..] == segs;
  }

  /** A key splits into a name and brackets exactly when it is how those are written. */
  lemma SplitKeyMeaning(key: string, name: string, segs: seq<Seg>)
    ensures SplitKeySpec(key) == Ok((name, segs)) <==> Writable(name, segs) && PrintKey(name, segs) == key
  {
    if SplitKeySpec(key) == Ok((name, segs)) {
      var open := IndexOf(key, '[');
      if open < |key| {
        PrintSegments(key[open..]);
        assert key == key[..open] + key[open..];
      } else {
        assert key[..open] == key && PrintKey(name, segs) == key + "";
      }
    }
    if Writable(name, segs) && PrintKey(name, segs) == key {
      if segs == [] {
        assert key == name + "" == name;
        assert IndexOf(key, '[') == |key|;
      } else {
        assert key[..|name|] == name && key[|name|..] == PrintSegs(segs);
        IndexOfAt(key, '[', |name|);
        SegmentsPrint(segs);
      }
    }
  }

  // ----------------------------------------------------------------- inserting a value

  datatype FieldError = BadKey(error: KeyError) | Conflict | IndexesElement

  /** The document as an insertion leaves it, and what went wrong if anything did. */
  datatype Inserted = Inserted(root: Json, error: Option<FieldError>)

  /** What appending `value` adds: an array adds its elements. */
  function Items(value: Json): seq<Json> {
    if value.Arr? then value.items else [value]
  }

  function Insert(root: Json, name: string, segs: seq<Seg>, value: Json): Inserted
    requires root.Obj?
    decreases |segs|
  {
    var entries := root.entries;
    if segs == [] then Inserted(Obj(entries[name := value]), None)
    else match segs[0]
      case Push =>
        if |segs| > 1 then Inserted(root, Some(IndexesElement))
        else
          var slot := if name in entries then entries[name] else Arr([]);
          if slot.Arr? then Inserted(Obj(entries[name := Arr(slot.items + Items(value))]), None)
          else Inserted(root, Some(Conflict))
      case Key(k) =>
        var slot := MemberOrNew(entries, name);
        if !slot.Obj? then Inserted(root, Some(Conflict))
        else
          var inner := Insert(slot, k, segs[1..], value);
          Inserted(Obj(entries[name := inner.root]), inner.error)
  }

  // ------------------------------------------------------------------ what it means

  /** The keys in front of the first `[]`. */
  function LeadingKeys(segs: seq<Seg>): (keys: seq<string>)
    ensures |keys| <= |segs|
  {
    if segs == [] || segs[0].Push? then [] else [segs[0].key] + LeadingKeys(segs[1..])
  }

  /** The location a key names: the name and the keys in front of the first `[]`. */
  function PathOf(name: string, segs: seq<Seg>): Path {
    [name] + LeadingKeys(segs)
  }

  datatype Shape = Assigning | Appending | Interior

  /** Whether a key ends in a key, in its only `[]`, or goes on after a `[]`. */
  function ShapeOf(segs: seq<Seg>): Shape {
    var n := |LeadingKeys(segs)|;
    if n == |segs| then Assigning else if n == |segs| - 1 then Appending else Interior
  }

  /** Appending to the array at `p`, which is created when absent. */
  function AppendAt(v: Json, p: Path, x: Json): Option<Json>
    requires p != []
  {
    match Get(v, p)
    case None => Put(v, p, Arr(Items(x)))
    case Some(Arr(items)) => Put(v, p, Arr(items + Items(x)))
    case Some(_) => None
  }

  /** `v` with missing objects along `p` created. */
  function Created(v: Json, p: Path): Json
    decreases |p|
  {
    if p == [] || !v.Obj? then v
    else Obj(v.entries[p[0] := Created(MemberOrNew(v.entries, p[0]), p[1..])])
  }

  lemma PathTail(name: string, segs: seq<Seg>)
    requires segs != [] && segs[0].Key?
    ensures PathOf(name, segs)[1..] == PathOf(segs[0].key, segs[1..])
    ensures ShapeOf(segs) == ShapeOf(segs[1..])
  {
  }

  /** A key without `[]` writes the location it names, like setting a pointer does. */
  lemma {:induction false} InsertAssigns(root: Json, name: string, segs: seq<Seg>, value: Json)
    requires root.Obj? && ShapeOf(segs) == Assigning
    ensures var r := Insert(root, name, segs, value);
            match Put(root, PathOf(name, segs), value)
            case Some(v) => r == Inserted(v, None)
            case None => r == Inserted(root, Some(Conflict))
    decreases |segs|
  {
    if segs != [] {
      PathTail(name, segs);
      var slot := MemberOrNew(root.entries, name);
      if slot.Obj? {
        InsertAssigns(slot, segs[0].key, segs[1..], value);
        if Put(slot, PathOf(segs[0].key, segs[1..]), value).None? {
          ConflictKeeps(root, name, PathOf(segs[0].key, segs[1..]), value);
        }
      }
    }
  }

  /** A conflict below a member means the member was there. */
  lemma ConflictKeeps(root: Json, name: string, p: Path, value: Json)
    requires root.Obj? && p != [] && Put(MemberOrNew(root.entries, name), p, value).None?
    ensures name in root.entries && root.entries[name := root.entries[name]] == root.entries
  {
    PutFails(MemberOrNew(root.entries, name), p, value);
    NewIsFree(p);
  }

  /** A key that ends in its only `[]` appends to the array it names. */
  lemma {:induction false} InsertAppends(root: Json, name: string, segs: seq<Seg>, value: Json)
    requires root.Obj? && ShapeOf(segs) == Appending
    ensures var r := Insert(root, name, segs, value);
            match AppendAt(root, PathOf(name, segs), value)
            case Some(v) => r == Inserted(v, None)
            case None => r == Inserted(root, Some(Conflict))
    decreases |segs|
  {
    var p := PathOf(name, segs);
    if segs[0].Push? {
      assert p == [name];
      assert p[1..] == [] && Get(root, p) == Child(root, name);
      assert [] + Items(value) == Items(value);
    } else {
      PathTail(name, segs);
      var slot := MemberOrNew(root.entries, name);
      var below := PathOf(segs[0].key, segs[1..]);
      if slot.Obj? {
        InsertAppends(slot, segs[0].key, segs[1..], value);
        if name !in root.entries {
          assert Child(root, name) == None && Child(EMPTY, below[0]) == None;
          NewTakesAppend(below, value);
        } else {
          assert root.entries[name := slot] == root.entries;
        }
      } else {
        assert forall x :: Put(root, p, x).None?;
      }
    }
  }

  lemma NewTakesAppend(p: Path, value: Json)
    requires p != []
    ensures Get(EMPTY, p) == None && AppendAt(EMPTY, p, value) == Put(EMPTY, p, Arr(Items(value)))
    ensures AppendAt(EMPTY, p, value).Some?
  {
    NewIsFree(p);
    PutFails(EMPTY, p, Arr(Items(value)));
  }

  /**
   A key that goes on after a `[]` is refused. That leaves the objects created in front of its last
   key behind, and nothing when something was in the way.
   */
  lemma {:induction false} InsertRefuses(root: Json, name: string, segs: seq<Seg>, value: Json)
    requires root.Obj? && ShapeOf(segs) == Interior
    ensures var r := Insert(root, name, segs, value);
            var p := PathOf(name, segs);
            if Blocked(root, p) then r == Inserted(root, Some(Conflict))
            else r == Inserted(Created(root, p[..|p| - 1]), Some(IndexesElement))
    decreases |segs|
  {
    var p := PathOf(name, segs);
    if segs[0].Push? {
      assert p == [name] && p[..0] == [] && !BlockedAt(root, p, 0);
    } else {
      PathTail(name, segs);
      var slot := MemberOrNew(root.entries, name);
      var below := PathOf(segs[0].key, segs[1..]);
      BlockedStep(root, p);
      if slot.Obj? {
        InsertRefuses(slot, segs[0].key, segs[1..], value);
        assert p[..|p| - 1][1..] == below[..|below| - 1];
        if Blocked(slot, below) {
          assert root.entries[name := slot] == root.entries;
        }
      }
    }
  }

  /** Something is in the way of a longer path when it is in the way of its tail, or the member is. */
  lemma BlockedStep(root: Json, p: Path)
    requires root.Obj? && |p| > 1
    ensures Blocked(root, p) <==> p[0] in root.entries && Blocked(root.entries[p[0]], p[1..])
    ensures !MemberOrNew(root.entries, p[0]).Obj? ==> Blocked(root, p)
  {
    PutFails(root, p, Null);
    if p[0] in root.entries {
      PutFails(root.entries[p[0]], p[1..], Null);
    } else {
      PutFails(EMPTY, p[1..], Null);
      NewIsFree(p[1..]);
    }
  }

  // ------------------------------------------------------------------------ the body

  datatype Field = Field(key: string, value: Json)

  function ToBodyFrom(root: Json, fields: seq<Field>): Result<Json, FieldError>
    requires root.Obj?
    decreases |fields|
  {
    if fields == [] then Ok(root)
    else match SplitKeySpec(fields[0].key)
      case Err(e) => Err(BadKey(e))
      case Ok((name, segs)) =>
        var r := Insert(root, name, segs, fields[0].value);
        if r.error.Some? then Err(r.error.value) else ToBodyFrom(r.root, fields[1..])
  }

  method ToBody(fields: seq<Field>) returns (r: Result<Json, FieldError>)
    ensures r == ToBodyFrom(EMPTY, fields)
  {
    var root := EMPTY;
    assert fields[0..] == fields;
    for i := 0 to |fields|
      invariant root.Obj?
      invariant ToBodyFrom(root, fields[i..]) == ToBodyFrom(EMPTY, fields)
    {
      assert fields[i..][0] == fields[i] && fields[i..][1..] == fields[i + 1..];
      var split := SplitKey(fields[i].key);
      if split.Err? {
        return Err(BadKey(split.error));
      }
      var (name, segs) := split.value;
      var inserted := Insert(root, name, segs, fields[i].value);
      root := inserted.root;
      if inserted.error.Some? {
        return Err(inserted.error.value);
      }
    }
    return Ok(root);
  }

  /** The first field that fails is what is reported. */
  lemma {:induction false} FirstFieldError(root: Json, fields: seq<Field>, k: nat)
    requires root.Obj? && k < |fields| && ToBodyFrom(root, fields[..k]).Ok?
    ensures ToBodyFrom(root, fields[..k]).value.Obj?
    ensures var v := ToBodyFrom(root, fields[..k]).value;
            match SplitKeySpec(fields[k].key)
            case Err(e) => ToBodyFrom(root, fields) == Err(BadKey(e))
            case Ok((name, segs)) =>
              Insert(v, name, segs, fields[k].value).error.Some? ==>
                ToBodyFrom(root, fields) == Err(Insert(v, name, segs, fields[k].value).error.value)
    decreases k
  {
    if k > 0 {
      assert fields[..k][0] == fields[0] && fields[..k][1..] == fields[1..][..k - 1];
      var (name, segs) := SplitKeySpec(fields[0].key).value;
      InsertDoes(root, fields[0]);
      FirstFieldError(Insert(root, name, segs, fields[0].value).root, fields[1..], k - 1);
    } else {
      assert fields[..0] == [];
    }
  }

  /** What a field asks for, in terms of locations. */
  datatype Action = Assign(path: Path, value: Json) | Append(path: Path, value: Json) | Refuse

  function ActionOf(f: Field): (a: Action)
    ensures !a.Refuse? ==> a.path != []
  {
    match SplitKeySpec(f.key)
    case Err(_) => Refuse
    case Ok((name, segs)) =>
      match ShapeOf(segs)
      case Assigning => Assign(PathOf(name, segs), f.value)
      case Appending => Append(PathOf(name, segs), f.value)
      case Interior => Refuse
  }

  function Actions(fields: seq<Field>): seq<Action> {
    seq(|fields|, i requires 0 <= i < |fields| => ActionOf(fields[i]))
  }

  predicate Proper(a: Action) {
    !a.Refuse? ==> a.path != []
  }

  predicate AllProper(actions: seq<Action>) {
    forall i :: 0 <= i < |actions| ==> Proper(actions[i])
  }

  /** `None` is any error. */
  function Do(r: Option<Json>, a: Action): Option<Json>
    requires Proper(a)
  {
    match r
    case None => None
    case Some(v) =>
      match a
      case Assign(p, x) => Put(v, p, x)
      case Append(p, x) => AppendAt(v, p, x)
      case Refuse => None
  }

  function DoAll(r: Option<Json>, actions: seq<Action>): Option<Json>
    requires AllProper(actions)
    decreases |actions|
  {
    if actions == [] then r else DoAll(Do(r, actions[0]), actions[1..])
  }

  lemma {:induction false} DoAllFailed(actions: seq<Action>)
    requires AllProper(actions)
    ensures DoAll(None, actions) == None
  {
    if actions != [] {
      DoAllFailed(actions[1..]);
    }
  }

  lemma ActionsAreProper(fields: seq<Field>)
    ensures AllProper(Actions(fields))
  {
  }

  /** One insertion does what its key asks for. */
  lemma InsertDoes(root: Json, f: Field)
    requires root.Obj? && SplitKeySpec(f.key).Ok?
    ensures var (name, segs) := SplitKeySpec(f.key).value;
            var r := Insert(root, name, segs, f.value);
            if r.error.None? then Do(Some(root), ActionOf(f)) == Some(r.root) && r.root.Obj?
            else Do(Some(root), ActionOf(f)) == None
  {
    var (name, segs) := SplitKeySpec(f.key).value;
    match ShapeOf(segs)
    case Assigning => InsertAssigns(root, name, segs, f.value);
    case Appending => InsertAppends(root, name, segs, f.value);
    case Interior => InsertRefuses(root, name, segs, f.value);
  }

  /** Folding fields is doing, in turn, what their keys ask for. */
  lemma {:induction false} ToBodyMeaning(root: Json, fields: seq<Field>)
    requires root.Obj?
    ensures AllProper(Actions(fields))
    ensures match DoAll(Some(root), Actions(fields))
            case Some(v) => ToBodyFrom(root, fields) == Ok(v)
            case None => ToBodyFrom(root, fields).Err?
    decreases |fields|
  {
    if fields != [] {
      var f := fields[0];
      ActionsAreProper(fields[1..]);
      assert Actions(fields)[1..] == Actions(fields[1..]);
      DoAllFailed(Actions(fields[1..]));
      if SplitKeySpec(f.key).Ok? {
        InsertDoes(root, f);
        var (name, segs) := SplitKeySpec(f.key).value;
        var r := Insert(root, name, segs, f.value);
        if r.error.None? {
          ToBodyMeaning(r.root, fields[1..]);
        }
      }
    }
  }

  // --------------------------------------------------------------- laws over a whole body

  /** The two locations, when there are two, are not on one another's way. */
  predicate Apart(a: Action, b: Action) {
    !a.Refuse? && !b.Refuse? ==> Incomparable(a.path, b.path)
  }

  function ItemsAt(v: Json, p: Path): seq<Json> {
    match Get(v, p)
    case Some(Arr(items)) => items
    case _ => []
  }

  lemma AppendIsPut(v: Json, p: Path, x: Json)
    requires p != [] && AppendAt(v, p, x).Some?
    ensures AppendAt(v, p, x) == Put(v, p, Arr(ItemsAt(v, p) + Items(x)))
  {
    assert [] + Items(x) == Items(x);
  }

  lemma AppendReads(v: Json, p: Path, x: Json)
    requires p != [] && AppendAt(v, p, x).Some?
    ensures Get(AppendAt(v, p, x).value, p) == Some(Arr(ItemsAt(v, p) + Items(x)))
  {
    AppendIsPut(v, p, x);
    PutGet(v, p, Arr(ItemsAt(v, p) + Items(x)), []);
    assert p + [] == p;
  }

  /**
   What a key ending in its only `[]` leaves at its location: what was there, and behind it the
   elements of an array, or the one value.
   */
  lemma InsertExtends(root: Json, name: string, segs: seq<Seg>, value: Json)
    requires root.Obj? && ShapeOf(segs) == Appending && Insert(root, name, segs, value).error.None?
    ensures var p := PathOf(name, segs);
            var after := Get(Insert(root, name, segs, value).root, p);
            match value
            case Arr(xs) => after == Some(Arr(ItemsAt(root, p) + xs))
            case _ => after == Some(Arr(ItemsAt(root, p) + [value]))
  {
    InsertAppends(root, name, segs, value);
    AppendReads(root, PathOf(name, segs), value);
  }

  /** An action leaves every location off its own one alone. */
  lemma DoFrame(v: Json, a: Action, q: Path)
    requires Proper(a) && Do(Some(v), a).Some? && Incomparable(a.path, q)
    ensures Get(Do(Some(v), a).value, q) == Get(v, q)
  {
    if a.Assign? {
      PutFrame(v, a.path, a.value, q);
    } else {
      AppendIsPut(v, a.path, a.value);
      PutFrame(v, a.path, Arr(ItemsAt(v, a.path) + Items(a.value)), q);
    }
  }

  lemma {:induction false} DoAllFrame(v: Json, actions: seq<Action>, q: Path)
    requires AllProper(actions) && DoAll(Some(v), actions).Some?
    requires forall i :: 0 <= i < |actions| && !actions[i].Refuse? ==> Incomparable(actions[i].path, q)
    ensures Get(DoAll(Some(v), actions).value, q) == Get(v, q)
    decreases |actions|
  {
    if actions != [] {
      FirstSucceeds(v, actions);
      DoFrame(v, actions[0], q);
      DoAllFrame(Do(Some(v), actions[0]).value, actions[1..], q);
    }
  }

  lemma FirstSucceeds(v: Json, actions: seq<Action>)
    requires actions != [] && AllProper(actions) && DoAll(Some(v), actions).Some?
    ensures Do(Some(v), actions[0]).Some? && !actions[0].Refuse?
  {
    DoAllFailed(actions[1..]);
  }

  predicate AppendsTo(a: Action, p: Path) {
    a.Append? && a.path == p
  }

  /** The elements that the actions appending to `p` bring, in order. */
  function Pushed(actions: seq<Action>, p: Path): seq<Json> {
    if actions == [] then []
    else if !AppendsTo(actions[0], p) then Pushed(actions[1..], p)
    else match actions[0].value
      case Arr(xs) => xs + Pushed(actions[1..], p)
      case x => [x] + Pushed(actions[1..], p)
  }

  predicate AppendsOrApart(a: Action, p: Path) {
    a.Refuse? || AppendsTo(a, p) || Incomparable(a.path, p)
  }

  lemma PushedFirst(v: Json, actions: seq<Action>, p: Path)
    requires actions != [] && AppendsTo(actions[0], p)
    ensures ItemsAt(v, p) + Pushed(actions, p) == ItemsAt(v, p) + Items(actions[0].value) + Pushed(actions[1..], p)
  {
  }

  /**
   Repeated `key[]=value` fields yield exactly their values, in the order given, however they are
   mixed with fields for other locations.
   */
  lemma {:induction false} PushesInOrder(v: Json, actions: seq<Action>, p: Path)
    requires p != [] && AllProper(actions) && DoAll(Some(v), actions).Some?
    requires forall i :: 0 <= i < |actions| ==> AppendsOrApart(actions[i], p)
    requires Get(v, p).None? || Get(v, p).value.Arr?
    ensures Get(DoAll(Some(v), actions).value, p) ==
            if Get(v, p).None? && (forall i :: 0 <= i < |actions| ==> !AppendsTo(actions[i], p)) then None
            else Some(Arr(ItemsAt(v, p) + Pushed(actions, p)))
    decreases |actions|
  {
    if actions == [] {
      assert ItemsAt(v, p) + [] == ItemsAt(v, p);
    } else {
      var a, rest := actions[0], actions[1..];
      FirstSucceeds(v, actions);
      var next := Do(Some(v), a).value;
      assert AppendsOrApart(a, p);
      if AppendsTo(a, p) {
        AppendReads(v, p, a.value);
        PushesInOrder(next, rest, p);
        PushedFirst(v, actions, p);
      } else {
        DoFrame(v, a, p);
        PushesInOrder(next, rest, p);
        assert forall i :: 1 <= i < |actions| ==> actions[i] == rest[i - 1];
      }
    }
  }

  /** The last plain `key=value` for a location decides what it holds. */
  lemma {:induction false} LastAssignWins(v: Json, actions: seq<Action>, k: nat)
    requires k < |actions| && AllProper(actions) && DoAll(Some(v), actions).Some? && actions[k].Assign?
    requires forall j :: k < j < |actions| ==> Apart(actions[k], actions[j])
    ensures Get(DoAll(Some(v), actions).value, actions[k].path) == Some(actions[k].value)
    decreases k
  {
    FirstSucceeds(v, actions);
    var next := Do(Some(v), actions[0]).value;
    if k > 0 {
      LastAssignWins(next, actions[1..], k - 1);
    } else {
      var p := actions[0].path;
      PutGet(v, p, actions[0].value, []);
      assert p + [] == p;
      forall i | 0 <= i < |actions[1..]| && !actions[1..][i].Refuse? ensures Incomparable(actions[1..][i].path, p) {
        assert Apart(actions[0], actions[i + 1]);
      }
      DoAllFrame(next, actions[1..], p);
    }
  }

  /** What an action puts at its location, given what it finds there. */
  function Written(a: Action, found: Option<Json>): Option<Json> {
    match a
    case Refuse => None
    case Assign(_, x) => Some(x)
    case Append(_, x) =>
      match found
      case None => Some(Arr(Items(x)))
      case Some(Arr(items)) => Some(Arr(items + Items(x)))
      case Some(_) => None
  }

  /** A write elsewhere does not change what an action puts. */
  lemma SecondAction(v: Json, p: Path, x: Json, b: Action)
    requires p != [] && Proper(b) && !b.Refuse? && Incomparable(p, b.path)
    ensures Do(Put(v, p, x), b) ==
            match Written(b, Get(v, b.path))
            case None => None
            case Some(y) => Then(Put(v, p, x), b.path, y)
  {
    if Put(v, p, x).Some? {
      PutFrame(v, p, x, b.path);
    }
  }

  /** Actions on locations apart from each other commute, in success and in the body. */
  lemma ActionsCommute(r: Option<Json>, a: Action, b: Action)
    requires Proper(a) && Proper(b) && Apart(a, b)
    ensures Do(Do(r, a), b) == Do(Do(r, b), a)
  {
    if r.Some? && !a.Refuse? && !b.Refuse? {
      var v := r.value;
      match Written(a, Get(v, a.path)) {
        case Some(x) => SecondAction(v, a.path, x, b);
        case None =>
      }
      match Written(b, Get(v, b.path)) {
        case Some(y) => SecondAction(v, b.path, y, a);
        case None =>
      }
      if Written(a, Get(v, a.path)).Some? && Written(b, Get(v, b.path)).Some? {
        PutsCommute(v, a.path, Written(a, Get(v, a.path)).value, b.path, Written(b, Get(v, b.path)).value);
      }
    }
  }

  // ------------------------------------------------------------- interleaving by name

  /** The top-level name an action is about. */
  function NameOf(a: Action): Option<string> {
    if a.Refuse? || a.path == [] then None else Some(a.path[0])
  }

  lemma DifferentNamesApart(a: Action, b: Action)
    requires Proper(a) && Proper(b) && NameOf(a) != NameOf(b)
    ensures Apart(a, b)
  {
  }

  lemma {:induction false} BringForward(r: Option<Json>, actions: seq<Action>, k: nat)
    requires k < |actions| && AllProper(actions)
    requires forall j :: 0 <= j < k ==> NameOf(actions[j]) != NameOf(actions[k])
    ensures DoAll(r, actions) == DoAll(Do(r, actions[k]), Without(actions, k))
    decreases k
  {
    if k == 0 {
      assert Without(actions, 0) == actions[1..];
    } else {
      var rest := Without(actions, k);
      assert rest[0] == actions[0] && rest[1..] == Without(actions[1..], k - 1);
      BringForward(Do(r, actions[0]), actions[1..], k - 1);
      DifferentNamesApart(actions[0], actions[k]);
      ActionsCommute(r, actions[0], actions[k]);
    }
  }

  /**
   Only the order within one top-level name matters: two command lines that ask for the same things
   in the same order for every name build the same body, or both fail.
   */
  lemma {:induction false} InterleavingFree(r: Option<Json>, a: seq<Action>, b: seq<Action>)
    requires AllProper(a) && AllProper(b) && SameByKey(a, b, NameOf)
    ensures DoAll(r, a) == DoAll(r, b)
    decreases |a|
  {
    if a == [] {
      EmptyByKey(b, NameOf);
    } else {
      var k := FirstInOther(a, b, NameOf);
      BringForward(r, b, k);
      InterleavingFree(Do(r, a[0]), a[1..], Without(b, k));
    }
  }
}
