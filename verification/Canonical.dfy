/**
 The canonical form of the vendored API specification: every object with its keys in order.

 Documents keep the order in which keys were written, as the repository's JSON maps do; `Meaning`
 forgets it. Section 4 of RFC 8259 calls an object an unordered collection, so two documents say
 the same when their meanings are equal.
 */
module Canonical {
  import opened Wrappers
  import opened Text
  import opened Json

  datatype Scalar = NullValue | BoolValue(b: bool) | NumberValue(repr: string) | StringValue(s: string)

  datatype Doc = Atom(scalar: Scalar) | List(items: seq<Doc>) | Record(entries: seq<Entry>)

  datatype Entry = Entry(key: string, value: Doc)

  function Keys(es: seq<Entry>): set<string> {
    set i | 0 <= i < |es| :: es[i].key
  }

  ghost predicate DistinctKeys(es: seq<Entry>) {
    forall i, j :: 0 <= i < j < |es| ==> es[i].key != es[j].key
  }

  /** No object, at any depth, holds a key twice; a JSON map cannot. */
  ghost predicate Proper(d: Doc) {
    match d
    case Atom(_) => true
    case List(items) => forall i :: 0 <= i < |items| ==> Proper(items[i])
    case Record(es) => DistinctKeys(es) && forall i :: 0 <= i < |es| ==> Proper(es[i].value)
  }

  function IndexOfKey(es: seq<Entry>, k: string): (i: nat)
    ensures i <= |es|
    ensures i < |es| ==> es[i].key == k
    ensures i == |es| <==> k !in Keys(es)
    ensures forall j :: 0 <= j < i ==> es[j].key != k
  {
    if es == [] then 0
    else if es[0].key == k then
      assert es[0].key in Keys(es);
      0
    else
      assert Keys(es) == Keys(es[1..]) + {es[0].key} by {
        assert forall i :: 0 <= i < |es[1..]| ==> es[i + 1].key == es[1..][i].key;
        assert forall i :: 1 <= i < |es| ==> es[i].key == es[1..][i - 1].key;
      }
      1 + IndexOfKey(es[1..], k)
  }

  function MeaningOfScalar(s: Scalar): Json {
    match s
    case NullValue => Null
    case BoolValue(b) => Bool(b)
    case NumberValue(repr) => Number(repr)
    case StringValue(text) => Str(text)
  }

  function Meaning(d: Doc): Json {
    match d
    case Atom(s) => MeaningOfScalar(s)
    case List(items) => Arr(seq(|items|, i requires 0 <= i < |items| => Meaning(items[i])))
    case Record(es) => Obj(map k | k in Keys(es) :: Meaning(es[IndexOfKey(es, k)].value))
  }

  // -------------------------------------------------------------------- sorting keys

  /** `BTreeMap::insert`. */
  function InsertEntry(sorted: seq<Entry>, e: Entry): (r: seq<Entry>)
    ensures forall i :: 0 <= i < |r| ==> r[i] == e || r[i] in sorted
  {
    if sorted == [] then [e]
    else if e.key == sorted[0].key then [e] + sorted[1..]
    else if Less(e.key, sorted[0].key) then [e] + sorted
    else [sorted[0]] + InsertEntry(sorted[1..], e)
  }

  /** Collecting into a `BTreeMap`. */
  function SortEntries(es: seq<Entry>): (r: seq<Entry>)
    ensures forall i :: 0 <= i < |r| ==> r[i] in es
  {
    if es == [] then []
    else
      var n := |es| - 1;
      assert forall e :: e in es[..n] ==> e in es;
      InsertEntry(SortEntries(es[..n]), es[n])
  }

  function SortKeys(d: Doc): Doc {
    match d
    case Atom(_) => d
    case List(items) => List(seq(|items|, i requires 0 <= i < |items| => SortKeys(items[i])))
    case Record(es) =>
      var sorted := SortEntries(es);
      Record(seq(|sorted|, i requires 0 <= i < |sorted| =>
        assert sorted[i] in es;
        Entry(sorted[i].key, SortKeys(sorted[i].value))))
  }

  ghost predicate StrictlySorted(es: seq<Entry>) {
    forall i, j :: 0 <= i < j < |es| ==> Less(es[i].key, es[j].key)
  }

  ghost predicate Sorted(d: Doc) {
    match d
    case Atom(_) => true
    case List(items) => forall i :: 0 <= i < |items| ==> Sorted(items[i])
    case Record(es) => StrictlySorted(es) && forall i :: 0 <= i < |es| ==> Sorted(es[i].value)
  }

  // ---------------------------------------------------------------- the sort is a sort

  lemma LessIrreflexive(a: string)
    ensures !Less(a, a)
  {
    LessTrichotomy(a, a);
  }

  lemma {:induction false} InsertEntrySorts(s: seq<Entry>, e: Entry)
    requires StrictlySorted(s)
    ensures StrictlySorted(InsertEntry(s, e))
    ensures e in InsertEntry(s, e)
    ensures forall f :: f in s && f.key != e.key ==> f in InsertEntry(s, e)
  {
    if s != [] {
      LessTrichotomy(e.key, s[0].key);
      if Less(e.key, s[0].key) {
        forall j | 0 < j < |s| ensures Less(e.key, s[j].key) {
          LessTransitive(e.key, s[0].key, s[j].key);
        }
      } else if e.key != s[0].key {
        InsertEntrySorts(s[1..], e);
        var rest := InsertEntry(s[1..], e);
        forall j | 0 <= j < |rest| ensures Less(s[0].key, rest[j].key) {
          if rest[j] != e {
            var i :| 0 <= i < |s[1..]| && s[1..][i] == rest[j];
            assert Less(s[0].key, s[i + 1].key);
          }
        }
      }
    }
  }

  lemma {:induction false} SortEntriesSorts(es: seq<Entry>)
    ensures StrictlySorted(SortEntries(es))
    ensures DistinctKeys(es) ==> forall i :: 0 <= i < |es| ==> es[i] in SortEntries(es)
  {
    if es != [] {
      var n := |es| - 1;
      SortEntriesSorts(es[..n]);
      InsertEntrySorts(SortEntries(es[..n]), es[n]);
      if DistinctKeys(es) {
        forall i | 0 <= i < |es| ensures es[i] in SortEntries(es) {
          if i < n {
            assert es[..n][i] == es[i] && es[i] in SortEntries(es[..n]);
          }
        }
      }
    }
  }

  lemma SortedIsDistinct(es: seq<Entry>)
    requires StrictlySorted(es)
    ensures DistinctKeys(es)
  {
    forall i, j | 0 <= i < j < |es| ensures es[i].key != es[j].key {
      LessIrreflexive(es[i].key);
    }
  }

  lemma IndexIs(es: seq<Entry>, i: nat)
    requires DistinctKeys(es) && i < |es|
    ensures IndexOfKey(es, es[i].key) == i
  {
    assert es[i].key in Keys(es);
    var k := IndexOfKey(es, es[i].key);
    assert !(k < i) && !(i < k);
  }

  /** Entry for entry, a sorted object holds what the object held. */
  lemma SortedEntry(es: seq<Entry>, k: string) returns (i: nat, j: nat)
    requires DistinctKeys(es) && k in Keys(es)
    ensures var sorted := SortEntries(es);
            i < |es| && j < |sorted| && IndexOfKey(es, k) == i && IndexOfKey(sorted, k) == j && es[i] == sorted[j]
  {
    var sorted := SortEntries(es);
    i := IndexOfKey(es, k);
    SortEntriesSorts(es);
    SortedIsDistinct(sorted);
    assert es[i] in sorted;
    j :| 0 <= j < |sorted| && sorted[j] == es[i];
    IndexIs(sorted, j);
  }

  lemma SortedKeySet(es: seq<Entry>)
    requires DistinctKeys(es)
    ensures Keys(SortEntries(es)) == Keys(es)
  {
    var sorted := SortEntries(es);
    forall k | k in Keys(es) ensures k in Keys(sorted) {
      var i, j := SortedEntry(es, k);
    }
    forall k | k in Keys(sorted) ensures k in Keys(es) {
      var j :| 0 <= j < |sorted| && sorted[j].key == k;
      var i :| 0 <= i < |es| && es[i] == sorted[j];
    }
  }

  /** The entries of a sorted object. */
  function SortedRecord(es: seq<Entry>): seq<Entry> {
    SortKeys(Record(es)).entries
  }

  lemma SortedRecordKeys(es: seq<Entry>)
    ensures |SortedRecord(es)| == |SortEntries(es)|
    ensures forall i :: 0 <= i < |SortEntries(es)| ==>
              SortedRecord(es)[i] == Entry(SortEntries(es)[i].key, SortKeys(SortEntries(es)[i].value))
    ensures Keys(SortedRecord(es)) == Keys(SortEntries(es))
    ensures StrictlySorted(SortedRecord(es))
  {
    SortEntriesSorts(es);
    var sorted, r := SortEntries(es), SortedRecord(es);
    assert forall i :: 0 <= i < |sorted| ==> r[i].key == sorted[i].key;
  }

  /** Sorting this document's keys yields a sorted document that says the same. */
  ghost predicate SortsWell(d: Doc) {
    Meaning(SortKeys(d)) == Meaning(d) && Sorted(SortKeys(d)) && Proper(SortKeys(d))
  }

  lemma {:induction false} SortKeysKeepsMeaning(d: Doc)
    requires Proper(d)
    ensures SortsWell(d)
  {
    match d
    case Atom(_) =>
    case List(items) =>
      forall i | 0 <= i < |items| ensures SortsWell(items[i]) {
        SortKeysKeepsMeaning(items[i]);
      }
      assert forall i :: 0 <= i < |items| ==> Meaning(SortKeys(d)).items[i] == Meaning(d).items[i];
    case Record(es) =>
      forall i | 0 <= i < |es| ensures SortsWell(es[i].value) {
        SortKeysKeepsMeaning(es[i].value);
      }
      RecordSortsWell(es);
  }

  lemma RecordSortsWell(es: seq<Entry>)
    requires Proper(Record(es)) && forall i :: 0 <= i < |es| ==> SortsWell(es[i].value)
    ensures SortsWell(Record(es))
  {
    assert SortKeys(Record(es)) == Record(SortedRecord(es));
    RecordIsSorted(es);
    RecordKeepsMeaning(es);
  }

  lemma RecordKeepsMeaning(es: seq<Entry>)
    requires DistinctKeys(es) && forall i :: 0 <= i < |es| ==> SortsWell(es[i].value)
    ensures Meaning(Record(SortedRecord(es))) == Meaning(Record(es))
  {
    var r := SortedRecord(es);
    SortedRecordKeys(es);
    SortedKeySet(es);
    forall k | k in Keys(es) ensures SameMember(r, es, k) {
      SortedMemberMeaning(es, k);
    }
    SameMembers(r, es);
  }

  ghost predicate SameMember(x: seq<Entry>, y: seq<Entry>, k: string)
    requires k in Keys(x) && k in Keys(y)
  {
    Meaning(x[IndexOfKey(x, k)].value) == Meaning(y[IndexOfKey(y, k)].value)
  }

  lemma SameMembers(x: seq<Entry>, y: seq<Entry>)
    requires Keys(x) == Keys(y) && forall k :: k in Keys(x) ==> SameMember(x, y, k)
    ensures Meaning(Record(x)) == Meaning(Record(y))
  {
    forall k | k in Keys(x) ensures Meaning(Record(x)).entries[k] == Meaning(Record(y)).entries[k] {
      assert SameMember(x, y, k);
    }
    assert Meaning(Record(x)).entries == Meaning(Record(y)).entries;
  }

  lemma RecordIsSorted(es: seq<Entry>)
    requires forall i :: 0 <= i < |es| ==> Sorted(SortKeys(es[i].value)) && Proper(SortKeys(es[i].value))
    ensures Sorted(Record(SortedRecord(es))) && Proper(Record(SortedRecord(es)))
  {
    var r := SortedRecord(es);
    SortedRecordKeys(es);
    SortedIsDistinct(r);
    forall i | 0 <= i < |r| ensures Sorted(r[i].value) && Proper(r[i].value) {
      var j :| 0 <= j < |es| && es[j] == SortEntries(es)[i];
    }
  }

  lemma SortedMemberMeaning(es: seq<Entry>, k: string)
    requires DistinctKeys(es) && k in Keys(es) && forall i :: 0 <= i < |es| ==> SortsWell(es[i].value)
    ensures k in Keys(SortedRecord(es))
    ensures Meaning(SortedRecord(es)[IndexOfKey(SortedRecord(es), k)].value) == Meaning(es[IndexOfKey(es, k)].value)
  {
    var i, j := SortedEntry(es, k);
    SortedRecordKeys(es);
    SortedIsDistinct(SortedRecord(es));
    assert SortedRecord(es)[j].key == k;
    IndexIs(SortedRecord(es), j);
  }

  // ------------------------------------------------------------- and the only one there is

  lemma NoKeys(x: seq<Entry>)
    ensures Keys(x) == {} <==> x == []
  {
    if x != [] {
      assert x[0].key in Keys(x);
    }
  }

  lemma KeysTail(x: seq<Entry>)
    requires StrictlySorted(x) && x != []
    ensures Keys(x[1..]) == Keys(x) - {x[0].key}
  {
    SortedIsDistinct(x);
    assert forall i :: 1 <= i < |x| ==> x[i] == x[1..][i - 1];
  }

  lemma FirstKeyLeast(x: seq<Entry>, k: string)
    requires StrictlySorted(x) && x != [] && k in Keys(x)
    ensures k == x[0].key || Less(x[0].key, k)
  {
  }

  /** Two sorted objects with the same keys list them in the same order. */
  lemma {:induction false} SameKeysSameOrder(x: seq<Entry>, y: seq<Entry>)
    requires StrictlySorted(x) && StrictlySorted(y) && Keys(x) == Keys(y)
    ensures |x| == |y| && forall i :: 0 <= i < |x| ==> x[i].key == y[i].key
  {
    NoKeys(x);
    NoKeys(y);
    if x != [] && y != [] {
      assert x[0].key in Keys(y) && y[0].key in Keys(x);
      FirstKeyLeast(x, y[0].key);
      FirstKeyLeast(y, x[0].key);
      LessTrichotomy(x[0].key, y[0].key);
      KeysTail(x);
      KeysTail(y);
      SameKeysSameOrder(x[1..], y[1..]);
      forall i | 1 <= i < |x| ensures x[i].key == y[i].key {
        assert x[i] == x[1..][i - 1] && y[i] == y[1..][i - 1];
      }
    }
  }

  /** A meaning has one sorted document. */
  lemma {:induction false} SortedIsUnique(a: Doc, b: Doc)
    requires Sorted(a) && Sorted(b) && Meaning(a) == Meaning(b)
    ensures a == b
  {
    match a
    case Atom(_) =>
    case List(items) =>
      var m := Meaning(a).items;
      assert |b.items| == |m| == |items|;
      forall i | 0 <= i < |items| ensures items[i] == b.items[i] {
        assert m[i] == Meaning(items[i]) == Meaning(b.items[i]);
        SortedIsUnique(items[i], b.items[i]);
      }
    case Record(es) =>
      var m := Meaning(a).entries;
      assert m.Keys == Keys(es) == Keys(b.entries);
      SameKeysSameOrder(es, b.entries);
      SortedIsDistinct(es);
      SortedIsDistinct(b.entries);
      forall i | 0 <= i < |es| ensures es[i] == b.entries[i] {
        IndexIs(es, i);
        IndexIs(b.entries, i);
        assert es[i].key in Keys(es);
        assert m[es[i].key] == Meaning(es[i].value) == Meaning(b.entries[i].value);
        SortedIsUnique(es[i].value, b.entries[i].value);
      }
  }

  /** Two documents sort to the same one exactly when they are equal up to the order of keys. */
  lemma SortKeysIsCanonical(a: Doc, b: Doc)
    requires Proper(a) && Proper(b)
    ensures SortKeys(a) == SortKeys(b) <==> Meaning(a) == Meaning(b)
  {
    SortKeysKeepsMeaning(a);
    SortKeysKeepsMeaning(b);
    if Meaning(a) == Meaning(b) {
      SortedIsUnique(SortKeys(a), SortKeys(b));
    }
  }

  /** Sorting a second time changes nothing. */
  lemma SortKeysIsIdempotent(d: Doc)
    requires Proper(d)
    ensures SortKeys(SortKeys(d)) == SortKeys(d)
  {
    SortKeysKeepsMeaning(d);
    SortKeysIsCanonical(SortKeys(d), d);
  }

  // ------------------------------------------------------------------------- lookups

  /** The document below a list of keys and array positions. */
  datatype Step = Member(key: string) | Element(index: nat)

  function Lookup(d: Doc, path: seq<Step>): Option<Doc>
    decreases |path|
  {
    if path == [] then Some(d)
    else match (d, path[0])
      case (Record(es), Member(k)) => if k in Keys(es) then Lookup(es[IndexOfKey(es, k)].value, path[1..]) else None
      case (List(items), Element(i)) => if i < |items| then Lookup(items[i], path[1..]) else None
      case _ => None
  }

  /** Every lookup finds, in the sorted document, what it found before, sorted. */
  lemma {:induction false} SortKeysKeepsLookups(d: Doc, path: seq<Step>)
    requires Proper(d)
    ensures Lookup(SortKeys(d), path) ==
            match Lookup(d, path)
            case None => None
            case Some(found) => Some(SortKeys(found))
    decreases |path|
  {
    if path != [] {
      match (d, path[0])
      case (Record(es), Member(k)) =>
        SortedRecordKeys(es);
        SortedKeySet(es);
        if k in Keys(es) {
          var i, j := SortedEntry(es, k);
          SortedIsDistinct(SortedRecord(es));
          IndexIs(SortedRecord(es), j);
          SortKeysKeepsLookups(es[i].value, path[1..]);
        }
      case (List(items), Element(i)) =>
        if i < |items| {
          SortKeysKeepsLookups(items[i], path[1..]);
        }
      case _ =>
    }
  }

  // -------------------------------------------------------------------- canonicalize

  /** Insertion into a map that keeps its order: in place, or at the end. */
  function SetKey(es: seq<Entry>, k: string, v: Doc): seq<Entry> {
    var i := IndexOfKey(es, k);
    if i < |es| then es[i := Entry(k, v)] else es + [Entry(k, v)]
  }

  const BASE_PATH := "/api/v1"

  datatype SpecError = RootIsNoObject | NoInfoObject

  /** `canonicalize` after parsing: pin the version and the base path, then sort. */
  method Canonicalize(doc: Doc, version: string) returns (r: Result<Doc, SpecError>)
    requires Proper(doc)
    ensures IsPinning(doc, Pinned(Meaning(doc), version), r)
  {
    r := PinAndSort(doc, "info", "version", Atom(StringValue(version)), "basePath", Atom(StringValue(BASE_PATH)));
  }

  /** The sorted document with the pinned meaning, or the reason why nothing could be pinned. */
  ghost predicate IsPinning(doc: Doc, pinned: Option<Json>, r: Result<Doc, SpecError>) {
    match pinned
    case None => r == Err(if doc.Record? then NoInfoObject else RootIsNoObject)
    case Some(m) => r.Ok? && Sorted(r.value) && Proper(r.value) && Meaning(r.value) == m
  }

  method PinAndSort(doc: Doc, k: string, l: string, v: Doc, b: string, w: Doc) returns (r: Result<Doc, SpecError>)
    requires Proper(doc) && Proper(v) && Proper(w)
    ensures IsPinning(doc, PinnedAt(Meaning(doc), k, l, Meaning(v), b, Meaning(w)), r)
  {
    if !doc.Record? {
      return Err(RootIsNoObject);
    }
    var es := doc.entries;
    var at := IndexOfKey(es, k);
    PinnedEntries(es, k, l, v, b, w);
    if at == |es| || !es[at].value.Record? {
      return Err(NoInfoObject);
    }
    es := SetKey(es, k, Record(SetKey(es[at].value.entries, l, v)));
    es := SetKey(es, b, w);
    SortKeysKeepsMeaning(Record(es));
    return Ok(SortKeys(Record(es)));
  }

  lemma PinnedEntries(es: seq<Entry>, k: string, l: string, v: Doc, b: string, w: Doc)
    requires Proper(Record(es)) && Proper(v) && Proper(w)
    ensures var at := IndexOfKey(es, k);
            if at == |es| || !es[at].value.Record? then PinnedAt(Meaning(Record(es)), k, l, Meaning(v), b, Meaning(w)).None?
            else
              var out := Record(SetKey(SetKey(es, k, Record(SetKey(es[at].value.entries, l, v))), b, w));
              Proper(out) && PinnedAt(Meaning(Record(es)), k, l, Meaning(v), b, Meaning(w)) == Some(Meaning(out))
  {
    var at := IndexOfKey(es, k);
    if at < |es| {
      assert Meaning(Record(es)).entries[k] == Meaning(es[at].value);
      if es[at].value.Record? {
        var inner := es[at].value.entries;
        SetKeyMeaning(inner, l, v);
        SetTwoKeys(es, k, Record(SetKey(inner, l, v)), b, w);
      }
    }
  }

  lemma SetTwoKeys(es: seq<Entry>, k: string, v: Doc, l: string, w: Doc)
    requires Proper(Record(es)) && Proper(v) && Proper(w)
    ensures var r := Record(SetKey(SetKey(es, k, v), l, w));
            Proper(r) && Meaning(r) == Obj(Meaning(Record(es)).entries[k := Meaning(v)][l := Meaning(w)])
  {
    SetKeyMeaning(es, k, v);
    SetKeyMeaning(SetKey(es, k, v), l, w);
  }

  lemma SetKeyMeaning(es: seq<Entry>, k: string, v: Doc)
    requires Proper(Record(es)) && Proper(v)
    ensures Proper(Record(SetKey(es, k, v)))
    ensures Meaning(Record(SetKey(es, k, v))) == Obj(Meaning(Record(es)).entries[k := Meaning(v)])
  {
    SetKeyKeys(es, k, v);
    SetKeyReads(es, SetKey(es, k, v), k, v);
  }

  lemma SetKeyReads(es: seq<Entry>, r: seq<Entry>, k: string, v: Doc)
    requires r == SetKey(es, k, v) && DistinctKeys(es) && DistinctKeys(r) && Keys(r) == Keys(es) + {k}
    ensures Meaning(Record(r)) == Obj(Meaning(Record(es)).entries[k := Meaning(v)])
  {
    forall key | key in Keys(r) ensures Overwritten(es, r, k, Meaning(v), key) {
      SetKeyAt(es, k, v, key);
    }
    OverwrittenMeaning(es, r, k, Meaning(v));
  }

  /** The member `key` of `r` is that of `es`, except that `k` holds `m`. */
  ghost predicate Overwritten(es: seq<Entry>, r: seq<Entry>, k: string, m: Json, key: string)
    requires key in Keys(r) && Keys(r) == Keys(es) + {k}
  {
    Meaning(r[IndexOfKey(r, key)].value) == if key == k then m else Meaning(es[IndexOfKey(es, key)].value)
  }

  lemma MembersOf(es: seq<Entry>)
    ensures Meaning(Record(es)).Obj? && Meaning(Record(es)).entries.Keys == Keys(es)
    ensures forall key :: key in Keys(es) ==> Meaning(Record(es)).entries[key] == Meaning(es[IndexOfKey(es, key)].value)
  {
  }

  lemma OverwrittenMeaning(es: seq<Entry>, r: seq<Entry>, k: string, m: Json)
    requires Keys(r) == Keys(es) + {k} && forall key :: key in Keys(r) ==> Overwritten(es, r, k, m, key)
    ensures Meaning(Record(r)) == Obj(Meaning(Record(es)).entries[k := m])
  {
    var x, y := Meaning(Record(r)).entries, Meaning(Record(es)).entries[k := m];
    MembersOf(r);
    MembersOf(es);
    forall key | key in Keys(r) ensures x[key] == y[key] {
      assert Overwritten(es, r, k, m, key);
    }
    assert x == y;
  }

  lemma SetKeyKeys(es: seq<Entry>, k: string, v: Doc)
    requires Proper(Record(es)) && Proper(v)
    ensures Keys(SetKey(es, k, v)) == Keys(es) + {k} && Proper(Record(SetKey(es, k, v)))
  {
    var r := SetKey(es, k, v);
    var i := IndexOfKey(es, k);
    assert r[i].key == k;
    assert forall j :: 0 <= j < |es| && j != i ==> r[j] == es[j];
  }

  lemma SetKeyAt(es: seq<Entry>, k: string, v: Doc, key: string)
    requires DistinctKeys(es) && DistinctKeys(SetKey(es, k, v)) && key in Keys(SetKey(es, k, v))
    requires key != k ==> key in Keys(es)
    ensures SetKey(es, k, v)[IndexOfKey(SetKey(es, k, v), key)].value == if key == k then v else es[IndexOfKey(es, key)].value
  {
    var r := SetKey(es, k, v);
    var i := if key == k then IndexOfKey(es, k) else IndexOfKey(es, key);
    assert r[i].key == key;
    IndexIs(r, i);
  }

  /** `m` with `v` at key `l` of its member `k`, which must be an object, and `w` at key `b`. */
  function PinnedAt(m: Json, k: string, l: string, v: Json, b: string, w: Json): Option<Json> {
    if !m.Obj? || k !in m.entries || !m.entries[k].Obj? then None
    else Some(Obj(m.entries[k := Obj(m.entries[k].entries[l := v])][b := w]))
  }

  /** What canonicalizing means: `/info/version` and `/basePath` set, given an `info` object. */
  function Pinned(m: Json, version: string): Option<Json> {
    PinnedAt(m, "info", "version", Str(version), "basePath", Str(BASE_PATH))
  }

  /** Pinning is writing two locations. */
  lemma PinnedIsTwoPuts(m: Json, k: string, l: string, v: Json, b: string, w: Json)
    requires PinnedAt(m, k, l, v, b, w).Some?
    ensures PinnedAt(m, k, l, v, b, w) == Then(Put(m, [k, l], v), [b], w)
  {
    assert [k, l][1..] == [l];
  }

  /** Two canonical documents are the same one exactly when the specifications pin to the same meaning. */
  lemma CanonicalDocIsUnique(a: Doc, b: Doc, version: string, x: Doc, y: Doc)
    requires Sorted(x) && Sorted(y)
    requires Pinned(Meaning(a), version) == Some(Meaning(x)) && Pinned(Meaning(b), version) == Some(Meaning(y))
    ensures x == y <==> Pinned(Meaning(a), version) == Pinned(Meaning(b), version)
  {
    if Meaning(x) == Meaning(y) {
      SortedIsUnique(x, y);
    }
  }
}
