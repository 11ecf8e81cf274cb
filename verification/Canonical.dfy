/**
 * Key-order canonicalisation for payload hashes (src/common/utils/hash.util.js).
 *
 * An object is its own properties in their enumeration order. Building an object
 * follows the language: array-index keys are enumerated first, in numeric order,
 * other keys in order of insertion, and assigning to __proto__ creates no own
 * property.
 */
module Canonical {
  import opened Prelude

  datatype Json =
    | Null
    | Bool(b: bool)
    | Num(text: string)
    | Str(s: string)
    | Arr(items: seq<Json>)
    | Obj(fields: seq<Field>)

  datatype Field = Field(key: string, value: Json)

  const PROTO := "__proto__"

  // ---------- key orders ----------

  /**
   * The default order of Array.prototype.sort, except that the program compares UTF-16
   * code units and this compares characters, which differs for supplementary ones. All
   * results need only some strict total order of keys.
   */
  predicate KeyLess(a: string, b: string) {
    if b == "" then false
    else if a == "" then true
    else a[0] < b[0] || (a[0] == b[0] && KeyLess(a[1..], b[1..]))
  }

  lemma {:induction false} KeyLessIsStrict(a: string, b: string)
    ensures KeyLess(a, b) ==> !KeyLess(b, a) && a != b
    ensures KeyLess(a, b) || KeyLess(b, a) || a == b
  {
    if a != "" && b != "" {
      KeyLessIsStrict(a[1..], b[1..]);
      assert a[0] == b[0] && a[1..] == b[1..] ==> [a[0]] + a[1..] == [b[0]] + b[1..];
      assert a == [a[0]] + a[1..] && b == [b[0]] + b[1..];
    }
  }

  /** The texts agree up to some point, and there the first one ends or has the lower character. */
  predicate LowerAt(a: string, b: string, n: nat) {
    n <= |a| && n < |b| && a[..n] == b[..n] && (n == |a| || a[n] < b[n])
  }

  lemma {:induction false} KeyLessIsLexicographic(a: string, b: string)
    ensures KeyLess(a, b) <==> exists n: nat :: LowerAt(a, b, n)
  {
    if a == "" && b != "" { assert LowerAt(a, b, 0); }
    if a != "" && b != "" {
      if a[0] < b[0] { assert LowerAt(a, b, 0); }
      if a[0] == b[0] {
        KeyLessIsLexicographic(a[1..], b[1..]);
        if n: nat :| LowerAt(a[1..], b[1..], n) {
          assert a[..n + 1] == [a[0]] + a[1..][..n] && b[..n + 1] == [b[0]] + b[1..][..n];
          assert LowerAt(a, b, n + 1);
        }
      }
      if n: nat :| LowerAt(a, b, n) {
        if n > 0 {
          assert a[..n][0] == b[..n][0];
          assert a[1..][..n - 1] == a[..n][1..] && b[1..][..n - 1] == b[..n][1..];
          assert LowerAt(a[1..], b[1..], n - 1);
        }
      }
    }
  }

  lemma {:induction false} KeyLessIsTransitive(a: string, b: string, c: string)
    requires KeyLess(a, b) && KeyLess(b, c)
    ensures KeyLess(a, c)
  {
    if a != "" && b != "" && c != "" && a[0] == b[0] == c[0] {
      KeyLessIsTransitive(a[1..], b[1..], c[1..]);
    }
  }

  predicate IsDecimal(k: string) {
    k != "" && (forall i | 0 <= i < |k| :: IsDigit(k[i])) && (k[0] == '0' ==> k == "0")
  }

  /** A canonical decimal below 2^32 - 1. */
  predicate IsArrayIndex(k: string) { IsDecimal(k) && NumberOf(k) < 0xFFFF_FFFF }

  lemma {:induction false} DecimalIsPositive(k: string)
    requires IsDecimal(k) && k[0] != '0'
    ensures NumberOf(k) >= 1 && (|k| > 1 ==> NumberOf(k) >= 10)
  {
    if |k| > 1 { DecimalIsPositive(k[..|k| - 1]); } else { assert k[..0] == ""; }
  }

  /** Decimals without leading zeros denote different numbers. */
  lemma {:induction false} DecimalsDiffer(a: string, b: string)
    requires IsDecimal(a) && IsDecimal(b) && NumberOf(a) == NumberOf(b)
    ensures a == b
  {
    var m, n := |a| - 1, |b| - 1;
    assert a == a[..m] + [a[m]] && b == b[..n] + [b[n]];
    assert IsDigit(a[m]) && IsDigit(b[n]);
    if m > 0 { DecimalIsPositive(a); }
    if n > 0 { DecimalIsPositive(b); }
    if m > 0 && n > 0 {
      DecimalsDiffer(a[..m], b[..n]);
    } else {
      assert a[..0] == "" && b[..0] == "";
    }
  }

  /** Must an own property k be enumerated before an existing one named m? */
  predicate EnumeratesBefore(k: string, m: string) {
    IsArrayIndex(k) && (IsArrayIndex(m) ==> NumberOf(k) < NumberOf(m))
  }

  /** acc[key] = value for a key that acc does not have yet. */
  function Put(acc: seq<Field>, f: Field): seq<Field> {
    if acc == [] then [f]
    else if EnumeratesBefore(f.key, acc[0].key) then [f] + acc
    else [acc[0]] + Put(acc[1..], f)
  }

  // ---------- sortObjectKeys ----------

  function InsertField(fs: seq<Field>, f: Field): seq<Field> {
    if fs == [] then [f]
    else if KeyLess(f.key, fs[0].key) then [f] + fs
    else [fs[0]] + InsertField(fs[1..], f)
  }

  function SortFields(fs: seq<Field>): seq<Field> {
    if fs == [] then [] else InsertField(SortFields(fs[1..]), fs[0])
  }

  /** The reduce over the sorted keys, into a fresh object. */
  function Build(fs: seq<Field>): seq<Field> {
    if fs == [] then []
    else
      var acc := Build(fs[..|fs| - 1]);
      var f := fs[|fs| - 1];
      if f.key == PROTO then acc else Put(acc, f)
  }

  function SortObjectKeys(j: Json): Json
    decreases j, 1
  {
    match j
    case Arr(items) => Arr(SortItems(items))
    case Obj(fields) => Obj(Build(SortFields(SortValues(fields))))
    case _ => j
  }

  function SortItems(items: seq<Json>): (r: seq<Json>)
    ensures |r| == |items|
    decreases items, 0
  {
    if items == [] then [] else [SortObjectKeys(items[0])] + SortItems(items[1..])
  }

  /** Every property with its value canonicalised; sorting by key commutes with that. */
  function SortValues(fields: seq<Field>): (r: seq<Field>)
    ensures |r| == |fields|
    decreases fields, 0
  {
    if fields == [] then []
    else [Field(fields[0].key, SortObjectKeys(fields[0].value))] + SortValues(fields[1..])
  }

  // ---------- equality up to key order ----------

  /** No object repeats a key, at any depth. */
  predicate WellFormed(j: Json)
    decreases j
  {
    match j
    case Arr(items) => forall i | 0 <= i < |items| :: WellFormed(items[i])
    case Obj(fields) =>
      && (forall i, k | 0 <= i < k < |fields| :: fields[i].key != fields[k].key)
      && (forall i | 0 <= i < |fields| :: WellFormed(fields[i].value))
    case _ => true
  }

  predicate HasKey(fs: seq<Field>, key: string) {
    exists i | 0 <= i < |fs| :: fs[i].key == key
  }

  /** Some property of gs has f's key and an equal value. */
  ghost predicate HasPartner(f: Field, gs: seq<Field>)
    decreases f, 0
  {
    exists k | 0 <= k < |gs| :: gs[k].key == f.key && SameUpToOrder(f.value, gs[k].value)
  }

  /** Equal at every depth, leaving aside the order of keys and any property named __proto__. */
  ghost predicate SameUpToOrder(a: Json, b: Json)
    decreases a, 0
  {
    match a
    case Arr(xs) => b.Arr? && |b.items| == |xs| && forall i | 0 <= i < |xs| :: SameUpToOrder(xs[i], b.items[i])
    case Obj(fs) =>
      && b.Obj?
      && (forall i | 0 <= i < |fs| && fs[i].key != PROTO :: HasPartner(fs[i], b.fields))
      && (forall k | 0 <= k < |b.fields| && b.fields[k].key != PROTO :: HasKey(fs, b.fields[k].key))
    case _ => a == b
  }

  // ---------- what the pieces do to a list of properties ----------

  ghost predicate DistinctKeys(fs: seq<Field>) {
    forall i, k | 0 <= i < k < |fs| :: fs[i].key != fs[k].key
  }

  ghost predicate Ascending(fs: seq<Field>) {
    forall i, k | 0 <= i < k < |fs| :: KeyLess(fs[i].key, fs[k].key)
  }

  lemma {:induction false} ValuesAt(fields: seq<Field>, i: nat)
    requires i < |fields|
    ensures SortValues(fields)[i] == Field(fields[i].key, SortObjectKeys(fields[i].value))
  {
    if i > 0 { ValuesAt(fields[1..], i - 1); }
  }

  lemma {:induction false} ItemsAt(items: seq<Json>, i: nat)
    requires i < |items|
    ensures SortItems(items)[i] == SortObjectKeys(items[i])
  {
    if i > 0 { ItemsAt(items[1..], i - 1); }
  }

  lemma {:induction false} PutMembers(acc: seq<Field>, f: Field, g: Field)
    ensures g in Put(acc, f) <==> g in acc || g == f
  {
    if acc != [] && !EnumeratesBefore(f.key, acc[0].key) {
      PutMembers(acc[1..], f, g);
      assert acc == [acc[0]] + acc[1..];
    }
  }

  lemma {:induction false} BuildMembers(fs: seq<Field>, g: Field)
    ensures g in Build(fs) <==> g in fs && g.key != PROTO
  {
    if fs != [] {
      var n := |fs| - 1;
      BuildMembers(fs[..n], g);
      PutMembers(Build(fs[..n]), fs[n], g);
      assert fs == fs[..n] + [fs[n]];
    }
  }

  lemma {:induction false} InsertMembers(fs: seq<Field>, f: Field, g: Field)
    ensures g in InsertField(fs, f) <==> g in fs || g == f
  {
    if fs != [] && !KeyLess(f.key, fs[0].key) {
      InsertMembers(fs[1..], f, g);
      assert fs == [fs[0]] + fs[1..];
    }
  }

  lemma {:induction false} SortMembers(fs: seq<Field>, g: Field)
    ensures g in SortFields(fs) <==> g in fs
  {
    if fs != [] {
      SortMembers(fs[1..], g);
      InsertMembers(SortFields(fs[1..]), fs[0], g);
      assert fs == [fs[0]] + fs[1..];
    }
  }

  lemma {:induction false} InsertAscends(fs: seq<Field>, f: Field)
    requires Ascending(fs) && forall g | g in fs :: g.key != f.key
    ensures Ascending(InsertField(fs, f))
  {
    if fs != [] {
      KeyLessIsStrict(f.key, fs[0].key);
      assert fs[0] in fs;
      if KeyLess(f.key, fs[0].key) {
        forall k | 0 <= k < |fs| ensures KeyLess(f.key, fs[k].key) {
          if k > 0 { KeyLessIsTransitive(f.key, fs[0].key, fs[k].key); }
        }
      } else {
        InsertAscends(fs[1..], f);
        var rest := InsertField(fs[1..], f);
        forall k | 0 <= k < |rest| ensures KeyLess(fs[0].key, rest[k].key) {
          InsertMembers(fs[1..], f, rest[k]);
        }
      }
    }
  }

  lemma {:induction false} SortAscends(fs: seq<Field>)
    requires DistinctKeys(fs)
    ensures Ascending(SortFields(fs))
  {
    if fs != [] {
      SortAscends(fs[1..]);
      forall g | g in SortFields(fs[1..]) ensures g.key != fs[0].key { SortMembers(fs[1..], g); }
      InsertAscends(SortFields(fs[1..]), fs[0]);
    }
  }

  function DropProto(fs: seq<Field>): seq<Field> {
    if fs == [] then []
    else (if fs[0].key == PROTO then [] else [fs[0]]) + DropProto(fs[1..])
  }

  lemma {:induction false} DropProtoMembers(fs: seq<Field>, g: Field)
    ensures g in DropProto(fs) <==> g in fs && g.key != PROTO
  {
    if fs != [] {
      DropProtoMembers(fs[1..], g);
      assert fs == [fs[0]] + fs[1..];
    }
  }

  lemma {:induction false} DropProtoAscends(fs: seq<Field>)
    requires Ascending(fs)
    ensures Ascending(DropProto(fs))
  {
    if fs != [] {
      DropProtoAscends(fs[1..]);
      var rest := DropProto(fs[1..]);
      forall k | 0 <= k < |rest| ensures KeyLess(fs[0].key, rest[k].key) {
        DropProtoMembers(fs[1..], rest[k]);
      }
    }
  }

  lemma {:induction false} DropProtoConcat(a: seq<Field>, b: seq<Field>)
    ensures DropProto(a + b) == DropProto(a) + DropProto(b)
  {
    if a == [] {
      assert a + b == b;
    } else {
      assert (a + b)[1..] == a[1..] + b;
      DropProtoConcat(a[1..], b);
    }
  }

  lemma {:induction false} BuildIgnoresProto(fs: seq<Field>)
    ensures Build(fs) == Build(DropProto(fs))
  {
    if fs != [] {
      var n := |fs| - 1;
      BuildIgnoresProto(fs[..n]);
      assert fs == fs[..n] + [fs[n]];
      DropProtoConcat(fs[..n], [fs[n]]);
      if fs[n].key != PROTO {
        assert DropProto([fs[n]]) == [fs[n]];
        var d := DropProto(fs[..n]);
        assert DropProto(fs) == d + [fs[n]];
        assert (d + [fs[n]])[..|d|] == d;
      } else {
        assert DropProto(fs) == DropProto(fs[..n]);
      }
    }
  }

  /** An ascending list is determined by its members. */
  lemma {:induction false} AscendingIsUnique(p: seq<Field>, q: seq<Field>)
    requires Ascending(p) && Ascending(q) && forall g: Field :: g in p <==> g in q
    ensures p == q
  {
    assert p != [] ==> p[0] in p;
    assert q != [] ==> q[0] in q;
    if p != [] {
      assert p[0] in q && q[0] in p;
      FirstIsLeast(p, q[0]);
      FirstIsLeast(q, p[0]);
      KeyLessIsStrict(p[0].key, q[0].key);
      forall g: Field ensures g in p[1..] <==> g in q[1..] {
        TailMembers(p, g);
        TailMembers(q, g);
      }
      AscendingIsUnique(p[1..], q[1..]);
      assert p == [p[0]] + p[1..] && q == [q[0]] + q[1..];
    }
  }

  lemma FirstIsLeast(p: seq<Field>, g: Field)
    requires Ascending(p) && g in p
    ensures g == p[0] || KeyLess(p[0].key, g.key)
  {
    var i :| 0 <= i < |p| && p[i] == g;
  }

  lemma TailMembers(p: seq<Field>, g: Field)
    requires Ascending(p) && p != []
    ensures g in p[1..] <==> g in p && g != p[0]
  {
    assert p == [p[0]] + p[1..];
    if g in p[1..] {
      var i :| 0 <= i < |p[1..]| && p[1..][i] == g;
      KeyLessIsStrict(p[0].key, p[i + 1].key);
    }
  }

  /** The object built from a list depends only on which properties other than __proto__ it has. */
  lemma BuildDependsOnMembers(fs: seq<Field>, gs: seq<Field>)
    requires DistinctKeys(fs) && DistinctKeys(gs)
    requires forall g: Field | g.key != PROTO :: g in fs <==> g in gs
    ensures Build(SortFields(fs)) == Build(SortFields(gs))
  {
    SortAscends(fs);
    SortAscends(gs);
    DropProtoAscends(SortFields(fs));
    DropProtoAscends(SortFields(gs));
    forall g: Field ensures g in DropProto(SortFields(fs)) <==> g in DropProto(SortFields(gs)) {
      DropProtoMembers(SortFields(fs), g);
      DropProtoMembers(SortFields(gs), g);
      SortMembers(fs, g);
      SortMembers(gs, g);
    }
    AscendingIsUnique(DropProto(SortFields(fs)), DropProto(SortFields(gs)));
    BuildIgnoresProto(SortFields(fs));
    BuildIgnoresProto(SortFields(gs));
  }

  /** The properties of a canonical object are the canonicalised ones of the original, without __proto__. */
  lemma CanonicalMembers(fs: seq<Field>, g: Field)
    ensures g in Build(SortFields(SortValues(fs)))
       <==> g.key != PROTO && exists i | 0 <= i < |fs| :: fs[i].key == g.key && SortObjectKeys(fs[i].value) == g.value
  {
    BuildMembers(SortFields(SortValues(fs)), g);
    SortMembers(SortValues(fs), g);
    if g in SortValues(fs) {
      var i :| 0 <= i < |fs| && SortValues(fs)[i] == g;
      ValuesAt(fs, i);
    }
    if i :| 0 <= i < |fs| && fs[i].key == g.key && SortObjectKeys(fs[i].value) == g.value {
      ValuesAt(fs, i);
      assert SortValues(fs)[i] == g;
    }
  }

  // ---------- the main theorem ----------

  /** Canonical forms coincide exactly when the trees are equal up to key order. */
  lemma {:induction false} CanonicalFormDecidesEquality(a: Json, b: Json)
    requires WellFormed(a) && WellFormed(b)
    ensures SortObjectKeys(a) == SortObjectKeys(b) <==> SameUpToOrder(a, b)
    decreases a, 3
  {
    if a.Arr? && b.Arr? {
      ArraysAgree(a, b);
    } else if a.Obj? && b.Obj? {
      if SortObjectKeys(a) == SortObjectKeys(b) { ObjectsMatch(a, b); }
      if SameUpToOrder(a, b) { ObjectsCoincide(a, b); }
    }
  }

  lemma {:induction false} ArraysAgree(a: Json, b: Json)
    requires WellFormed(a) && WellFormed(b) && a.Arr? && b.Arr?
    ensures SortObjectKeys(a) == SortObjectKeys(b) <==> SameUpToOrder(a, b)
    decreases a, 0
  {
    var xs, ys := a.items, b.items;
    if |xs| == |ys| {
      forall i | 0 <= i < |xs|
        ensures SortItems(xs)[i] == SortItems(ys)[i] <==> SameUpToOrder(xs[i], ys[i])
      {
        ItemsAt(xs, i);
        ItemsAt(ys, i);
        CanonicalFormDecidesEquality(xs[i], ys[i]);
      }
      if SameUpToOrder(a, b) { assert SortItems(xs) == SortItems(ys); }
    } else {
      assert |SortItems(xs)| != |SortItems(ys)|;
    }
  }

  lemma {:induction false} ObjectsMatch(a: Json, b: Json)
    requires WellFormed(a) && WellFormed(b) && a.Obj? && b.Obj? && SortObjectKeys(a) == SortObjectKeys(b)
    ensures SameUpToOrder(a, b)
    decreases a, 0
  {
    var fs, gs := a.fields, b.fields;
    forall i | 0 <= i < |fs| && fs[i].key != PROTO
      ensures HasPartner(fs[i], gs)
    {
      var g := Field(fs[i].key, SortObjectKeys(fs[i].value));
      CanonicalMembers(fs, g);
      CanonicalMembers(gs, g);
      var k :| 0 <= k < |gs| && gs[k].key == g.key && SortObjectKeys(gs[k].value) == g.value;
      CanonicalFormDecidesEquality(fs[i].value, gs[k].value);
    }
    forall k | 0 <= k < |gs| && gs[k].key != PROTO
      ensures HasKey(fs, gs[k].key)
    {
      var g := Field(gs[k].key, SortObjectKeys(gs[k].value));
      CanonicalMembers(gs, g);
      CanonicalMembers(fs, g);
    }
  }

  lemma PartnersExist(a: Json, b: Json)
    requires a.Obj? && b.Obj? && SameUpToOrder(a, b)
    ensures forall i | 0 <= i < |a.fields| && a.fields[i].key != PROTO :: HasPartner(a.fields[i], b.fields)
    ensures forall k | 0 <= k < |b.fields| && b.fields[k].key != PROTO :: HasKey(a.fields, b.fields[k].key)
  {
    hide HasPartner;
    hide HasKey;
  }

  lemma PartnerOf(a: Json, b: Json, i: nat) returns (k: nat)
    requires a.Obj? && b.Obj? && SameUpToOrder(a, b) && i < |a.fields| && a.fields[i].key != PROTO
    ensures k < |b.fields| && b.fields[k].key == a.fields[i].key && SameUpToOrder(a.fields[i].value, b.fields[k].value)
  {
    PartnersExist(a, b);
    hide SameUpToOrder;
    k :| && 0 <= k < |b.fields| && b.fields[k].key == a.fields[i].key
         && SameUpToOrder(a.fields[i].value, b.fields[k].value);
  }

  lemma OriginOf(a: Json, b: Json, k: nat) returns (i: nat)
    requires a.Obj? && b.Obj? && SameUpToOrder(a, b) && k < |b.fields| && b.fields[k].key != PROTO
    ensures i < |a.fields| && a.fields[i].key == b.fields[k].key
  {
    PartnersExist(a, b);
    hide SameUpToOrder;
    i :| 0 <= i < |a.fields| && a.fields[i].key == b.fields[k].key;
  }

  lemma WellFormedParts(a: Json)
    requires WellFormed(a) && a.Obj?
    ensures DistinctKeys(a.fields) && forall i | 0 <= i < |a.fields| :: WellFormed(a.fields[i].value)
  {
  }

  lemma {:induction false} PropertyCarriesOver(a: Json, b: Json, i: nat) returns (k: nat)
    requires WellFormed(a) && WellFormed(b) && a.Obj? && b.Obj? && SameUpToOrder(a, b)
    requires i < |a.fields| && a.fields[i].key != PROTO
    ensures k < |b.fields| && b.fields[k].key == a.fields[i].key && SortValues(b.fields)[k] == SortValues(a.fields)[i]
    decreases a, 0
  {
    hide SameUpToOrder;
    hide WellFormed;
    hide SortObjectKeys;
    hide SortValues;
    var fs, gs := a.fields, b.fields;
    k := PartnerOf(a, b, i);
    WellFormedParts(a);
    WellFormedParts(b);
    CanonicalFormDecidesEquality(fs[i].value, gs[k].value);
    ValuesAt(fs, i);
    ValuesAt(gs, k);
  }

  lemma {:induction false} PropertyCarriesBack(a: Json, b: Json, k: nat)
    requires WellFormed(a) && WellFormed(b) && a.Obj? && b.Obj? && SameUpToOrder(a, b)
    requires k < |b.fields| && b.fields[k].key != PROTO
    ensures SortValues(b.fields)[k] in SortValues(a.fields)
    decreases a, 1
  {
    hide SameUpToOrder;
    hide WellFormed;
    hide SortObjectKeys;
    hide SortValues;
    var i := OriginOf(a, b, k);
    var m := PropertyCarriesOver(a, b, i);
    WellFormedParts(b);
    assert m == k;
  }

  lemma {:induction false} ObjectsCoincide(a: Json, b: Json)
    requires WellFormed(a) && WellFormed(b) && a.Obj? && b.Obj? && SameUpToOrder(a, b)
    ensures SortObjectKeys(a) == SortObjectKeys(b)
    decreases a, 2
  {
    hide SameUpToOrder;
    hide SortObjectKeys;
    var fs, gs := a.fields, b.fields;
    SortedValuesKeepKeys(fs);
    SortedValuesKeepKeys(gs);
    forall g: Field | g.key != PROTO
      ensures g in SortValues(fs) <==> g in SortValues(gs)
    {
      if g in SortValues(fs) {
        var i :| 0 <= i < |fs| && SortValues(fs)[i] == g;
        ValuesAt(fs, i);
        var k := PropertyCarriesOver(a, b, i);
        assert SortValues(gs)[k] == g;
      }
      if g in SortValues(gs) {
        var k :| 0 <= k < |gs| && SortValues(gs)[k] == g;
        ValuesAt(gs, k);
        PropertyCarriesBack(a, b, k);
      }
    }
    BuildDependsOnMembers(SortValues(fs), SortValues(gs));
    ObjectForm(a);
    ObjectForm(b);
  }

  lemma ObjectForm(a: Json)
    requires a.Obj?
    ensures SortObjectKeys(a) == Obj(Build(SortFields(SortValues(a.fields))))
  {
  }

  lemma SortedValuesKeepKeys(fs: seq<Field>)
    requires DistinctKeys(fs)
    ensures DistinctKeys(SortValues(fs))
  {
    forall i, k | 0 <= i < k < |fs| ensures SortValues(fs)[i].key != SortValues(fs)[k].key {
      ValuesAt(fs, i);
      ValuesAt(fs, k);
    }
  }

  // ---------- the order of a canonical object ----------

  /** Array indices first, by their numbers; then all other keys in the order of the sort. */
  predicate ListedBefore(k: string, m: string) {
    if IsArrayIndex(k) && IsArrayIndex(m) then NumberOf(k) < NumberOf(m)
    else IsArrayIndex(k) || (!IsArrayIndex(m) && KeyLess(k, m))
  }

  ghost predicate InKeyOrder(fs: seq<Field>) {
    forall i, k | 0 <= i < k < |fs| :: ListedBefore(fs[i].key, fs[k].key)
  }

  lemma ListedBeforeIsTransitive(k: string, m: string, n: string)
    requires ListedBefore(k, m) && ListedBefore(m, n)
    ensures ListedBefore(k, n)
  {
    if KeyLess(k, m) && KeyLess(m, n) { KeyLessIsTransitive(k, m, n); }
    hide IsArrayIndex;
    hide KeyLess;
  }

  lemma PutFirst(k: string, m: string)
    requires k != m && (IsArrayIndex(k) || IsArrayIndex(m) || KeyLess(m, k))
    ensures if EnumeratesBefore(k, m) then ListedBefore(k, m) else ListedBefore(m, k)
  {
    if IsArrayIndex(k) && IsArrayIndex(m) && NumberOf(k) == NumberOf(m) { DecimalsDiffer(k, m); }
    hide KeyLess;
    hide IsDecimal;
    hide NumberOf;
  }

  lemma {:induction false} PutKeepsKeyOrder(acc: seq<Field>, f: Field)
    requires InKeyOrder(acc) && forall g | g in acc :: g.key != f.key
    requires forall g | g in acc :: IsArrayIndex(f.key) || IsArrayIndex(g.key) || KeyLess(g.key, f.key)
    ensures InKeyOrder(Put(acc, f))
  {
    hide ListedBefore;
    hide EnumeratesBefore;
    hide IsArrayIndex;
    hide KeyLess;
    if acc != [] {
      assert acc[0] in acc;
      PutFirst(f.key, acc[0].key);
      if EnumeratesBefore(f.key, acc[0].key) {
        forall k | 0 <= k < |acc| ensures ListedBefore(f.key, acc[k].key) {
          if k > 0 { ListedBeforeIsTransitive(f.key, acc[0].key, acc[k].key); }
        }
      } else {
        PutKeepsKeyOrder(acc[1..], f);
        var rest := Put(acc[1..], f);
        forall k | 0 <= k < |rest| ensures ListedBefore(acc[0].key, rest[k].key) {
          PutMembers(acc[1..], f, rest[k]);
          if rest[k] in acc[1..] { var j :| 0 <= j < |acc[1..]| && acc[1..][j] == rest[k]; }
        }
      }
    }
  }

  lemma {:induction false} BuildInKeyOrder(fs: seq<Field>)
    requires Ascending(fs)
    ensures InKeyOrder(Build(fs))
  {
    hide KeyLess;
    hide IsArrayIndex;
    hide ListedBefore;
    hide Put;
    if fs != [] {
      var n := |fs| - 1;
      BuildInKeyOrder(fs[..n]);
      forall g | g in Build(fs[..n]) ensures g.key != fs[n].key && KeyLess(g.key, fs[n].key) {
        BuildMembers(fs[..n], g);
        var i :| 0 <= i < n && fs[..n][i] == g;
        KeyLessIsStrict(g.key, fs[n].key);
      }
      if fs[n].key != PROTO { PutKeepsKeyOrder(Build(fs[..n]), fs[n]); }
    }
  }

  /**
   * A canonical object enumerates its array-index keys first, in the order of their
   * numbers, and then its other keys in lexicographic order.
   */
  lemma CanonicalKeysAreInOrder(a: Json, i: nat, k: nat)
    requires WellFormed(a) && a.Obj? && i < k
    requires SortObjectKeys(a).Obj? && k < |SortObjectKeys(a).fields|
    ensures var x, y := SortObjectKeys(a).fields[i].key, SortObjectKeys(a).fields[k].key;
      && (IsArrayIndex(y) ==> IsArrayIndex(x) && NumberOf(x) < NumberOf(y))
      && (!IsArrayIndex(x) ==> exists n: nat :: LowerAt(x, y, n))
  {
    var fs := SortValues(a.fields);
    SortedValuesKeepKeys(a.fields);
    SortAscends(fs);
    BuildInKeyOrder(SortFields(fs));
    ObjectForm(a);
    hide SortObjectKeys;
    var built := Build(SortFields(fs));
    assert ListedBefore(built[i].key, built[k].key);
    KeyLessIsLexicographic(built[i].key, built[k].key);
    hide KeyLess;
    hide LowerAt;
    hide NumberOf;
  }

  // ---------- idempotence and the payload hash ----------

  lemma {:induction false} PutKeepsDistinct(acc: seq<Field>, f: Field)
    requires DistinctKeys(acc) && forall g | g in acc :: g.key != f.key
    ensures DistinctKeys(Put(acc, f))
  {
    if acc != [] {
      assert acc[0] in acc;
      if !EnumeratesBefore(f.key, acc[0].key) {
        PutKeepsDistinct(acc[1..], f);
        var rest := Put(acc[1..], f);
        forall k | 0 <= k < |rest| ensures rest[k].key != acc[0].key {
          PutMembers(acc[1..], f, rest[k]);
        }
      } else {
        forall k | 0 <= k < |acc| ensures acc[k].key != f.key { assert acc[k] in acc; }
      }
    }
  }

  lemma {:induction false} BuildKeepsDistinct(fs: seq<Field>)
    requires DistinctKeys(fs)
    ensures DistinctKeys(Build(fs))
  {
    if fs != [] {
      var n := |fs| - 1;
      BuildKeepsDistinct(fs[..n]);
      forall g | g in Build(fs[..n]) ensures g.key != fs[n].key { BuildMembers(fs[..n], g); }
      PutKeepsDistinct(Build(fs[..n]), fs[n]);
    }
  }

  lemma AscendingIsDistinct(fs: seq<Field>)
    requires Ascending(fs)
    ensures DistinctKeys(fs)
  {
    forall i, k | 0 <= i < k < |fs| ensures fs[i].key != fs[k].key { KeyLessIsStrict(fs[i].key, fs[k].key); }
  }

  /** A canonical form is well-formed and equal to its original up to key order. */
  lemma {:induction false} CanonicalFormIsEqual(a: Json)
    requires WellFormed(a)
    ensures WellFormed(SortObjectKeys(a)) && SameUpToOrder(SortObjectKeys(a), a)
    decreases a
  {
    if a.Arr? {
      forall i | 0 <= i < |a.items|
        ensures WellFormed(SortItems(a.items)[i]) && SameUpToOrder(SortItems(a.items)[i], a.items[i])
      {
        ItemsAt(a.items, i);
        CanonicalFormIsEqual(a.items[i]);
      }
    } else if a.Obj? {
      ObjectFormIsEqual(a);
    }
  }

  lemma {:induction false} ObjectFormIsEqual(a: Json)
    requires WellFormed(a) && a.Obj?
    ensures WellFormed(SortObjectKeys(a)) && SameUpToOrder(SortObjectKeys(a), a)
    decreases a, 0
  {
    var fs := a.fields;
    var built := Build(SortFields(SortValues(fs)));
    SortedValuesKeepKeys(fs);
    SortAscends(SortValues(fs));
    AscendingIsDistinct(SortFields(SortValues(fs)));
    BuildKeepsDistinct(SortFields(SortValues(fs)));
    forall k | 0 <= k < |built|
      ensures WellFormed(built[k].value) && HasPartner(built[k], fs)
    {
      CanonicalMembers(fs, built[k]);
      assert built[k] in built;
      var i :| 0 <= i < |fs| && fs[i].key == built[k].key && SortObjectKeys(fs[i].value) == built[k].value;
      CanonicalFormIsEqual(fs[i].value);
    }
    forall i | 0 <= i < |fs| && fs[i].key != PROTO
      ensures HasKey(built, fs[i].key)
    {
      var g := Field(fs[i].key, SortObjectKeys(fs[i].value));
      CanonicalMembers(fs, g);
      var k :| 0 <= k < |built| && built[k] == g;
    }
  }

  /** Canonicalising twice is canonicalising once. */
  lemma CanonicalisingTwiceIsOnce(a: Json)
    requires WellFormed(a)
    ensures SortObjectKeys(SortObjectKeys(a)) == SortObjectKeys(a)
  {
    CanonicalFormIsEqual(a);
    CanonicalFormDecidesEquality(SortObjectKeys(a), a);
  }

  /** The payload hash, over an abstract digest of the canonical tree. */
  function HashObject(digest: Json -> string, a: Json): string { digest(SortObjectKeys(a)) }

  ghost predicate TellsApart(digest: Json -> string) {
    forall x, y :: digest(x) == digest(y) ==> x == y
  }

  /** With a digest that tells trees apart, payloads hash alike exactly when they are equal up to key order. */
  lemma SameHashExactlyWhenEqual(digest: Json -> string, a: Json, b: Json)
    requires WellFormed(a) && WellFormed(b) && TellsApart(digest)
    ensures HashObject(digest, a) == HashObject(digest, b) <==> SameUpToOrder(a, b)
  {
    CanonicalFormDecidesEquality(a, b);
  }

  /** Properties named __proto__ are lost: payloads that differ only in them share a canonical form. */
  lemma ProtoIsInvisible(value: Json, fields: seq<Field>)
    requires WellFormed(Obj([Field(PROTO, value)] + fields))
    ensures SortObjectKeys(Obj([Field(PROTO, value)] + fields)) == SortObjectKeys(Obj(fields))
    ensures Obj([Field(PROTO, value)] + fields) != Obj(fields)
  {
    var all := [Field(PROTO, value)] + fields;
    forall i, k | 0 <= i < k < |fields| ensures fields[i].key != fields[k].key {
      assert all[i + 1].key != all[k + 1].key;
    }
    SortedValuesKeepKeys(all);
    SortedValuesKeepKeys(fields);
    assert all[1..] == fields;
    BuildDependsOnMembers(SortValues(all), SortValues(fields));
    assert |all| != |fields|;
  }
}
