/**
 * PHP option arrays as the derivative engine sees them: ordered key => value
 * maps with distinct string keys, whose values are scalars or nested arrays.
 * Holds `ksort` (ordering by key), `recursiveKeySort` (src/Service.php:321-331
 * and its twin src/Atrauzzi/Phperclip/Service.php:283-293), the key
 * assignment `$options['id'] = ...`, and an order-free reference meaning
 * (`Contents`) against which "only reorders" and "order does not matter" are
 * proved.
 */
module PhpArray {

  datatype Scalar = Str(s: string) | Int(i: int) | Float(f: real) | Bool(b: bool) | Null

  /** An option value: a scalar, or a nested PHP array. */
  datatype Value = Leaf(scalar: Scalar) | Nested(entries: Array)

  /** One `key => value` pair. */
  datatype Entry = Entry(key: string, value: Value)

  /** A PHP array with string keys, in its insertion (iteration) order. */
  type Array = seq<Entry>

  // ---------------------------------------------------------------------------
  // Keys and well-formedness
  // ---------------------------------------------------------------------------

  function KeySet(a: Array): set<string>
  {
    set e | e in a :: e.key
  }

  predicate DistinctKeys(a: Array)
  {
    forall i, j :: 0 <= i < j < |a| ==> a[i].key != a[j].key
  }

  /** A genuine PHP array: distinct keys at every nesting level. */
  predicate WellFormed(v: Value)
    decreases v, 1
  {
    match v
    case Leaf(_) => true
    case Nested(es) => WellFormedArray(es)
  }

  predicate WellFormedArray(a: Array)
    decreases a, 0
  {
    DistinctKeys(a) && forall i :: 0 <= i < |a| ==> WellFormed(a[i].value)
  }

  // ---------------------------------------------------------------------------
  // Order-free meaning: what two arrays with "the same key/value pairs at every
  // level" share, whatever their insertion order.
  // ---------------------------------------------------------------------------

  datatype Tree = TLeaf(scalar: Scalar) | TMap(children: map<string, Tree>)

  function Meaning(v: Value): Tree
    decreases v, 1
  {
    match v
    case Leaf(s) => TLeaf(s)
    case Nested(es) => TMap(Contents(es))
  }

  /** The key => meaning map of an array; the first entry for a key wins. */
  function Contents(a: Array): map<string, Tree>
    decreases a, 0
  {
    if a == [] then map[] else Contents(a[1..])[a[0].key := Meaning(a[0].value)]
  }

  lemma ContentsKeys(a: Array)
    ensures Contents(a).Keys == KeySet(a)
  {
    if a != [] {
      ContentsKeys(a[1..]);
      assert KeySet(a) == KeySet(a[1..]) + {a[0].key} by {
        assert forall e :: e in a <==> e == a[0] || e in a[1..];
      }
    }
  }

  lemma ContentsAt(a: Array, i: nat)
    requires DistinctKeys(a) && i < |a|
    ensures a[i].key in Contents(a) && Contents(a)[a[i].key] == Meaning(a[i].value)
  {
    if i > 0 {
      ContentsAt(a[1..], i - 1);
    }
  }

  // ---------------------------------------------------------------------------
  // Key order (`ksort` on string keys): strict lexicographic order.
  // ---------------------------------------------------------------------------

  predicate Below(a: string, b: string)
  {
    if a == [] then b != []
    else if b == [] then false
    else if a[0] == b[0] then Below(a[1..], b[1..])
    else a[0] < b[0]
  }

  lemma BelowIrreflexive(a: string)
    ensures !Below(a, a)
  {
    if a != [] {
      BelowIrreflexive(a[1..]);
    }
  }

  lemma BelowTransitive(a: string, b: string, c: string)
    requires Below(a, b) && Below(b, c)
    ensures Below(a, c)
  {
    if a != [] && b != [] && c != [] && a[0] == b[0] && b[0] == c[0] {
      BelowTransitive(a[1..], b[1..], c[1..]);
    }
  }

  lemma BelowTotal(a: string, b: string)
    requires a != b
    ensures Below(a, b) || Below(b, a)
  {
    if a != [] && b != [] && a[0] == b[0] {
      assert a == [a[0]] + a[1..] && b == [b[0]] + b[1..];
      BelowTotal(a[1..], b[1..]);
    }
  }

  lemma BelowAsymmetric(a: string, b: string)
    requires Below(a, b)
    ensures !Below(b, a)
  {
    if a != [] && b != [] && a[0] == b[0] {
      BelowAsymmetric(a[1..], b[1..]);
    }
  }

  predicate StrictlySorted(a: Array)
  {
    forall i, j :: 0 <= i < j < |a| ==> Below(a[i].key, a[j].key)
  }

  lemma SortedDistinct(a: Array)
    requires StrictlySorted(a)
    ensures DistinctKeys(a)
  {
    forall i, j | 0 <= i < j < |a| ensures a[i].key != a[j].key {
      BelowIrreflexive(a[i].key);
    }
  }

  /** The keys of a non-empty array: its first key and the keys of the rest. */
  lemma KeySetCons(a: Array)
    requires a != []
    ensures KeySet(a) == KeySet(a[1..]) + {a[0].key}
  {
    assert forall x :: x in a <==> x == a[0] || x in a[1..];
  }

  /** In a strictly sorted array the first key is below every key after it. */
  lemma HeadBelowTail(s: Array)
    requires StrictlySorted(s) && s != []
    ensures forall k :: k in KeySet(s[1..]) ==> Below(s[0].key, k)
  {
    forall k | k in KeySet(s[1..]) ensures Below(s[0].key, k) {
      var x :| x in s[1..] && x.key == k;
      var m :| 0 <= m < |s[1..]| && s[1..][m] == x;
      assert s[m + 1] == x;
    }
  }

  /** Places `e` among the entries `s`, before the first one whose key is above it. */
  function Insert(e: Entry, s: Array): Array
  {
    if s == [] then [e]
    else if Below(e.key, s[0].key) then [e] + s
    else [s[0]] + Insert(e, s[1..])
  }

  lemma InsertContents(e: Entry, s: Array)
    ensures multiset(Insert(e, s)) == multiset(s) + multiset{e}
    ensures KeySet(Insert(e, s)) == KeySet(s) + {e.key}
  {
    InsertMultiset(e, s);
    var r := Insert(e, s);
    forall x ensures x in r <==> x == e || x in s {
      assert x in r <==> x in multiset(r);
      assert x in s <==> x in multiset(s);
    }
  }

  lemma InsertMultiset(e: Entry, s: Array)
    ensures multiset(Insert(e, s)) == multiset(s) + multiset{e}
  {
    if s != [] && !Below(e.key, s[0].key) {
      InsertMultiset(e, s[1..]);
      assert s == [s[0]] + s[1..];
    }
  }

  lemma InsertSorted(e: Entry, s: Array)
    requires StrictlySorted(s) && e.key !in KeySet(s)
    ensures StrictlySorted(Insert(e, s))
  {
    if s == [] {
    } else if Below(e.key, s[0].key) {
      forall j | 0 < j < |s| ensures Below(e.key, s[j].key) {
        BelowTransitive(e.key, s[0].key, s[j].key);
      }
    } else {
      assert s[0] in s;
      BelowTotal(e.key, s[0].key);
      KeySetCons(s);
      InsertSorted(e, s[1..]);
      InsertContents(e, s[1..]);
      HeadBelowTail(s);
      var rest := Insert(e, s[1..]);
      forall j | 0 <= j < |rest| ensures Below(s[0].key, rest[j].key) {
        assert rest[j] in rest;
      }
      assert Insert(e, s) == [s[0]] + rest;
    }
  }

  /** `ksort($array)`: the entries reordered by ascending key. */
  function SortByKey(a: Array): (r: Array)
    requires DistinctKeys(a)
    ensures StrictlySorted(r)
    ensures multiset(r) == multiset(a)
    ensures KeySet(r) == KeySet(a)
  {
    if a == [] then []
    else
      DistinctKeysTail(a);
      var rest := SortByKey(a[1..]);
      SortStep(a, rest);
      Insert(a[0], rest)
  }

  /** A tail of an array with distinct keys has distinct keys. */
  lemma DistinctKeysTail(a: Array)
    requires DistinctKeys(a) && a != []
    ensures DistinctKeys(a[1..])
  {
    forall i, j | 0 <= i < j < |a[1..]| ensures a[1..][i].key != a[1..][j].key {
      assert a[1..][i] == a[i + 1] && a[1..][j] == a[j + 1];
    }
  }

  /** Inserting the head into the sorted tail sorts the whole array. */
  lemma SortStep(a: Array, rest: Array)
    requires DistinctKeys(a) && a != []
    requires StrictlySorted(rest) && multiset(rest) == multiset(a[1..]) && KeySet(rest) == KeySet(a[1..])
    ensures StrictlySorted(Insert(a[0], rest))
    ensures multiset(Insert(a[0], rest)) == multiset(a)
    ensures KeySet(Insert(a[0], rest)) == KeySet(a)
  {
    HeadKeyNotInTail(a);
    KeySetCons(a);
    assert a == [a[0]] + a[1..];
    InsertContents(a[0], rest);
    InsertSorted(a[0], rest);
  }

  lemma ContentsInsert(e: Entry, s: Array)
    requires e.key !in KeySet(s)
    ensures Contents(Insert(e, s)) == Contents(s)[e.key := Meaning(e.value)]
  {
    if s != [] && !Below(e.key, s[0].key) {
      var x, rest := s[0], s[1..];
      KeySetCons(s);
      ContentsInsert(e, rest);
      var ins := Insert(e, rest);
      assert Insert(e, s) == [x] + ins;
      assert ([x] + ins)[1..] == ins;
      assert e.key != x.key;
      MapUpdatesCommute(Contents(rest), e.key, Meaning(e.value), x.key, Meaning(x.value));
    }
  }

  lemma MapUpdatesCommute<K, V>(m: map<K, V>, k: K, v: V, l: K, w: V)
    requires k != l
    ensures m[k := v][l := w] == m[l := w][k := v]
  {
  }

  /** `ksort` only reorders: the key => value pairs are those of the input. */
  lemma ContentsSort(a: Array)
    requires DistinctKeys(a)
    ensures Contents(SortByKey(a)) == Contents(a)
  {
    if a != [] {
      ContentsSort(a[1..]);
      HeadKeyNotInTail(a);
      ContentsInsert(a[0], SortByKey(a[1..]));
    }
  }

  /** A permutation of a well-formed array is well-formed. */
  lemma WellFormedPermutation(a: Array, b: Array)
    requires WellFormedArray(a) && DistinctKeys(b) && multiset(a) == multiset(b)
    ensures WellFormedArray(b)
  {
    forall i | 0 <= i < |b| ensures WellFormed(b[i].value) {
      assert b[i] in multiset(b);
      var j :| 0 <= j < |a| && a[j] == b[i];
    }
  }

  // ---------------------------------------------------------------------------
  // recursiveKeySort
  // ---------------------------------------------------------------------------

  /** The canonical form of one option value. */
  function CanonicalValue(v: Value): Value
    requires WellFormed(v)
    decreases v, 2
  {
    match v
    case Leaf(_) => v
    case Nested(es) => Nested(Canonical(es))
  }

  /**
   * What `recursiveKeySort($array)` returns: the entries ordered by key, and
   * every nested array in canonical form in turn.
   */
  function Canonical(a: Array): Array
    requires WellFormedArray(a)
    decreases a, 1
  {
    var c := CanonicalValues(a);
    assert DistinctKeys(c);
    SortByKey(c)
  }

  /** Every value of `a` in canonical form, the keys and their order unchanged. */
  function CanonicalValues(a: Array): (r: Array)
    requires WellFormedArray(a)
    decreases a, 0
    ensures |r| == |a|
    ensures forall i :: 0 <= i < |a| ==> r[i] == Entry(a[i].key, CanonicalValue(a[i].value))
  {
    if a == [] then [] else [Entry(a[0].key, CanonicalValue(a[0].value))] + CanonicalValues(a[1..])
  }

  /** Keys ascend at every nesting level. */
  predicate SortedDeep(v: Value)
    decreases v, 1
  {
    match v
    case Leaf(_) => true
    case Nested(es) => SortedDeepArray(es)
  }

  predicate SortedDeepArray(a: Array)
    decreases a, 0
  {
    StrictlySorted(a) && forall i :: 0 <= i < |a| ==> SortedDeep(a[i].value)
  }

  lemma {:induction false} SortedDeepWellFormed(v: Value)
    requires SortedDeep(v)
    ensures WellFormed(v)
    decreases v, 1
  {
    match v
    case Leaf(_) =>
    case Nested(es) => SortedDeepArrayWellFormed(es);
  }

  lemma {:induction false} SortedDeepArrayWellFormed(a: Array)
    requires SortedDeepArray(a)
    ensures WellFormedArray(a)
    decreases a, 0
  {
    SortedDistinct(a);
    forall i | 0 <= i < |a| ensures WellFormed(a[i].value) {
      SortedDeepWellFormed(a[i].value);
    }
  }

  lemma {:induction false} CanonicalValueSorted(v: Value)
    requires WellFormed(v)
    ensures SortedDeep(CanonicalValue(v))
    decreases v, 2
  {
    match v
    case Leaf(_) =>
    case Nested(es) => CanonicalSortedDeep(es);
  }

  /** `recursiveKeySort` yields keys in ascending order at every nesting level. */
  lemma {:induction false} CanonicalSortedDeep(a: Array)
    requires WellFormedArray(a)
    ensures SortedDeepArray(Canonical(a))
    decreases a, 1
  {
    var c := CanonicalValues(a);
    CanonicalValuesSorted(a);
    var r := Canonical(a);
    forall i | 0 <= i < |r| ensures SortedDeep(r[i].value) {
      assert r[i] in multiset(c);
      var j :| 0 <= j < |c| && c[j] == r[i];
    }
  }

  lemma {:induction false} CanonicalValuesSorted(a: Array)
    requires WellFormedArray(a)
    ensures forall i :: 0 <= i < |a| ==> SortedDeep(CanonicalValues(a)[i].value)
    decreases a, 0
  {
    forall i | 0 <= i < |a| ensures SortedDeep(CanonicalValues(a)[i].value) {
      CanonicalValueSorted(a[i].value);
    }
  }

  lemma {:induction false} CanonicalValueMeaning(v: Value)
    requires WellFormed(v)
    ensures Meaning(CanonicalValue(v)) == Meaning(v)
    decreases v, 2
  {
    match v
    case Leaf(_) =>
    case Nested(es) => CanonicalContents(es);
  }

  /**
   * `recursiveKeySort` only reorders: the same key => value pairs at every
   * nesting level.
   */
  lemma {:induction false} CanonicalContents(a: Array)
    requires WellFormedArray(a)
    ensures Contents(Canonical(a)) == Contents(a)
    decreases a, 1
  {
    var c := CanonicalValues(a);
    CanonicalValuesContents(a);
    ContentsSort(c);
  }

  lemma {:induction false} CanonicalValuesContents(a: Array)
    requires WellFormedArray(a)
    ensures Contents(CanonicalValues(a)) == Contents(a)
    decreases a, 0
  {
    if a != [] {
      CanonicalValueMeaning(a[0].value);
      CanonicalValuesContents(a[1..]);
      assert CanonicalValues(a)[1..] == CanonicalValues(a[1..]);
    }
  }

  /** In a strictly sorted array the first key is below every other key. */
  lemma FirstKeyLeast(a: Array, k: string)
    requires StrictlySorted(a) && k in KeySet(a) && k != a[0].key
    ensures Below(a[0].key, k)
  {
    var x :| x in a && x.key == k;
    var j :| 0 <= j < |a| && a[j] == x;
  }

  /** Deeply sorted values are determined by their meaning. */
  lemma {:induction false} SortedValueUnique(v: Value, w: Value)
    requires SortedDeep(v) && SortedDeep(w) && Meaning(v) == Meaning(w)
    ensures v == w
    decreases v, 1
  {
    match v
    case Leaf(_) =>
    case Nested(ev) => SortedArrayUnique(ev, w.entries);
  }

  lemma {:induction false} SortedArrayUnique(x: Array, y: Array)
    requires SortedDeepArray(x) && SortedDeepArray(y) && Contents(x) == Contents(y)
    ensures x == y
    decreases x, 0
  {
    ContentsKeys(x);
    ContentsKeys(y);
    if x == [] || y == [] {
      EmptyKeySet(x);
      EmptyKeySet(y);
    } else {
      SameFirstKey(x, y);
      SortedDistinct(x);
      SortedDistinct(y);
      ContentsAt(x, 0);
      ContentsAt(y, 0);
      SortedValueUnique(x[0].value, y[0].value);
      TailContents(x);
      TailContents(y);
      SortedArrayUnique(x[1..], y[1..]);
      assert x == [x[0]] + x[1..] && y == [y[0]] + y[1..];
    }
  }

  lemma EmptyKeySet(a: Array)
    ensures KeySet(a) == {} <==> a == []
  {
    if a != [] {
      assert a[0] in a;
      assert a[0].key in KeySet(a);
    }
  }

  /** Two strictly sorted arrays with the same keys start with the same key. */
  lemma SameFirstKey(x: Array, y: Array)
    requires StrictlySorted(x) && StrictlySorted(y) && x != [] && y != []
    requires KeySet(x) == KeySet(y)
    ensures x[0].key == y[0].key
  {
    var k := x[0].key;
    assert k in KeySet(y) by { assert x[0] in x; }
    assert y[0].key in KeySet(x) by { assert y[0] in y; }
    if y[0].key != k {
      FirstKeyLeast(y, k);
      FirstKeyLeast(x, y[0].key);
      BelowAsymmetric(k, y[0].key);
      assert false;
    }
  }

  /** Dropping the first entry of a strictly sorted array drops its key. */
  lemma TailContents(x: Array)
    requires StrictlySorted(x) && x != []
    ensures Contents(x[1..]) == Contents(x) - {x[0].key}
  {
    var k := x[0].key;
    SortedDistinct(x);
    HeadKeyNotInTail(x);
    ContentsKeys(x[1..]);
    var t := Contents(x[1..]);
    assert k !in t;
    assert Contents(x) == t[k := Meaning(x[0].value)];
    assert t[k := Meaning(x[0].value)] - {k} == t;
  }

  /** Applying `recursiveKeySort` twice equals applying it once. */
  lemma CanonicalIdempotent(a: Array)
    requires WellFormedArray(a)
    ensures WellFormedArray(Canonical(a)) && Canonical(Canonical(a)) == Canonical(a)
  {
    var c := Canonical(a);
    CanonicalSortedDeep(a);
    SortedDeepArrayWellFormed(c);
    CanonicalSortedDeep(c);
    CanonicalContents(c);
    SortedArrayUnique(Canonical(c), c);
  }

  /**
   * Insertion order does not matter: arrays with the same key => value pairs
   * at every level have the same canonical form.
   */
  lemma CanonicalOrderIndependent(a: Array, b: Array)
    requires WellFormedArray(a) && WellFormedArray(b) && Contents(a) == Contents(b)
    ensures Canonical(a) == Canonical(b)
  {
    CanonicalSortedDeep(a);
    CanonicalSortedDeep(b);
    CanonicalContents(a);
    CanonicalContents(b);
    SortedArrayUnique(Canonical(a), Canonical(b));
  }

  // ---------------------------------------------------------------------------
  // The imperative `recursiveKeySort`
  // ---------------------------------------------------------------------------

  /** Nesting depth; it bounds the recursion of `RecursiveKeySort`. */
  function Height(v: Value): nat
    decreases v, 1
  {
    match v
    case Leaf(_) => 0
    case Nested(es) => 1 + ArrayHeight(es)
  }

  function ArrayHeight(a: Array): (h: nat)
    decreases a, 0
    ensures forall i :: 0 <= i < |a| ==> Height(a[i].value) <= h
  {
    if a == [] then 0
    else
      var h0, t := Height(a[0].value), ArrayHeight(a[1..]);
      if h0 < t then t else h0
  }

  /** Sorting first and canonicalising the values afterwards gives the canonical form. */
  lemma CanonicalOfSorted(a: Array)
    requires WellFormedArray(a)
    ensures WellFormedArray(SortByKey(a))
    ensures Canonical(a) == CanonicalValues(SortByKey(a))
  {
    var s := SortByKey(a);
    SortedDistinct(s);
    WellFormedPermutation(a, s);
    var cs := CanonicalValues(s);
    CanonicalValuesSorted(s);
    assert StrictlySorted(cs);
    CanonicalValuesContents(s);
    ContentsSort(a);
    CanonicalSortedDeep(a);
    CanonicalContents(a);
    SortedArrayUnique(Canonical(a), cs);
  }

  /** A permutation is no deeper than the original. */
  lemma PermutationHeight(a: Array, b: Array)
    requires multiset(b) == multiset(a)
    ensures ArrayHeight(b) <= ArrayHeight(a)
  {
    forall k | 0 <= k < |b| ensures Height(b[k].value) <= ArrayHeight(a) {
      assert b[k] in multiset(a);
      var j :| 0 <= j < |a| && a[j] == b[k];
    }
    HeightBound(b, ArrayHeight(a));
  }

  lemma {:induction false} HeightBound(a: Array, h: nat)
    requires forall k :: 0 <= k < |a| ==> Height(a[k].value) <= h
    ensures ArrayHeight(a) <= h
  {
    if a != [] {
      HeightBound(a[1..], h);
    }
  }

  /**
   * `recursiveKeySort($array)`: `ksort` the array in place, then replace
   * every array-valued entry by its own recursively sorted copy.
   */
  method RecursiveKeySort(a: Array) returns (r: Array)
    requires WellFormedArray(a)
    ensures r == Canonical(a)
    decreases ArrayHeight(a), 1
  {
    var sorted := SortByKey(a);
    CanonicalOfSorted(a);
    PermutationHeight(a, sorted);
    r := SortNestedValues(sorted);
  }

  /** The `foreach` of `recursiveKeySort`: every array-valued entry is replaced by its sorted copy. */
  method SortNestedValues(a: Array) returns (r: Array)
    requires WellFormedArray(a)
    ensures r == CanonicalValues(a)
    decreases ArrayHeight(a), 0
  {
    r := a;
    var i := 0;
    while i < |r|
      invariant 0 <= i <= |r| == |a|
      invariant forall k :: 0 <= k < i ==> r[k] == Entry(a[k].key, CanonicalValue(a[k].value))
      invariant forall k :: i <= k < |r| ==> r[k] == a[k]
    {
      var e := r[i];
      if e.value.Nested? {
        var inner := RecursiveKeySort(e.value.entries);
        r := r[i := Entry(e.key, Nested(inner))];
      }
      i := i + 1;
    }
  }

  // ---------------------------------------------------------------------------
  // Assignment `$array[$key] = $value`
  // ---------------------------------------------------------------------------

  /**
   * `$array[$k] = $v`: an existing key keeps its position and takes the new
   * value; a new key is appended.
   */
  function Assign(a: Array, k: string, v: Value): (r: Array)
    ensures k !in KeySet(a) ==> r == a + [Entry(k, v)]
    ensures DistinctKeys(a) && k in KeySet(a) ==>
      |r| == |a| && forall i :: 0 <= i < |a| ==> r[i] == if a[i].key == k then Entry(k, v) else a[i]
  {
    if a == [] then [Entry(k, v)]
    else if a[0].key == k then [Entry(k, v)] + a[1..]
    else [a[0]] + Assign(a[1..], k, v)
  }

  /** After `$array[$k] = $v`, `$k` means `$v` and every other key is untouched. */
  lemma AssignContents(a: Array, k: string, v: Value)
    ensures Contents(Assign(a, k, v)) == Contents(a)[k := Meaning(v)]
  {
    var r := Assign(a, k, v);
    if a == [] {
      assert r == [Entry(k, v)] && r[1..] == [];
    } else if a[0].key == k {
      assert r[0] == Entry(k, v) && r[1..] == a[1..];
    } else {
      AssignContents(a[1..], k, v);
      assert r[0] == a[0] && r[1..] == Assign(a[1..], k, v);
      MapUpdatesCommute(Contents(a[1..]), k, Meaning(v), a[0].key, Meaning(a[0].value));
    }
  }

  lemma AssignKeys(a: Array, k: string, v: Value)
    ensures KeySet(Assign(a, k, v)) == KeySet(a) + {k}
  {
    var r := Assign(a, k, v);
    if a == [] {
      assert r == [Entry(k, v)] && r[0] in r;
    } else {
      KeySetCons(a);
      KeySetCons(r);
      if a[0].key == k {
        assert r[0] == Entry(k, v) && r[1..] == a[1..];
      } else {
        AssignKeys(a[1..], k, v);
        assert r[0] == a[0] && r[1..] == Assign(a[1..], k, v);
      }
    }
  }

  /** Assignment keeps an array a genuine PHP array. */
  lemma AssignWellFormed(a: Array, k: string, v: Value)
    requires WellFormedArray(a) && WellFormed(v)
    ensures WellFormedArray(Assign(a, k, v))
  {
    if a == [] {
    } else if a[0].key == k {
      HeadKeyNotInTail(a);
      ConsWellFormed(Entry(k, v), a[1..]);
    } else {
      AssignWellFormed(a[1..], k, v);
      AssignKeys(a[1..], k, v);
      HeadKeyNotInTail(a);
      ConsWellFormed(a[0], Assign(a[1..], k, v));
    }
  }

  lemma HeadKeyNotInTail(a: Array)
    requires DistinctKeys(a) && a != []
    ensures a[0].key !in KeySet(a[1..])
  {
    forall x | x in a[1..] ensures x.key != a[0].key {
      var j :| 0 <= j < |a[1..]| && a[1..][j] == x;
      assert a[j + 1] == x;
    }
  }

  lemma ConsWellFormed(e: Entry, rest: Array)
    requires WellFormed(e.value) && WellFormedArray(rest) && e.key !in KeySet(rest)
    ensures WellFormedArray([e] + rest)
  {
    var r := [e] + rest;
    forall i, j | 0 <= i < j < |r| ensures r[i].key != r[j].key {
      if i == 0 {
        assert rest[j - 1] in rest;
      }
    }
  }
}
