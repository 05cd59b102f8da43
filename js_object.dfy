/**
 * The part of JavaScript's object semantics that the scroll-spy relies on.
 * A plain object is the sequence of its own enumerable string-keyed data
 * properties in the order they were created. From that sequence follow the
 * order in which `for…in` and object spread visit the properties
 * (ECMAScript's OrdinaryOwnPropertyKeys: array-index keys first, ascending,
 * then the other keys in creation order), the assignment of a property and
 * the object literal `{ [k]: v, ...src }`.
 */
module JsObject {

  /** One own enumerable data property `key: value`. */
  datatype Prop<V> = Prop(key: string, value: V)

  /** The keys of an object. */
  function Keys<V(==)>(t: seq<Prop<V>>): set<string> {
    set p | p in t :: p.key
  }

  /** No key occurs twice, which holds of every real object. */
  predicate DistinctKeys<V(==)>(t: seq<Prop<V>>) {
    forall i, j | 0 <= i < j < |t| :: t[i].key != t[j].key
  }

  lemma KeysCons<V>(x: Prop<V>, s: seq<Prop<V>>)
    ensures Keys([x] + s) == {x.key} + Keys(s)
  {
    forall k | k in Keys([x] + s) ensures k in {x.key} + Keys(s) {
      var p :| p in [x] + s && p.key == k;
      if p != x { assert p in s; }
    }
    forall k | k in Keys(s) ensures k in Keys([x] + s) {
      var p :| p in s && p.key == k;
      assert p in [x] + s;
    }
  }

  lemma KeysOfSameElements<V>(a: seq<Prop<V>>, b: seq<Prop<V>>)
    requires forall p :: p in a <==> p in b
    ensures Keys(a) == Keys(b)
  {
  }

  lemma DistinctCons<V>(x: Prop<V>, s: seq<Prop<V>>)
    ensures DistinctKeys([x] + s) <==> x.key !in Keys(s) && DistinctKeys(s)
  {
    var t := [x] + s;
    if DistinctKeys(t) {
      forall p | p in s ensures p.key != x.key {
        var j :| 0 <= j < |s| && s[j] == p;
        assert t[0] == x && t[j + 1] == p;
        assert t[0].key != t[j + 1].key;
      }
      forall i, j | 0 <= i < j < |s| ensures s[i].key != s[j].key {
        assert t[i + 1].key != t[j + 1].key;
      }
    }
    if x.key !in Keys(s) && DistinctKeys(s) {
      forall i, j | 0 <= i < j < |t| ensures t[i].key != t[j].key {
        if i == 0 {
          assert t[j] in s;
        } else {
          assert t[i] == s[i - 1] && t[j] == s[j - 1];
        }
      }
    }
  }

  lemma KeysSnoc<V>(s: seq<Prop<V>>, x: Prop<V>)
    ensures Keys(s + [x]) == Keys(s) + {x.key}
  {
    KeysOfSameElements(s + [x], [x] + s);
    KeysCons(x, s);
  }

  lemma DistinctSnoc<V>(s: seq<Prop<V>>, x: Prop<V>)
    requires DistinctKeys(s) && x.key !in Keys(s)
    ensures DistinctKeys(s + [x])
  {
    forall i, j | 0 <= i < j < |s + [x]| ensures (s + [x])[i].key != (s + [x])[j].key {
      if j == |s| { assert s[i] in s; }
    }
  }

  /** Where key `k` sits in the object. */
  function IndexOfKey<V(==)>(t: seq<Prop<V>>, k: string): (i: nat)
    requires k in Keys(t)
    ensures i < |t| && t[i].key == k
    ensures forall j | 0 <= j < i :: t[j].key != k
  {
    if t[0].key == k then 0
    else
      assert t == [t[0]] + t[1..];
      KeysCons(t[0], t[1..]);
      1 + IndexOfKey(t[1..], k)
  }

  /** The value `t[k]` of a key that is present. */
  function Get<V(==)>(t: seq<Prop<V>>, k: string): V
    requires k in Keys(t)
  {
    t[IndexOfKey(t, k)].value
  }

  /** In an object, a property determines what reading its key gives. */
  lemma GetOfMember<V>(t: seq<Prop<V>>, p: Prop<V>)
    requires DistinctKeys(t) && p in t
    ensures p.key in Keys(t) && Get(t, p.key) == p.value
  {
    var i :| 0 <= i < |t| && t[i] == p;
    var j := IndexOfKey(t, p.key);
    assert !(i < j) && !(j < i);
  }

  /** Two objects with the same properties read the same value at a key. */
  lemma GetOfSubset<V>(a: seq<Prop<V>>, b: seq<Prop<V>>, k: string)
    requires DistinctKeys(a) && DistinctKeys(b)
    requires forall p | p in a :: p in b
    requires k in Keys(a)
    ensures k in Keys(b) && Get(a, k) == Get(b, k)
  {
    var p := a[IndexOfKey(a, k)];
    GetOfMember(a, p);
    GetOfMember(b, p);
  }

  predicate DecreasingBy<V>(t: seq<Prop<V>>, rank: string -> int) {
    forall a, b | 0 <= a < b < |t| :: rank(t[a].key) > rank(t[b].key)
  }

  /** Deleting a key keeps the relative order of the other properties. */
  lemma {:induction false} WithoutKeepsOrder<V>(t: seq<Prop<V>>, k: string, rank: string -> int)
    requires DecreasingBy(t, rank)
    ensures DecreasingBy(Without(t, k), rank)
  {
    if t != [] {
      DecreasingTail(t, rank);
      WithoutKeepsOrder(t[1..], k, rank);
      var rest := Without(t[1..], k);
      if t[0].key != k {
        assert Without(t, k) == [t[0]] + rest;
        forall q | q in rest ensures rank(t[0].key) > rank(q.key) {
          HeadOutranks(t, rank, q);
        }
        DecreasingCons(t[0], rest, rank);
      }
    }
  }

  lemma DecreasingCons<V>(x: Prop<V>, s: seq<Prop<V>>, rank: string -> int)
    requires DecreasingBy(s, rank)
    requires forall q | q in s :: rank(x.key) > rank(q.key)
    ensures DecreasingBy([x] + s, rank)
  {
    var r := [x] + s;
    forall a, b | 0 <= a < b < |r| ensures rank(r[a].key) > rank(r[b].key) {
      if a == 0 {
        assert r[b] in s;
      } else {
        assert r[a] == s[a - 1] && r[b] == s[b - 1];
      }
    }
  }

  lemma DecreasingTail<V>(t: seq<Prop<V>>, rank: string -> int)
    requires DecreasingBy(t, rank) && t != []
    ensures DecreasingBy(t[1..], rank)
  {
    forall a, b | 0 <= a < b < |t[1..]| ensures rank(t[1..][a].key) > rank(t[1..][b].key) {
      assert t[1..][a] == t[a + 1] && t[1..][b] == t[b + 1];
    }
  }

  lemma HeadOutranks<V>(t: seq<Prop<V>>, rank: string -> int, q: Prop<V>)
    requires DecreasingBy(t, rank) && t != [] && q in t[1..]
    ensures rank(t[0].key) > rank(q.key)
  {
    var j :| 0 <= j < |t[1..]| && t[1..][j] == q;
    assert t[j + 1] == q;
  }

  /** The object with key `k` deleted; the other properties keep their order. */
  function Without<V>(t: seq<Prop<V>>, k: string): (r: seq<Prop<V>>)
    ensures forall p | p in r :: p in t && p.key != k
    ensures forall p | p in t && p.key != k :: p in r
    ensures DistinctKeys(t) ==> DistinctKeys(r)
    ensures k !in Keys(t) ==> r == t
  {
    if t == [] then []
    else
      var rest := Without(t[1..], k);
      WithoutStep(t, k, rest);
      if t[0].key == k then rest else [t[0]] + rest
  }

  lemma WithoutStep<V>(t: seq<Prop<V>>, k: string, rest: seq<Prop<V>>)
    requires t != []
    requires forall p | p in rest :: p in t[1..] && p.key != k
    requires forall p | p in t[1..] && p.key != k :: p in rest
    requires DistinctKeys(t[1..]) ==> DistinctKeys(rest)
    requires k !in Keys(t[1..]) ==> rest == t[1..]
    ensures DistinctKeys(t) && t[0].key != k ==> DistinctKeys([t[0]] + rest)
    ensures k !in Keys(t) ==> t[0].key != k && [t[0]] + rest == t
  {
    assert t == [t[0]] + t[1..];
    KeysCons(t[0], t[1..]);
    DistinctCons(t[0], t[1..]);
    if DistinctKeys(t) && t[0].key != k {
      KeysOfSubset(rest, t[1..]);
      DistinctCons(t[0], rest);
    }
  }

  lemma KeysOfSubset<V>(a: seq<Prop<V>>, b: seq<Prop<V>>)
    requires forall p | p in a :: p in b
    ensures Keys(a) <= Keys(b)
  {
  }

  lemma WithoutKeys<V>(t: seq<Prop<V>>, k: string)
    ensures Keys(Without(t, k)) == Keys(t) - {k}
  {
    var r := Without(t, k);
    forall n | n in Keys(t) - {k} ensures n in Keys(r) {
      var p :| p in t && p.key == n;
      assert p in r;
    }
  }

  // ---------------------------------------------------------------------
  // Array-index keys and the enumeration order
  // ---------------------------------------------------------------------

  predicate IsDigit(c: char) {
    '0' <= c <= '9'
  }

  /** The number a string of decimal digits denotes. */
  function DigitsValue(s: string): nat
    requires forall i | 0 <= i < |s| :: IsDigit(s[i])
  {
    if s == [] then 0
    else
      assert IsDigit(s[|s| - 1]);
      10 * DigitsValue(s[..|s| - 1]) + (s[|s| - 1] as int - '0' as int)
  }

  /**
   * An array index: the canonical decimal form (no leading zero) of an
   * integer in [0, 2^32 - 2]. Such keys are enumerated before all others.
   */
  predicate IsArrayIndex(k: string) {
    && |k| > 0
    && (forall i | 0 <= i < |k| :: IsDigit(k[i]))
    && (k[0] != '0' || |k| == 1)
    && DigitsValue(k) < 0xFFFF_FFFF
  }

  /** The numeric value of an array-index key, by which such keys are ordered. */
  function IndexRank(k: string): nat {
    if IsArrayIndex(k) then DigitsValue(k) else 0
  }

  /** The properties whose key is (or is not) an array index, in creation order. */
  function Partition<V(==)>(t: seq<Prop<V>>, arrayIndices: bool): (r: seq<Prop<V>>)
    ensures forall p | p in r :: p in t && IsArrayIndex(p.key) == arrayIndices
    ensures forall p | p in t && IsArrayIndex(p.key) == arrayIndices :: p in r
    ensures DistinctKeys(t) ==> DistinctKeys(r)
    ensures (forall p | p in t :: IsArrayIndex(p.key) == arrayIndices) ==> r == t
    ensures (forall p | p in t :: IsArrayIndex(p.key) != arrayIndices) ==> r == []
  {
    if t == [] then []
    else
      var rest := Partition(t[1..], arrayIndices);
      assert t == [t[0]] + t[1..];
      DistinctCons(t[0], t[1..]);
      if IsArrayIndex(t[0].key) == arrayIndices then
        KeysCons(t[0], t[1..]);
        KeysCons(t[0], rest);
        DistinctCons(t[0], rest);
        [t[0]] + rest
      else rest
  }

  predicate SortedByIndex<V(==)>(s: seq<Prop<V>>) {
    forall i, j | 0 <= i < j < |s| :: IndexRank(s[i].key) <= IndexRank(s[j].key)
  }

  function InsertByIndex<V(==)>(p: Prop<V>, s: seq<Prop<V>>): (r: seq<Prop<V>>)
    requires SortedByIndex(s)
    ensures SortedByIndex(r)
    ensures p in r && forall q | q in s :: q in r
    ensures forall q | q in r :: q == p || q in s
    ensures r[0] == p || (|s| > 0 && r[0] == s[0])
    ensures DistinctKeys(s) && p.key !in Keys(s) ==> DistinctKeys(r)
  {
    if s == [] || IndexRank(p.key) <= IndexRank(s[0].key) then
      DistinctCons(p, s);
      [p] + s
    else
      var rest := InsertByIndex(p, s[1..]);
      InsertStep(p, s, rest);
      [s[0]] + rest
  }

  lemma InsertStep<V>(p: Prop<V>, s: seq<Prop<V>>, rest: seq<Prop<V>>)
    requires s != [] && SortedByIndex(s) && IndexRank(s[0].key) < IndexRank(p.key)
    requires SortedByIndex(rest)
    requires p in rest && forall q | q in s[1..] :: q in rest
    requires forall q | q in rest :: q == p || q in s[1..]
    requires rest[0] == p || (|s| > 1 && rest[0] == s[1])
    requires DistinctKeys(s[1..]) && p.key !in Keys(s[1..]) ==> DistinctKeys(rest)
    ensures SortedByIndex([s[0]] + rest)
    ensures forall q | q in s :: q in [s[0]] + rest
    ensures DistinctKeys(s) && p.key !in Keys(s) ==> DistinctKeys([s[0]] + rest)
  {
    var r := [s[0]] + rest;
    assert s == [s[0]] + s[1..];
    forall i, j | 0 <= i < j < |r| ensures IndexRank(r[i].key) <= IndexRank(r[j].key) {
      if i == 0 {
        assert IndexRank(s[0].key) <= IndexRank(rest[0].key);
        assert IndexRank(rest[0].key) <= IndexRank(rest[j - 1].key) || j == 1;
      } else {
        assert r[i] == rest[i - 1] && r[j] == rest[j - 1];
      }
    }
    if DistinctKeys(s) && p.key !in Keys(s) {
      KeysCons(s[0], s[1..]);
      DistinctCons(s[0], s[1..]);
      assert s[0] in s;
      forall q | q in rest ensures q.key != s[0].key {
        if q != p { assert q in s[1..]; }
      }
      DistinctCons(s[0], rest);
    }
  }

  /** Orders properties by the numeric value of their keys (insertion sort). */
  function SortByIndex<V(==)>(s: seq<Prop<V>>): (r: seq<Prop<V>>)
    ensures SortedByIndex(r)
    ensures forall q | q in r :: q in s
    ensures forall q | q in s :: q in r
    ensures DistinctKeys(s) ==> DistinctKeys(r)
  {
    if s == [] then []
    else
      var rest := SortByIndex(s[1..]);
      assert s == [s[0]] + s[1..];
      DistinctCons(s[0], s[1..]);
      KeysOfSameElements(rest, s[1..]);
      InsertByIndex(s[0], rest)
  }

  /**
   * The order in which `for…in` and object spread visit an ordinary
   * object's own string keys.
   */
  function OwnKeys<V(==)>(t: seq<Prop<V>>): (r: seq<Prop<V>>)
    ensures forall p | p in r :: p in t
    ensures forall p | p in t :: p in r
    ensures Keys(r) == Keys(t)
    ensures DistinctKeys(t) ==> DistinctKeys(r)
  {
    var indexed := SortByIndex(Partition(t, true));
    var named := Partition(t, false);
    IndexedThenNamed(t, indexed, named);
    indexed + named
  }

  /**
   * `for…in` visits the array-index keys first, in ascending numeric order,
   * and then the other keys.
   */
  lemma OwnKeysOrder<V>(t: seq<Prop<V>>)
    ensures var r := OwnKeys(t);
            forall i, j | 0 <= i < j < |r| && IsArrayIndex(r[j].key) ::
              IsArrayIndex(r[i].key) && IndexRank(r[i].key) <= IndexRank(r[j].key)
    ensures var r := OwnKeys(t);
            forall i, j | 0 <= i < j < |r| && !IsArrayIndex(r[i].key) :: !IsArrayIndex(r[j].key)
  {
    IndexedThenNamed(t, SortByIndex(Partition(t, true)), Partition(t, false));
  }

  lemma IndexedThenNamed<V>(t: seq<Prop<V>>, indexed: seq<Prop<V>>, named: seq<Prop<V>>)
    requires forall p :: p in indexed <==> p in t && IsArrayIndex(p.key)
    requires forall p :: p in named <==> p in t && !IsArrayIndex(p.key)
    requires SortedByIndex(indexed)
    requires DistinctKeys(t) ==> DistinctKeys(indexed) && DistinctKeys(named)
    ensures forall p :: p in indexed + named <==> p in t
    ensures Keys(indexed + named) == Keys(t)
    ensures DistinctKeys(t) ==> DistinctKeys(indexed + named)
    ensures forall i, j | 0 <= i < j < |indexed + named| && IsArrayIndex((indexed + named)[j].key) ::
              IsArrayIndex((indexed + named)[i].key)
              && IndexRank((indexed + named)[i].key) <= IndexRank((indexed + named)[j].key)
    ensures forall i, j | 0 <= i < j < |indexed + named| && !IsArrayIndex((indexed + named)[i].key) ::
              !IsArrayIndex((indexed + named)[j].key)
  {
    var r := indexed + named;
    KeysOfSameElements(r, t);
    if DistinctKeys(t) {
      forall i, j | 0 <= i < j < |r| ensures r[i].key != r[j].key {
        if j < |indexed| {
        } else if i >= |indexed| {
          assert r[i] == named[i - |indexed|] && r[j] == named[j - |indexed|];
        } else {
          assert r[i] in indexed && r[j] in named;
        }
      }
    }
    forall i, j | 0 <= i < j < |r| && IsArrayIndex(r[j].key)
      ensures IsArrayIndex(r[i].key) && IndexRank(r[i].key) <= IndexRank(r[j].key)
    {
      assert r[i] in indexed;
    }
    forall i, j | 0 <= i < j < |r| && !IsArrayIndex(r[i].key) ensures !IsArrayIndex(r[j].key) {
      assert r[j] in named;
    }
  }

  /** An object none of whose keys is an array index is visited in creation order. */
  lemma {:induction false} OwnKeysOfNamed<V>(t: seq<Prop<V>>)
    requires forall p | p in t :: !IsArrayIndex(p.key)
    ensures OwnKeys(t) == t
  {
    assert Partition(t, true) == [];
  }

  // ---------------------------------------------------------------------
  // Assignment and the object literal with spread
  // ---------------------------------------------------------------------

  /**
   * Defining the data property `p` on an extensible object: an existing key
   * keeps its place and takes the new value, a new key is added last.
   */
  function Assign<V(==)>(obj: seq<Prop<V>>, p: Prop<V>): (r: seq<Prop<V>>)
    ensures |r| == if p.key in Keys(obj) then |obj| else |obj| + 1
    ensures forall i | 0 <= i < |obj| && obj[i].key != p.key :: r[i] == obj[i]
    ensures DistinctKeys(obj) ==> forall i | 0 <= i < |obj| && obj[i].key == p.key :: r[i] == p
    ensures p.key !in Keys(obj) ==> r[|obj|] == p
  {
    if p.key in Keys(obj) then obj[IndexOfKey(obj, p.key) := p] else obj + [p]
  }

  /** Copies the properties of `source`, in the order given, onto `target`. */
  function CopyDataProperties<V(==)>(target: seq<Prop<V>>, source: seq<Prop<V>>): seq<Prop<V>>
    decreases |source|
  {
    if source == [] then target else CopyDataProperties(Assign(target, source[0]), source[1..])
  }

  /** The object literal `{ [k]: v, ...src }`. */
  function LiteralWithSpread<V(==)>(k: string, v: V, src: seq<Prop<V>>): seq<Prop<V>>
  {
    CopyDataProperties([Prop(k, v)], OwnKeys(src))
  }

  lemma {:induction false} CopyAfterFront<V>(obj: seq<Prop<V>>, k: string, w: V, rest: seq<Prop<V>>, src: seq<Prop<V>>)
    requires obj == [Prop(k, w)] + rest
    requires DistinctKeys(src) && DistinctKeys(rest)
    requires k !in Keys(rest)
    requires Keys(rest) !! Keys(src)
    ensures CopyDataProperties(obj, src)
         == [Prop(k, if k in Keys(src) then Get(src, k) else w)] + rest + Without(src, k)
    decreases |src|
  {
    if src == [] {
      assert obj + Without(src, k) == obj;
    } else {
      var p, tail := src[0], src[1..];
      assert src == [p] + tail;
      KeysCons(p, tail);
      DistinctCons(p, tail);
      KeysCons(Prop(k, w), rest);
      assert CopyDataProperties(obj, src) == CopyDataProperties(Assign(obj, p), tail);
      if p.key == k {
        AssignFront(k, w, p.value, rest);
        CopyAfterFront(Assign(obj, p), k, p.value, rest, tail);
        SameKeyStep(k, p, tail);
      } else {
        AssignNew(obj, p);
        assert obj + [p] == [Prop(k, w)] + (rest + [p]);
        KeysSnoc(rest, p);
        DistinctSnoc(rest, p);
        CopyAfterFront(Assign(obj, p), k, w, rest + [p], tail);
        NewKeyStep(k, p, tail);
        Regroup([Prop(k, if k in Keys(tail) then Get(tail, k) else w)], rest, [p], Without(tail, k));
      }
    }
  }

  lemma Regroup<T>(a: seq<T>, b: seq<T>, c: seq<T>, d: seq<T>)
    ensures a + (b + c) + d == a + b + (c + d)
  {
  }

  lemma AssignFront<V>(k: string, w: V, v: V, rest: seq<Prop<V>>)
    ensures Assign([Prop(k, w)] + rest, Prop(k, v)) == [Prop(k, v)] + rest
  {
    var obj := [Prop(k, w)] + rest;
    assert obj[0] in obj;
    assert IndexOfKey(obj, k) == 0;
  }

  lemma AssignNew<V>(obj: seq<Prop<V>>, p: Prop<V>)
    requires p.key !in Keys(obj)
    ensures Assign(obj, p) == obj + [p]
  {
  }

  lemma SameKeyStep<V>(k: string, p: Prop<V>, tail: seq<Prop<V>>)
    requires p.key == k && k !in Keys(tail)
    ensures k in Keys([p] + tail) && Get([p] + tail, k) == p.value
    ensures Without([p] + tail, k) == Without(tail, k)
  {
    KeysCons(p, tail);
    assert ([p] + tail)[1..] == tail;
  }

  lemma NewKeyStep<V>(k: string, p: Prop<V>, tail: seq<Prop<V>>)
    requires p.key != k
    ensures k in Keys([p] + tail) <==> k in Keys(tail)
    ensures k in Keys(tail) ==> Get([p] + tail, k) == Get(tail, k)
    ensures Without([p] + tail, k) == [p] + Without(tail, k)
  {
    var src := [p] + tail;
    KeysCons(p, tail);
    assert src[1..] == tail;
    if k in Keys(tail) {
      assert IndexOfKey(src, k) == 1 + IndexOfKey(tail, k);
    }
  }

  /**
   * `{ [k]: v, ...src }` on an object `src`: key `k` comes first; it holds
   * `src[k]` when `src` already had `k` (the spread re-assigns it without
   * moving it) and `v` otherwise; the other properties of `src` follow in
   * the order the spread visits them.
   */
  lemma LiteralWithSpreadShape<V>(k: string, v: V, src: seq<Prop<V>>)
    requires DistinctKeys(src)
    ensures LiteralWithSpread(k, v, src)
         == [Prop(k, if k in Keys(src) then Get(src, k) else v)] + Without(OwnKeys(src), k)
  {
    var order := OwnKeys(src);
    var w := if k in Keys(order) then Get(order, k) else v;
    var obj := [Prop(k, v)];
    assert obj == [Prop(k, v)] + [];
    CopyAfterFront(obj, k, v, [], order);
    assert [Prop(k, w)] + [] + Without(order, k) == [Prop(k, w)] + Without(order, k);
    if k in Keys(src) {
      GetOfSubset(order, src, k);
    }
  }

  /**
   * `{ [k]: v, ...src }` has the keys of `src` and `k`, each once; `k` holds
   * the value `src` gives it, if any, else `v`; every other key holds its
   * value in `src`.
   */
  lemma LiteralWithSpreadContents<V>(k: string, v: V, src: seq<Prop<V>>)
    requires DistinctKeys(src)
    ensures var r := LiteralWithSpread(k, v, src);
            && DistinctKeys(r)
            && Keys(r) == Keys(src) + {k}
            && Get(r, k) == (if k in Keys(src) then Get(src, k) else v)
            && forall n | n in Keys(r) && n != k :: Get(r, n) == Get(src, n)
  {
    var order := OwnKeys(src);
    var w := if k in Keys(src) then Get(src, k) else v;
    var rest := Without(order, k);
    var r := LiteralWithSpread(k, v, src);
    LiteralWithSpreadShape(k, v, src);
    WithoutKeys(order, k);
    KeysCons(Prop(k, w), rest);
    DistinctCons(Prop(k, w), rest);
    assert IndexOfKey(r, k) == 0;
    forall n | n in Keys(r) && n != k ensures Get(r, n) == Get(src, n) {
      var p := r[IndexOfKey(r, n)];
      assert p in rest;
      GetOfMember(src, p);
    }
  }
}
