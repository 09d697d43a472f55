/** Sequence and set facts shared by both revisions of the reconciliation engine:
    the order-preserving filter behind every "x not found in the other set" loop,
    duplicate-freedom, and the size of an injective image. */
module Seqs {

  /** The set of elements of a sequence (what the Go code builds as a `map[T]struct{}`). */
  function Elems<T>(s: seq<T>): set<T> {
    set x | x in s
  }

  /** Appending an element adds it to the set. */
  lemma ElemsSnoc<T>(s: seq<T>, x: T)
    ensures Elems(s + [x]) == Elems(s) + {x}
  {
  }

  /** No element occurs twice. */
  predicate Distinct<T(==)>(s: seq<T>) {
    forall i, j :: 0 <= i < j < |s| ==> s[i] != s[j]
  }

  /** Appending a new element keeps a sequence duplicate-free. */
  lemma DistinctSnoc<T>(s: seq<T>, x: T)
    requires Distinct(s) && x !in s
    ensures Distinct(s + [x])
  {
  }

  /** The elements of `b` that are not in `drop`, in `b`'s order and with `b`'s multiplicity.
      It is defined from the back so that it follows a loop that appends. */
  function Minus<T(==,!new)>(b: seq<T>, drop: set<T>): (r: seq<T>)
    ensures |r| <= |b|
    ensures forall x :: x in r <==> x in b && x !in drop
  {
    if b == [] then []
    else if b[|b| - 1] in drop then Minus(b[..|b| - 1], drop)
    else Minus(b[..|b| - 1], drop) + [b[|b| - 1]]
  }

  /** Filtering a concatenation filters each part: the order of `b` is kept. */
  lemma {:induction false} MinusAppend<T(!new)>(b1: seq<T>, b2: seq<T>, drop: set<T>)
    ensures Minus(b1 + b2, drop) == Minus(b1, drop) + Minus(b2, drop)
  {
    if b2 == [] {
      assert b1 + b2 == b1;
    } else {
      var init := b2[..|b2| - 1];
      assert (b1 + b2)[..|b1 + b2| - 1] == b1 + init;
      MinusAppend(b1, init, drop);
    }
  }

  /** Each element keeps its multiplicity unless it is dropped. */
  lemma {:induction false} MinusCount<T(!new)>(b: seq<T>, drop: set<T>, x: T)
    ensures multiset(Minus(b, drop))[x] == if x in drop then 0 else multiset(b)[x]
  {
    if b != [] {
      var init := b[..|b| - 1];
      assert b == init + [b[|b| - 1]];
      MinusCount(init, drop, x);
    }
  }

  /** Dropping nothing keeps everything. */
  lemma {:induction false} MinusNothing<T(!new)>(b: seq<T>)
    ensures Minus(b, {}) == b
  {
    if b != [] {
      MinusNothing(b[..|b| - 1]);
      assert b == b[..|b| - 1] + [b[|b| - 1]];
    }
  }

  /** Dropping every element leaves nothing. */
  lemma {:induction false} MinusEverything<T(!new)>(b: seq<T>, drop: set<T>)
    requires Elems(b) <= drop
    ensures Minus(b, drop) == []
  {
    if b != [] {
      assert b[|b| - 1] in Elems(b);
      MinusEverything(b[..|b| - 1], drop);
    }
  }

  /** A distinct sequence has as many elements as its set. */
  lemma {:induction false} DistinctCard<T>(s: seq<T>)
    requires Distinct(s)
    ensures |Elems(s)| == |s|
  {
    if s != [] {
      var init := s[..|s| - 1];
      var last := s[|s| - 1];
      DistinctCard(init);
      assert Elems(s) == Elems(init) + {last};
    }
  }

  /** Filtering a distinct sequence gives a distinct sequence, as long as the surviving set. */
  lemma MinusDistinct<T(!new)>(b: seq<T>, drop: set<T>)
    requires Distinct(b)
    ensures Distinct(Minus(b, drop))
    ensures |Minus(b, drop)| == |Elems(b) - drop|
  {
    MinusStaysDistinct(b, drop);
    DistinctCard(Minus(b, drop));
    assert Elems(Minus(b, drop)) == Elems(b) - drop;
  }

  /** Filtering keeps a sequence duplicate-free. */
  lemma {:induction false} MinusStaysDistinct<T(!new)>(b: seq<T>, drop: set<T>)
    requires Distinct(b)
    ensures Distinct(Minus(b, drop))
  {
    if b != [] {
      var init, last := b[..|b| - 1], b[|b| - 1];
      assert Distinct(init);
      MinusStaysDistinct(init, drop);
      if last !in drop {
        assert last !in init by {
          forall i | 0 <= i < |init|
            ensures init[i] != last
          {
            assert init[i] == b[i];
          }
        }
        DistinctSnoc(Minus(init, drop), last);
      }
    }
  }

  /** Appending to a concatenation appends to its second part. */
  lemma AppendAssoc<T>(a: seq<T>, b: seq<T>, c: seq<T>)
    ensures (a + b) + c == a + (b + c)
  {
  }

  /** A prefix one longer is the prefix and the next element. */
  lemma TakeSnoc<T>(s: seq<T>, i: int)
    requires 0 <= i < |s|
    ensures s[..i + 1] == s[..i] + [s[i]]
  {
  }

  /** A nonempty set has an element. */
  lemma Pick<T>(s: set<T>) returns (x: T)
    requires s != {}
    ensures x in s
  {
    x :| x in s;
  }

  /** Moving one element from the unvisited to the visited part of a set keeps
      the two parts a partition of it. */
  lemma Visit<T>(done: set<T>, todo: set<T>, all: set<T>, k: T)
    requires done !! todo && done + todo == all && k in todo
    ensures (done + {k}) !! (todo - {k}) && (done + {k}) + (todo - {k}) == all
  {
  }

  /** Two maps that agree on each other's keys are equal. */
  lemma MapEq<K, V>(u: map<K, V>, v: map<K, V>)
    requires forall x :: x in u ==> x in v && u[x] == v[x]
    requires forall x :: x in v ==> x in u
    ensures u == v
  {
  }

  /** A map takes different keys to different values. */
  predicate Injective<K(!new), V(==)>(m: map<K, V>) {
    forall k1, k2 :: k1 in m && k2 in m && k1 != k2 ==> m[k1] != m[k2]
  }

  /** `ks` lists every key of `keys` exactly once, and `vs` holds at each position
      the value of `m` at the key in the same position of `ks`: a walk over the
      keys in some order that collects one value per key. */
  predicate ValuesOf<K, V(==)>(m: map<K, V>, keys: set<K>, ks: seq<K>, vs: seq<V>) {
    && Distinct(ks) && Elems(ks) == keys && |ks| == |vs|
    && forall i :: 0 <= i < |ks| ==> ks[i] in m && vs[i] == m[ks[i]]
  }

  /** Visiting one more key appends its value. */
  lemma ValuesOfSnoc<K, V>(m: map<K, V>, keys: set<K>, ks: seq<K>, vs: seq<V>, k: K)
    requires ValuesOf(m, keys, ks, vs) && k in m && k !in keys
    ensures ValuesOf(m, keys + {k}, ks + [k], vs + [m[k]])
  {
    ElemsSnoc(ks, k);
    DistinctSnoc(ks, k);
  }

  /** The values a map takes on a set of its keys. */
  function Image<K, V>(m: map<K, V>, keys: set<K>): set<V>
    requires keys <= m.Keys
  {
    set k | k in keys :: m[k]
  }

  /** Adding a key adds its value to the image. */
  lemma ImageAdd<K, V>(m: map<K, V>, keys: set<K>, k: K)
    requires keys <= m.Keys && k in m
    ensures Image(m, keys + {k}) == Image(m, keys) + {m[k]}
  {
  }

  /** A list that holds the image of a key set, one entry per key, still does so
      after appending the value of one more key. */
  lemma ImageSnoc<K, V>(m: map<K, V>, keys: set<K>, k: K, vs: seq<V>)
    requires keys <= m.Keys && k in m && k !in keys
    requires Elems(vs) == Image(m, keys) && |vs| == |keys|
    ensures Elems(vs + [m[k]]) == Image(m, keys + {k}) && |vs + [m[k]]| == |keys + {k}|
  {
    ImageAdd(m, keys, k);
    ElemsSnoc(vs, m[k]);
  }

  /** The image of all keys is the set of values. */
  lemma ImageAll<K, V>(m: map<K, V>)
    ensures Image(m, m.Keys) == m.Values
  {
    forall v | v in m.Values
      ensures v in Image(m, m.Keys)
    {
      var k :| k in m && m[k] == v;
    }
  }

  /** An injective map takes a key outside a key set to a value outside its image. */
  lemma ImageOutside<K(!new), V>(m: map<K, V>, keys: set<K>, k: K)
    requires keys <= m.Keys && k in m && k !in keys && Injective(m)
    ensures m[k] !in Image(m, keys)
  {
  }

  /** An injective map takes a difference of key sets to the difference of images. */
  lemma ImageMinus<K(!new), V>(m: map<K, V>, keys: set<K>, sub: set<K>)
    requires keys <= m.Keys && sub <= keys && Injective(m)
    ensures Image(m, keys) - Image(m, sub) == Image(m, keys - sub)
  {
  }

  /** An injective map has as many values on a key set as there are keys. */
  lemma {:induction false} ImageCard<K(!new), V>(m: map<K, V>, keys: set<K>)
    requires keys <= m.Keys && Injective(m)
    ensures |Image(m, keys)| == |keys|
    decreases |keys|
  {
    if keys != {} {
      var k :| k in keys;
      var rest := keys - {k};
      ImageCard(m, rest);
      assert Image(m, keys) == Image(m, rest) + {m[k]};
      assert m[k] !in Image(m, rest);
    }
  }
}
