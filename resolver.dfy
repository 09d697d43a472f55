/** The decomposed revision of the reconciliation engine: `Resolve` and its helpers
    in iex/resolver.go. It runs the same two phases as `App`, but recovers the
    removed and added records with `extractGroup`, which keeps a prefix of the
    difference lists instead of the records at the computed positions. */
module Resolver {
  import opened Seqs
  import opened Stocks
  import opened App

  /** `makeStockSets`: the two record lists as sets (`map[Stock]struct{}`). */
  method MakeStockSets(A: seq<Stock>, B: seq<Stock>) returns (sA: set<Stock>, sB: set<Stock>)
    ensures sA == Elems(A) && sB == Elems(B)
  {
    sA := {};
    for i := 0 to |A|
      invariant sA == Elems(A[..i])
    {
      assert A[..i + 1] == A[..i] + [A[i]];
      sA := sA + {A[i]};
    }
    sB := {};
    for i := 0 to |B|
      invariant sB == Elems(B[..i])
    {
      assert B[..i + 1] == B[..i] + [B[i]];
      sB := sB + {B[i]};
    }
    assert A[..|A|] == A && B[..|B|] == B;
  }

  /** `makeIntSet`: a list of positions as a set. */
  method MakeIntSet(xi: seq<int>) returns (si: set<int>)
    ensures si == Elems(xi)
  {
    si := {};
    for i := 0 to |xi|
      invariant si == Elems(xi[..i])
    {
      assert xi[..i + 1] == xi[..i] + [xi[i]];
      si := si + {xi[i]};
    }
    assert xi[..|xi|] == xi;
  }

  /** `diffs`: phase 1, the records of each list that equal no record of the
      other, each in its own list's order. */
  method Diffs(A: seq<Stock>, B: seq<Stock>) returns (aNotB: seq<Stock>, bNotA: seq<Stock>)
    ensures aNotB == OnlyOld(A, B) && bNotA == OnlyNew(A, B)
  {
    var sA, sB := MakeStockSets(A, B);
    aNotB := [];
    for i := 0 to |A|
      invariant aNotB == Minus(A[..i], sB)
    {
      assert A[..i + 1][..i] == A[..i];
      if A[i] !in sB {
        aNotB := aNotB + [A[i]];
      }
    }
    bNotA := [];
    for i := 0 to |B|
      invariant bNotA == Minus(B[..i], sA)
    {
      assert B[..i + 1][..i] == B[..i];
      if B[i] !in sA {
        bNotA := bNotA + [B[i]];
      }
    }
    assert A[..|A|] == A && B[..|B|] == B;
  }

  /** `idMap`: each identifier of each list to the position of its last record. */
  method IdMap(dA: seq<Stock>, dB: seq<Stock>) returns (mA: map<string, int>, mB: map<string, int>)
    ensures mA == Index(dA) && mB == Index(dB)
  {
    mA := map[];
    for i := 0 to |dA|
      invariant mA == Index(dA[..i])
    {
      IndexSnoc(dA, i);
      mA := mA[dA[i].iexId := i];
    }
    mB := map[];
    for i := 0 to |dB|
      invariant mB == Index(dB[..i])
    {
      IndexSnoc(dB, i);
      mB := mB[dB[i].iexId := i];
    }
    assert dA[..|dA|] == dA && dB[..|dB|] == dB;
  }

  /** `subset`: the positions of `b` that do not occur in `bp`, in `b`'s order. */
  method Subset(b: seq<int>, bp: seq<int>) returns (bNotBp: seq<int>)
    ensures bNotBp == Minus(b, Elems(bp))
  {
    var sBp := MakeIntSet(bp);
    bNotBp := [];
    for i := 0 to |b|
      invariant bNotBp == Minus(b[..i], sBp)
    {
      assert b[..i + 1][..i] == b[..i];
      if b[i] !in sBp {
        bNotBp := bNotBp + [b[i]];
      }
    }
    assert b[..|b|] == b;
  }

  /** `extractGroup` as written: one record per entry of `xi`, but the record at the
      entry's POSITION in `xi` rather than at the index it holds, so the result is
      the first `|xi|` records of `A` whatever `xi` holds. Go panics when `xi` is
      longer than `A`. */
  method ExtractGroup(A: seq<Stock>, xi: seq<int>) returns (corrected: seq<Stock>)
    requires |xi| <= |A|
    ensures corrected == A[..|xi|]
  {
    corrected := [];
    for i := 0 to |xi|
      invariant corrected == A[..i]
    {
      assert A[..i + 1] == A[..i] + [A[i]];
      corrected := corrected + [A[i]];
    }
  }

  /** The intended `extractGroup`: the records at the indices `xi` holds. */
  method ExtractGroupAt(A: seq<Stock>, xi: seq<int>) returns (corrected: seq<Stock>)
    requires forall i :: 0 <= i < |xi| ==> 0 <= xi[i] < |A|
    ensures |corrected| == |xi|
    ensures forall i :: 0 <= i < |xi| ==> corrected[i] == A[xi[i]]
  {
    corrected := [];
    for i := 0 to |xi|
      invariant |corrected| == i
      invariant forall j :: 0 <= j < i ==> corrected[j] == A[xi[j]]
    {
      corrected := corrected + [A[xi[i]]];
    }
  }

  /** `mapValues`: the values of a map, one per key, in Go's unspecified map order.
      `ks` is that order: the keys as they were visited. */
  method MapValues(m: map<string, int>) returns (vs: seq<int>, ghost ks: seq<string>)
    ensures ValuesOf(m, m.Keys, ks, vs)
    ensures Elems(vs) == m.Values && |vs| == |m|
    ensures Injective(m) ==> Distinct(vs)
  {
    vs, ks := [], [];
    var todo := m.Keys;
    ghost var done: set<string> := {};
    while todo != {}
      invariant done !! todo && done + todo == m.Keys
      invariant ValuesOf(m, done, ks, vs)
      invariant Elems(vs) == Image(m, done) && |vs| == |done|
      invariant Injective(m) ==> Distinct(vs)
      decreases todo
    {
      var k :| k in todo;
      ImageSnoc(m, done, k, vs);
      ValuesOfSnoc(m, done, ks, vs, k);
      if Injective(m) {
        ImageOutside(m, done, k);
        DistinctSnoc(vs, m[k]);
      }
      vs, ks := vs + [m[k]], ks + [k];
      Visit(done, todo, m.Keys, k);
      todo := todo - {k};
      done := done + {k};
    }
    ImageAll(m);
  }

  /** `changes`: the values of `m` that do not occur in `bp`. Their order follows
      Go's map order: `vs` lists the values of `m` in that order, one per key `ks`,
      and the result is `vs` without the values of `bp`. When `m` is injective each
      value occurs once. */
  method Changes(m: map<string, int>, bp: seq<int>) returns (r: seq<int>, ghost ks: seq<string>, ghost vs: seq<int>)
    ensures ValuesOf(m, m.Keys, ks, vs) && r == Minus(vs, Elems(bp))
    ensures Elems(r) == m.Values - Elems(bp)
    ensures Injective(m) ==> Distinct(r) && |r| == |m.Values - Elems(bp)|
  {
    var values, keys := MapValues(m);
    r := Subset(values, bp);
    vs, ks := values, keys;
    assert Elems(r) == Elems(vs) - Elems(bp);
    if Injective(m) {
      MinusDistinct(vs, Elems(bp));
    }
  }

  /** `extractFromMap`: each old-side position `k` of `t` sends the record `A[k]` to
      the record `B[t[k]]`. Go panics on a position outside its list. When two
      positions hold the same record the later visit wins. */
  method ExtractFromMap(A: seq<Stock>, B: seq<Stock>, t: map<int, int>) returns (translator: map<Stock, Stock>)
    requires forall k :: k in t ==> 0 <= k < |A| && 0 <= t[k] < |B|
    ensures translator.Keys == set k | k in t :: A[k]
    ensures forall x :: x in translator ==> exists k :: k in t && A[k] == x && B[t[k]] == translator[x]
    ensures DistinctAt(A, t.Keys) ==> forall k :: k in t ==> translator[A[k]] == B[t[k]]
  {
    translator := map[];
    var todo := t.Keys;
    ghost var done: set<int> := {};
    while todo != {}
      invariant done !! todo && done + todo == t.Keys
      invariant Translated(A, B, t, done, translator)
      decreases todo
    {
      // A witness, without which the choice below cannot be shown to exist.
      ghost var w := Pick(todo);
      var k :| k in todo;
      TranslateStep(A, B, t, done, translator, k);
      translator := translator[A[k] := B[t[k]]];
      Visit(done, todo, t.Keys, k);
      todo := todo - {k};
      done := done + {k};
    }
  }

  /** The positions `ks` of `A` hold different records. */
  predicate DistinctAt(A: seq<Stock>, ks: set<int>)
    requires forall k :: k in ks ==> 0 <= k < |A|
  {
    forall k1, k2 :: k1 in ks && k2 in ks && k1 != k2 ==> A[k1] != A[k2]
  }

  /** `translator` holds the pairs of the positions visited so far. */
  ghost predicate Translated(A: seq<Stock>, B: seq<Stock>, t: map<int, int>, done: set<int>, translator: map<Stock, Stock>)
    requires forall k :: k in t ==> 0 <= k < |A| && 0 <= t[k] < |B|
    requires done <= t.Keys
  {
    && translator.Keys == (set k | k in done :: A[k])
    && (forall x :: x in translator ==> exists k :: k in t && A[k] == x && B[t[k]] == translator[x])
    && (DistinctAt(A, t.Keys) ==> forall k :: k in done ==> translator[A[k]] == B[t[k]])
  }

  lemma TranslateStep(A: seq<Stock>, B: seq<Stock>, t: map<int, int>, done: set<int>,
                      translator: map<Stock, Stock>, k: int)
    requires forall k :: k in t ==> 0 <= k < |A| && 0 <= t[k] < |B|
    requires done <= t.Keys && k in t && k !in done
    requires Translated(A, B, t, done, translator)
    ensures Translated(A, B, t, done + {k}, translator[A[k] := B[t[k]]])
  {
    var tr := translator[A[k] := B[t[k]]];
    assert tr.Keys == (set j | j in done + {k} :: A[j]);
    forall x | x in tr
      ensures exists j :: j in t && A[j] == x && B[t[j]] == tr[x]
    {
      if x != A[k] {
        var j :| j in t && A[j] == x && B[t[j]] == translator[x];
      }
    }
  }

  /** `findUpdates`: each identifier of `mA` either is shared with `mB`, and then
      `m` maps its old-side position to its new-side position and `ixB` records
      the new-side position, or is not, and then `ixA` records its old-side
      position. Entries are visited in Go's unspecified map order; when two
      identifiers share an old-side position the later visit wins. `ksA` and `ksB`
      are the identifiers behind `ixA` and `ixB`, in the order they were visited. */
  method FindUpdates(mA: map<string, int>, mB: map<string, int>)
    returns (m: map<int, int>, ixA: seq<int>, ixB: seq<int>, ghost ksA: seq<string>, ghost ksB: seq<string>)
    ensures m.Keys == Image(mA, mA.Keys * mB.Keys)
    ensures forall va :: va in m ==> exists k :: k in mA && k in mB && mA[k] == va && mB[k] == m[va]
    ensures Injective(mA) ==> forall k :: k in mA && k in mB ==> m[mA[k]] == mB[k]
    ensures Elems(ixA) == Image(mA, mA.Keys - mB.Keys) && |ixA| == |mA.Keys - mB.Keys|
    ensures Elems(ixB) == Image(mB, mA.Keys * mB.Keys) && |ixB| == |mA.Keys * mB.Keys|
    ensures ValuesOf(mA, mA.Keys - mB.Keys, ksA, ixA)
    ensures ValuesOf(mB, mA.Keys * mB.Keys, ksB, ixB)
  {
    m, ixA, ixB, ksA, ksB := map[], [], [], [], [];
    var todo := mA.Keys;
    ghost var done: set<string> := {};
    FoundStart(mA, mB);
    while todo != {}
      invariant done !! todo && done + todo == mA.Keys
      invariant Found(mA, mB, done, m, ksA, ixA, ksB, ixB)
      decreases todo
    {
      var k :| k in todo;
      if k in mB {
        FoundShared(mA, mB, done, k, m, ksA, ixA, ksB, ixB);
        m := m[mA[k] := mB[k]];
        ixB, ksB := ixB + [mB[k]], ksB + [k];
      } else {
        FoundOnlyOld(mA, mB, done, k, m, ksA, ixA, ksB, ixB);
        ixA, ksA := ixA + [mA[k]], ksA + [k];
      }
      Visit(done, todo, mA.Keys, k);
      todo := todo - {k};
      done := done + {k};
    }
    assert done == mA.Keys;
  }

  /** The counts of `findUpdates` for an injective old-side index: every entry of
      `mA` lands either in `m` or in `ixA`, and `ixB` has one position per pair. */
  lemma FindUpdatesCounts(mA: map<string, int>, mB: map<string, int>, m: map<int, int>, ixA: seq<int>, ixB: seq<int>)
    requires Injective(mA)
    requires m.Keys == Image(mA, mA.Keys * mB.Keys)
    requires |ixA| == |mA.Keys - mB.Keys| && |ixB| == |mA.Keys * mB.Keys|
    ensures |m| + |ixA| == |mA| && |ixB| == |m|
  {
    ImageCard(mA, mA.Keys * mB.Keys);
    SplitCard(mA.Keys, mB.Keys);
    assert |m| == |m.Keys| && |mA| == |mA.Keys|;
  }

  /** What `findUpdates` has built after visiting the identifiers `done`. */
  ghost predicate Found(mA: map<string, int>, mB: map<string, int>, done: set<string>, m: map<int, int>,
                        ksA: seq<string>, ixA: seq<int>, ksB: seq<string>, ixB: seq<int>)
    requires done <= mA.Keys
  {
    Paired(mA, mB, done, m) && Unmatched(mA, mB, done, ksA, ixA) && Matched(mA, mB, done, ksB, ixB)
  }

  /** Nothing is found before the first visit. */
  lemma FoundStart(mA: map<string, int>, mB: map<string, int>)
    ensures Found(mA, mB, {}, map[], [], [], [], [])
  {
    assert {} * mB.Keys == {} && {} - mB.Keys == {};
  }

  /** Visiting an identifier both maps have. */
  lemma FoundShared(mA: map<string, int>, mB: map<string, int>, done: set<string>, k: string, m: map<int, int>,
                    ksA: seq<string>, ixA: seq<int>, ksB: seq<string>, ixB: seq<int>)
    requires done <= mA.Keys && k in mA && k in mB && k !in done
    requires Found(mA, mB, done, m, ksA, ixA, ksB, ixB)
    ensures Found(mA, mB, done + {k}, m[mA[k] := mB[k]], ksA, ixA, ksB + [k], ixB + [mB[k]])
  {
    PairedShared(mA, mB, done, k, m);
    UnmatchedShared(mA, mB, done, k, ksA, ixA);
    MatchedShared(mA, mB, done, k, ksB, ixB);
  }

  /** Visiting an identifier only `mA` has. */
  lemma FoundOnlyOld(mA: map<string, int>, mB: map<string, int>, done: set<string>, k: string, m: map<int, int>,
                     ksA: seq<string>, ixA: seq<int>, ksB: seq<string>, ixB: seq<int>)
    requires done <= mA.Keys && k in mA && k !in mB && k !in done
    requires Found(mA, mB, done, m, ksA, ixA, ksB, ixB)
    ensures Found(mA, mB, done + {k}, m, ksA + [k], ixA + [mA[k]], ksB, ixB)
  {
    PairedOnlyOld(mA, mB, done, k, m);
    UnmatchedOnlyOld(mA, mB, done, k, ksA, ixA);
    MatchedOnlyOld(mA, mB, done, k, ksB, ixB);
  }

  /** `m` pairs the positions of the shared identifiers visited so far. */
  ghost predicate Paired(mA: map<string, int>, mB: map<string, int>, done: set<string>, m: map<int, int>)
    requires done <= mA.Keys
  {
    && m.Keys == Image(mA, done * mB.Keys)
    && Witnessed(mA, mB, m)
    && (Injective(mA) ==> forall k :: k in done && k in mB ==> m[mA[k]] == mB[k])
  }

  /** Every pair of `m` comes from an identifier the two maps share. */
  ghost predicate Witnessed(mA: map<string, int>, mB: map<string, int>, m: map<int, int>) {
    forall va :: va in m ==> exists k :: k in mA && k in mB && mA[k] == va && mB[k] == m[va]
  }

  /** `ixA` holds one old-side position per visited identifier that `mB` lacks,
      each the position of the identifier at the same place in `ksA`. */
  ghost predicate Unmatched(mA: map<string, int>, mB: map<string, int>, done: set<string>, ksA: seq<string>, ixA: seq<int>)
    requires done <= mA.Keys
  {
    && Elems(ixA) == Image(mA, done - mB.Keys) && |ixA| == |done - mB.Keys|
    && ValuesOf(mA, done - mB.Keys, ksA, ixA)
  }

  /** `ixB` holds one new-side position per visited identifier that `mB` has,
      each the position of the identifier at the same place in `ksB`. */
  ghost predicate Matched(mA: map<string, int>, mB: map<string, int>, done: set<string>, ksB: seq<string>, ixB: seq<int>)
    requires done <= mA.Keys
  {
    && Elems(ixB) == Image(mB, done * mB.Keys) && |ixB| == |done * mB.Keys|
    && ValuesOf(mB, done * mB.Keys, ksB, ixB)
  }

  lemma PairedShared(mA: map<string, int>, mB: map<string, int>, done: set<string>, k: string, m: map<int, int>)
    requires done <= mA.Keys && k in mA && k in mB && k !in done
    requires Paired(mA, mB, done, m)
    ensures Paired(mA, mB, done + {k}, m[mA[k] := mB[k]])
  {
    var x := done * mB.Keys;
    assert (done + {k}) * mB.Keys == x + {k};
    ImageAdd(mA, x, k);
    var m' := m[mA[k] := mB[k]];
    forall va | va in m'
      ensures exists j :: j in mA && j in mB && mA[j] == va && mB[j] == m'[va]
    {
      if va != mA[k] {
        var j :| j in mA && j in mB && mA[j] == va && mB[j] == m[va];
      }
    }
    assert Witnessed(mA, mB, m');
  }

  lemma UnmatchedShared(mA: map<string, int>, mB: map<string, int>, done: set<string>, k: string, ksA: seq<string>, ixA: seq<int>)
    requires done <= mA.Keys && k in mA && k in mB && k !in done
    requires Unmatched(mA, mB, done, ksA, ixA)
    ensures Unmatched(mA, mB, done + {k}, ksA, ixA)
  {
    assert (done + {k}) - mB.Keys == done - mB.Keys;
  }

  lemma MatchedShared(mA: map<string, int>, mB: map<string, int>, done: set<string>, k: string, ksB: seq<string>, ixB: seq<int>)
    requires done <= mA.Keys && k in mA && k in mB && k !in done
    requires Matched(mA, mB, done, ksB, ixB)
    ensures Matched(mA, mB, done + {k}, ksB + [k], ixB + [mB[k]])
  {
    var x := done * mB.Keys;
    assert (done + {k}) * mB.Keys == x + {k};
    ImageSnoc(mB, x, k, ixB);
    ValuesOfSnoc(mB, x, ksB, ixB, k);
  }

  lemma PairedOnlyOld(mA: map<string, int>, mB: map<string, int>, done: set<string>, k: string, m: map<int, int>)
    requires done <= mA.Keys && k in mA && k !in mB && k !in done
    requires Paired(mA, mB, done, m)
    ensures Paired(mA, mB, done + {k}, m)
  {
    assert (done + {k}) * mB.Keys == done * mB.Keys;
  }

  lemma UnmatchedOnlyOld(mA: map<string, int>, mB: map<string, int>, done: set<string>, k: string, ksA: seq<string>, ixA: seq<int>)
    requires done <= mA.Keys && k in mA && k !in mB && k !in done
    requires Unmatched(mA, mB, done, ksA, ixA)
    ensures Unmatched(mA, mB, done + {k}, ksA + [k], ixA + [mA[k]])
  {
    var x := done - mB.Keys;
    assert (done + {k}) - mB.Keys == x + {k};
    ImageSnoc(mA, x, k, ixA);
    ValuesOfSnoc(mA, x, ksA, ixA, k);
  }

  lemma MatchedOnlyOld(mA: map<string, int>, mB: map<string, int>, done: set<string>, k: string, ksB: seq<string>, ixB: seq<int>)
    requires done <= mA.Keys && k in mA && k !in mB && k !in done
    requires Matched(mA, mB, done, ksB, ixB)
    ensures Matched(mA, mB, done + {k}, ksB, ixB)
  {
    assert (done + {k}) * mB.Keys == done * mB.Keys;
  }

  /** What `Resolve` returns: the updates, the deletes and the additions. */
  datatype Resolution = Resolution(updates: map<Stock, Stock>, deletes: seq<Stock>, additions: seq<Stock>)

  /** The result of `Resolve` as written. The updates are the identity join over the
      two value differences; the deletes and the additions have one record per
      identifier that only their side carries, but, through `ExtractGroup`, they are
      the first that many records of each difference. */
  function AsWritten(Existing: seq<Stock>, Refreshed: seq<Stock>): (r: Resolution)
    ensures |r.deletes| <= |OnlyOld(Existing, Refreshed)| && |r.additions| <= |OnlyNew(Existing, Refreshed)|
  {
    var a, b := OnlyOld(Existing, Refreshed), OnlyNew(Existing, Refreshed);
    IdsCard(a);
    IdsCard(b);
    DiffCard(Ids(a), Ids(b));
    DiffCard(Ids(b), Ids(a));
    Resolution(Updates(a, b), a[..|Ids(a) - Ids(b)|], b[..|Ids(b) - Ids(a)|])
  }

  /** `|x - y| <= |x|`. */
  lemma DiffCard(x: set<string>, y: set<string>)
    ensures |x - y| <= |x|
  {
    assert x == (x - y) + (x * y);
  }

  /** `Resolve`: phase 1 by `diffs`, then the identity join through position maps. */
  method Resolve(Existing: seq<Stock>, Refreshed: seq<Stock>)
    returns (updates: map<Stock, Stock>, deletes: seq<Stock>, additions: seq<Stock>)
    ensures Resolution(updates, deletes, additions) == AsWritten(Existing, Refreshed)
  {
    var dA, dB := Diffs(Existing, Refreshed);
    var mA, mB := IdMap(dA, dB);
    IndexInjective(dA);
    IndexInjective(dB);
    var translator, idxEnds, idxPotentialAdds, ksEnds, ksPotentialAdds := FindUpdates(mA, mB);
    var idxAdds, ksB, idxB := Changes(mB, idxPotentialAdds);
    AddIndices(dA, dB, idxPotentialAdds, idxAdds);
    TranslatorRange(dA, dB, translator);
    updates := ExtractFromMap(dA, dB, translator);
    TranslatorUpdates(dA, dB, translator, updates);
    IdsCard(dA);
    IdsCard(dB);
    DiffCard(Ids(dA), Ids(dB));
    DiffCard(Ids(dB), Ids(dA));
    deletes := ExtractGroup(dA, idxEnds);
    additions := ExtractGroup(dB, idxAdds);
  }

  /** The positions `Changes` leaves: one new-side position per identifier that only
      the new side carries. */
  lemma AddIndices(a: seq<Stock>, b: seq<Stock>, ixB: seq<int>, idxAdds: seq<int>)
    requires Elems(ixB) == Image(Index(b), Ids(a) * Ids(b))
    requires Elems(idxAdds) == Index(b).Values - Elems(ixB) && Distinct(idxAdds)
    ensures Elems(idxAdds) == Image(Index(b), Ids(b) - Ids(a)) && |idxAdds| == |Ids(b) - Ids(a)|
  {
    var mB := Index(b);
    IndexInjective(b);
    ImageAll(mB);
    ImageMinus(mB, Ids(b), Ids(a) * Ids(b));
    assert Ids(b) - Ids(a) * Ids(b) == Ids(b) - Ids(a);
    ImageCard(mB, Ids(b) - Ids(a));
    DistinctCard(idxAdds);
  }

  /** The pairs of positions `FindUpdates` produces lie within the two lists. */
  lemma TranslatorRange(a: seq<Stock>, b: seq<Stock>, t: map<int, int>)
    requires t.Keys == Image(Index(a), Ids(a) * Ids(b))
    requires forall va :: va in t ==> exists k :: k in Index(a) && k in Index(b) && Index(a)[k] == va && Index(b)[k] == t[va]
    ensures forall k :: k in t ==> 0 <= k < |a| && 0 <= t[k] < |b|
    ensures DistinctAt(a, t.Keys)
  {
  }

  /** The records the translated positions hold are the identity join. */
  lemma TranslatorUpdates(a: seq<Stock>, b: seq<Stock>, t: map<int, int>, u: map<Stock, Stock>)
    requires t.Keys == Image(Index(a), Ids(a) * Ids(b))
    requires forall k :: k in Index(a) && k in Index(b) ==> t[Index(a)[k]] == Index(b)[k]
    requires forall k :: k in t ==> 0 <= k < |a| && 0 <= t[k] < |b|
    requires u.Keys == set k | k in t :: a[k]
    requires forall k :: k in t ==> u[a[k]] == b[t[k]]
    ensures u == Updates(a, b)
  {
    TranslatedPairs(a, b, t, u);
    TranslatedKeys(a, b, t, u);
    MapEq(u, Updates(a, b));
  }

  lemma TranslatedPairs(a: seq<Stock>, b: seq<Stock>, t: map<int, int>, u: map<Stock, Stock>)
    requires t.Keys == Image(Index(a), Ids(a) * Ids(b))
    requires forall k :: k in Index(a) && k in Index(b) ==> t[Index(a)[k]] == Index(b)[k]
    requires forall k :: k in t ==> 0 <= k < |a| && 0 <= t[k] < |b|
    requires u.Keys == set k | k in t :: a[k]
    requires forall k :: k in t ==> u[a[k]] == b[t[k]]
    ensures forall x :: x in u ==> x in Updates(a, b) && u[x] == Updates(a, b)[x]
  {
    forall x | x in u
      ensures x in Updates(a, b) && u[x] == Updates(a, b)[x]
    {
      var i :| i in t && a[i] == x;
      var k :| k in Ids(a) * Ids(b) && Index(a)[k] == i;
      assert LastOf(a, k) == x;
    }
  }

  lemma TranslatedKeys(a: seq<Stock>, b: seq<Stock>, t: map<int, int>, u: map<Stock, Stock>)
    requires t.Keys == Image(Index(a), Ids(a) * Ids(b))
    requires forall k :: k in t ==> 0 <= k < |a|
    requires u.Keys == set k | k in t :: a[k]
    ensures forall x :: x in Updates(a, b) ==> x in u
  {
    forall x | x in Updates(a, b)
      ensures x in u
    {
      assert Index(a)[x.iexId] in t;
    }
  }

  /** The new-side survivors whose identifier the old side lacks: what the additions
      of `Resolve` are meant to be. */
  function Introduced(Existing: seq<Stock>, Refreshed: seq<Stock>): set<Stock> {
    var a, b := OnlyOld(Existing, Refreshed), OnlyNew(Existing, Refreshed);
    SurvivorsWith(b, Ids(b) - Ids(a))
  }

  /** `Resolve` with the intended `extractGroup`: the deletes are exactly the ends of
      the identity join and the additions exactly the new-side survivors with a new
      identifier, each once, in Go's unspecified map order. */
  method ResolveFixed(Existing: seq<Stock>, Refreshed: seq<Stock>)
    returns (updates: map<Stock, Stock>, deletes: seq<Stock>, additions: seq<Stock>)
    ensures var r := Reconciled(Existing, Refreshed);
      updates == r.updates && Elems(deletes) == r.ends && |deletes| == |r.ends|
    ensures Elems(additions) == Introduced(Existing, Refreshed)
    ensures |additions| == |Introduced(Existing, Refreshed)|
  {
    var dA, dB := Diffs(Existing, Refreshed);
    var mA, mB := IdMap(dA, dB);
    IndexInjective(dA);
    IndexInjective(dB);
    var translator, idxEnds, idxPotentialAdds, ksEnds, ksPotentialAdds := FindUpdates(mA, mB);
    var idxAdds, ksB, idxB := Changes(mB, idxPotentialAdds);
    AddIndices(dA, dB, idxPotentialAdds, idxAdds);
    TranslatorRange(dA, dB, translator);
    updates := ExtractFromMap(dA, dB, translator);
    TranslatorUpdates(dA, dB, translator, updates);
    IndicesInRange(dA, Ids(dA) - Ids(dB), idxEnds);
    IndicesInRange(dB, Ids(dB) - Ids(dA), idxAdds);
    deletes := ExtractGroupAt(dA, idxEnds);
    additions := ExtractGroupAt(dB, idxAdds);
    Picked(dA, Ids(dA) - Ids(dB), idxEnds, deletes);
    Picked(dB, Ids(dB) - Ids(dA), idxAdds, additions);
    EndsAreSurvivors(dA, dB);
  }

  /** Positions taken from the index of a list lie within the list. */
  lemma IndicesInRange(s: seq<Stock>, ids: set<string>, xi: seq<int>)
    requires ids <= Ids(s) && Elems(xi) == Image(Index(s), ids)
    ensures forall i :: 0 <= i < |xi| ==> 0 <= xi[i] < |s|
  {
    forall i | 0 <= i < |xi|
      ensures 0 <= xi[i] < |s|
    {
      assert xi[i] in Image(Index(s), ids);
    }
  }

  /** The records at the index positions of a set of identifiers, one position per
      identifier, are the survivors with those identifiers. */
  lemma Picked(s: seq<Stock>, ids: set<string>, xi: seq<int>, r: seq<Stock>)
    requires ids <= Ids(s) && Elems(xi) == Image(Index(s), ids) && |xi| == |ids|
    requires forall i :: 0 <= i < |xi| ==> 0 <= xi[i] < |s|
    requires |r| == |xi| && forall i :: 0 <= i < |xi| ==> r[i] == s[xi[i]]
    ensures Elems(r) == SurvivorsWith(s, ids) && |r| == |SurvivorsWith(s, ids)|
  {
    PickedSound(s, ids, xi, r);
    PickedComplete(s, ids, xi, r);
    SurvivorsCard(s, ids);
  }

  lemma PickedSound(s: seq<Stock>, ids: set<string>, xi: seq<int>, r: seq<Stock>)
    requires ids <= Ids(s) && Elems(xi) == Image(Index(s), ids)
    requires forall i :: 0 <= i < |xi| ==> 0 <= xi[i] < |s|
    requires |r| == |xi| && forall i :: 0 <= i < |xi| ==> r[i] == s[xi[i]]
    ensures Elems(r) <= SurvivorsWith(s, ids)
  {
    forall i | 0 <= i < |r|
      ensures r[i] in SurvivorsWith(s, ids)
    {
      assert xi[i] in Elems(xi);
      SurvivorAt(s, ids, xi[i]);
    }
  }

  /** A position the index keeps for one of the identifiers holds a survivor. */
  lemma SurvivorAt(s: seq<Stock>, ids: set<string>, p: int)
    requires ids <= Ids(s) && p in Image(Index(s), ids)
    ensures 0 <= p < |s| && s[p] in SurvivorsWith(s, ids)
  {
    var k :| k in ids && Index(s)[k] == p;
    LastSurvives(s, k);
  }

  lemma PickedComplete(s: seq<Stock>, ids: set<string>, xi: seq<int>, r: seq<Stock>)
    requires ids <= Ids(s) && Elems(xi) == Image(Index(s), ids)
    requires forall i :: 0 <= i < |xi| ==> 0 <= xi[i] < |s|
    requires |r| == |xi| && forall i :: 0 <= i < |xi| ==> r[i] == s[xi[i]]
    ensures SurvivorsWith(s, ids) <= Elems(r)
  {
    forall x | x in SurvivorsWith(s, ids)
      ensures x in r
    {
      assert Index(s)[x.iexId] in Elems(xi);
    }
  }

  /** Comparing a list with itself resolves to nothing. */
  lemma ResolveNoChange(S: seq<Stock>)
    ensures AsWritten(S, S) == Resolution(map[], [], [])
  {
    NoChangeIsNoOp(S);
  }

  /** Against an empty stored list, a fetched list with unique identifiers is added
      whole, in order. */
  lemma ResolveBootstrap(S: seq<Stock>)
    requires UniqueIds(S)
    ensures AsWritten([], S) == Resolution(map[], [], S)
  {
    assert Elems<Stock>([]) == {};
    MinusNothing(S);
    assert OnlyOld([], S) == [] && OnlyNew([], S) == S;
    assert Ids([]) == {} && Latest([]) == {};
    UniqueIdsCard(S);
    assert Ids(S) - Ids([]) == Ids(S);
  }

  /** The parts of the as-written result. */
  /** The lengths of the parts of `AsWritten`, for `ResolveCounts`. */
  lemma AsWrittenParts(Existing: seq<Stock>, Refreshed: seq<Stock>)
    ensures var a, b := OnlyOld(Existing, Refreshed), OnlyNew(Existing, Refreshed);
      var r := AsWritten(Existing, Refreshed);
      && r.updates == Updates(a, b)
      && |r.deletes| == |Ids(a) - Ids(b)| && r.deletes == a[..|r.deletes|]
      && |r.additions| == |Ids(b) - Ids(a)| && r.additions == b[..|r.additions|]
  {
    var a, b := OnlyOld(Existing, Refreshed), OnlyNew(Existing, Refreshed);
    IdsCard(a);
    IdsCard(b);
    DiffCard(Ids(a), Ids(b));
    DiffCard(Ids(b), Ids(a));
  }

  /** When the prefix defect does no harm: with unique identifiers on both sides,
      the as-written deletes are the ends exactly when the first that many old-side
      differences all carry identifiers the new side lacks, and the additions are
      the new-side survivors with new identifiers exactly when the first that many
      new-side differences all carry identifiers the old side lacks. */
  lemma AsWrittenExactWhen(Existing: seq<Stock>, Refreshed: seq<Stock>)
    requires UniqueIds(Existing) && UniqueIds(Refreshed)
    ensures var a, b := OnlyOld(Existing, Refreshed), OnlyNew(Existing, Refreshed);
      var r := AsWritten(Existing, Refreshed);
      && (Elems(r.deletes) == Ends(a, b) <==> forall i :: 0 <= i < |r.deletes| ==> a[i].iexId !in Ids(b))
      && (Elems(r.additions) == Introduced(Existing, Refreshed)
          <==> forall i :: 0 <= i < |r.additions| ==> b[i].iexId !in Ids(a))
  {
    var a, b := OnlyOld(Existing, Refreshed), OnlyNew(Existing, Refreshed);
    UniqueIdsMinus(Existing, Elems(Refreshed));
    UniqueIdsMinus(Refreshed, Elems(Existing));
    EndsAreSurvivors(a, b);
    PrefixIsSurvivors(a, Ids(b));
    PrefixIsSurvivors(b, Ids(a));
  }

  /** With unique identifiers, the first `|Ids(s) - ids|` records of `s` are the
      survivors whose identifier lies outside `ids` exactly when each of them does. */
  lemma PrefixIsSurvivors(s: seq<Stock>, ids: set<string>)
    requires UniqueIds(s)
    ensures |Ids(s) - ids| <= |s|
    ensures Elems(s[..|Ids(s) - ids|]) == SurvivorsWith(s, Ids(s) - ids)
      <==> forall i :: 0 <= i < |Ids(s) - ids| ==> s[i].iexId !in ids
  {
    var n := |Ids(s) - ids|;
    UniqueIdsCard(s);
    DiffCard(Ids(s), ids);
    if forall i :: 0 <= i < n ==> s[i].iexId !in ids {
      PrefixFillsSurvivors(s, ids, n);
    }
    if Elems(s[..n]) == SurvivorsWith(s, Ids(s) - ids) {
      forall i | 0 <= i < n
        ensures s[i].iexId !in ids
      {
        assert s[..n][i] in Elems(s[..n]);
      }
    }
  }

  /** A prefix of `|Ids(s) - ids|` records whose identifiers all lie outside `ids`
      holds every survivor with such an identifier. */
  lemma PrefixFillsSurvivors(s: seq<Stock>, ids: set<string>, n: int)
    requires UniqueIds(s) && n == |Ids(s) - ids| <= |s|
    requires forall i :: 0 <= i < n ==> s[i].iexId !in ids
    ensures Elems(s[..n]) == SurvivorsWith(s, Ids(s) - ids)
  {
    var p, t := Elems(s[..n]), SurvivorsWith(s, Ids(s) - ids);
    PrefixInSurvivors(s, ids, n);
    SurvivorsCard(s, Ids(s) - ids);
    UniqueIdsDistinct(s);
    assert Distinct(s[..n]);
    DistinctCard(s[..n]);
    SubsetMinusCard(t, p);
    assert t - p == {};
  }

  /** Records with unique identifiers all survive, so a prefix whose identifiers lie
      outside `ids` consists of such survivors. */
  lemma PrefixInSurvivors(s: seq<Stock>, ids: set<string>, n: int)
    requires UniqueIds(s) && 0 <= n <= |s|
    requires forall i :: 0 <= i < n ==> s[i].iexId !in ids
    ensures Elems(s[..n]) <= SurvivorsWith(s, Ids(s) - ids)
  {
    LatestUnique(s);
    forall x | x in Elems(s[..n])
      ensures x in SurvivorsWith(s, Ids(s) - ids)
    {
      var i :| 0 <= i < n && s[..n][i] == x;
      assert s[i] == x && x in Elems(s);
    }
  }

  /** The sizes `Resolve` gets right: one delete per identifier only the old side
      carries, one update per shared identifier, and as many additions as the new
      side has identifiers beyond those of the updates. */
  lemma ResolveCounts(Existing: seq<Stock>, Refreshed: seq<Stock>)
    ensures var a, b := OnlyOld(Existing, Refreshed), OnlyNew(Existing, Refreshed);
      var r := AsWritten(Existing, Refreshed);
      && |r.deletes| == |Ids(a) - Ids(b)|
      && |r.updates| == |Ids(a) * Ids(b)|
      && |r.additions| == |Ids(b)| - |r.updates|
  {
    var a, b := OnlyOld(Existing, Refreshed), OnlyNew(Existing, Refreshed);
    AsWrittenParts(Existing, Refreshed);
    UpdatesCard(a, b);
    NewIdsCard(Ids(a), Ids(b));
  }

  /** `|y - x| == |y| - |x * y|`. */
  lemma NewIdsCard(x: set<string>, y: set<string>)
    ensures |y - x| == |y| - |x * y|
  {
    assert y == (y - x) + (x * y);
  }

  /** Every update of `Resolve` pairs an old-side difference with a new-side
      difference that carries the same identifier. */
  lemma ResolveUpdatePairs(Existing: seq<Stock>, Refreshed: seq<Stock>, x: Stock)
    requires x in AsWritten(Existing, Refreshed).updates
    ensures var y := AsWritten(Existing, Refreshed).updates[x];
      && x.iexId == y.iexId && x != y
      && x in OnlyOld(Existing, Refreshed) && y in OnlyNew(Existing, Refreshed)
  {
    UpdatePairs(Existing, Refreshed, x);
  }

  /** The prefix defect: `foo` is renamed `foox` under the same identifier, `bar`
      disappears and `baz` is listed. The identity join has one end, `bar`, and one
      new identifier, `baz`; `Resolve` deletes `foo` and adds `foox` instead, the
      first records of the two differences, so `foo` is both updated and deleted. */
  lemma PrefixBugWitness(foo: Stock, bar: Stock, foox: Stock, baz: Stock)
    requires foo.iexId == foox.iexId && foo != foox
    requires foo.iexId != bar.iexId && foo.iexId != baz.iexId && bar.iexId != baz.iexId
    ensures var r := AsWritten([foo, bar], [foox, baz]);
      && r.updates == map[foo := foox] && r.deletes == [foo] && r.additions == [foox]
    ensures Reconciled([foo, bar], [foox, baz]).ends == {bar}
    ensures Introduced([foo, bar], [foox, baz]) == {baz}
  {
    RenameScenario(foo, bar, foox, baz);
    RenameAsWritten(foo, bar, foox, baz);
    RenameIntroduced(foo, bar, foox, baz);
  }

  lemma RenameAsWritten(foo: Stock, bar: Stock, foox: Stock, baz: Stock)
    requires foo.iexId == foox.iexId && foo != foox
    requires foo.iexId != bar.iexId && foo.iexId != baz.iexId && bar.iexId != baz.iexId
    ensures var r := AsWritten([foo, bar], [foox, baz]);
      && r.updates == map[foo := foox] && r.deletes == [foo] && r.additions == [foox]
  {
    var A, B := [foo, bar], [foox, baz];
    RenameSides(foo, bar, foox, baz);
    RenameJoin(foo, bar, foox, baz);
    RenameIds(foo, bar, foox, baz);
    AsWrittenParts(A, B);
    FirstOfTwo(foo, bar);
    FirstOfTwo(foox, baz);
  }

  lemma RenameIntroduced(foo: Stock, bar: Stock, foox: Stock, baz: Stock)
    requires foo.iexId == foox.iexId && foo != foox
    requires foo.iexId != bar.iexId && foo.iexId != baz.iexId && bar.iexId != baz.iexId
    ensures Introduced([foo, bar], [foox, baz]) == {baz}
  {
    var A, B := [foo, bar], [foox, baz];
    RenameSides(foo, bar, foox, baz);
    RenameIds(foo, bar, foox, baz);
    LatestTwo(foox, baz);
    assert SurvivorsWith(B, {baz.iexId}) == {baz};
  }

  lemma RenameIds(foo: Stock, bar: Stock, foox: Stock, baz: Stock)
    requires foo.iexId == foox.iexId
    requires foo.iexId != bar.iexId && foo.iexId != baz.iexId && bar.iexId != baz.iexId
    ensures Ids([foo, bar]) - Ids([foox, baz]) == {bar.iexId}
    ensures Ids([foox, baz]) - Ids([foo, bar]) == {baz.iexId}
  {
    ElemsTwo(foo, bar);
    ElemsTwo(foox, baz);
  }

  /** With unique identifiers in the fetched list, the intended additions are
      exactly the additions of the working revision. */
  lemma FixedAgreesWithApp(Existing: seq<Stock>, Refreshed: seq<Stock>)
    requires UniqueIds(Refreshed)
    ensures Introduced(Existing, Refreshed) == Elems(Reconciled(Existing, Refreshed).adds)
  {
    var a, b := OnlyOld(Existing, Refreshed), OnlyNew(Existing, Refreshed);
    UniqueIdsMinus(Refreshed, Elems(Existing));
    LatestUnique(b);
    UpdatesSides(a, b);
    var adds := Reconciled(Existing, Refreshed).adds;
    forall y | y in adds
      ensures y in Introduced(Existing, Refreshed)
    {
      AddsCharacterized(Existing, Refreshed, y);
    }
    forall y | y in Introduced(Existing, Refreshed)
      ensures y in adds
    {
      AddsCharacterized(Existing, Refreshed, y);
    }
  }
}
