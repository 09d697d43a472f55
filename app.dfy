/** The working revision of the reconciliation engine: `StockResolver` in
    app/application.go. `Differences` is the value-level difference (phase 1) and
    `Reconcile` the identity join on `IexID` over its two results (phase 2). */
module App {
  import opened Seqs
  import opened Stocks

  /** The records of the old list that no new record equals, in the old list's order. */
  function OnlyOld(A: seq<Stock>, B: seq<Stock>): seq<Stock> {
    Minus(A, Elems(B))
  }

  /** The records of the new list that no old record equals, in the new list's order. */
  function OnlyNew(A: seq<Stock>, B: seq<Stock>): seq<Stock> {
    Minus(B, Elems(A))
  }

  /** What `Reconcile` returns, with the ends as a set: the source collects them
      while ranging over a Go map, whose iteration order is unspecified. */
  datatype Outcome = Outcome(updates: map<Stock, Stock>, ends: set<Stock>, adds: seq<Stock>)

  /** The outcome of reconciling old list `A` against new list `B`: the identity
      join over the two value differences, and as additions every new-side
      difference that was not paired as the new half of an update. */
  function Reconciled(A: seq<Stock>, B: seq<Stock>): Outcome {
    var a, b := OnlyOld(A, B), OnlyNew(A, B);
    var u := Updates(a, b);
    Outcome(u, Ends(a, b), Minus(b, u.Values))
  }

  /** `setDifference`: the records of `B` that equal no record of `A`. */
  method SetDifference(A: seq<Stock>, B: seq<Stock>) returns (diff: seq<Stock>)
    ensures diff == Minus(B, Elems(A))
  {
    var setA: set<Stock> := {};
    for i := 0 to |A|
      invariant setA == Elems(A[..i])
    {
      assert A[..i + 1] == A[..i] + [A[i]];
      setA := setA + {A[i]};
    }
    assert A[..|A|] == A;
    diff := [];
    for i := 0 to |B|
      invariant diff == Minus(B[..i], setA)
    {
      assert B[..i + 1][..i] == B[..i];
      if B[i] !in setA {
        diff := diff + [B[i]];
      }
    }
    assert B[..|B|] == B;
  }

  /** The stored list `A` and the freshly fetched list `B` being compared. */
  datatype StockResolver = StockResolver(A: seq<Stock>, B: seq<Stock>) {

    /** Phase 1: the old records absent by full value from the new list, and the new
        records absent from the old list, each in its own list's order. No record
        is in both results. */
    method Differences() returns (aNotB: seq<Stock>, bNotA: seq<Stock>)
      ensures aNotB == OnlyOld(A, B) && bNotA == OnlyNew(A, B)
      ensures forall x :: x in aNotB ==> x !in bNotA
    {
      var setA: set<Stock> := {};
      for i := 0 to |A|
        invariant setA == Elems(A[..i])
      {
        assert A[..i + 1] == A[..i] + [A[i]];
        setA := setA + {A[i]};
      }
      var setB: set<Stock> := {};
      for i := 0 to |B|
        invariant setB == Elems(B[..i])
      {
        assert B[..i + 1] == B[..i] + [B[i]];
        setB := setB + {B[i]};
      }
      assert A[..|A|] == A && B[..|B|] == B;
      aNotB := [];
      for i := 0 to |A|
        invariant aNotB == Minus(A[..i], setB)
      {
        assert A[..i + 1][..i] == A[..i];
        if A[i] !in setB {
          aNotB := aNotB + [A[i]];
        }
      }
      bNotA := [];
      for i := 0 to |B|
        invariant bNotA == Minus(B[..i], setA)
      {
        assert B[..i + 1][..i] == B[..i];
        if B[i] !in setA {
          bNotA := bNotA + [B[i]];
        }
      }
      assert A[..|A|] == A && B[..|B|] == B;
    }

    /** Phase 2. The updates map each old-side survivor to the new-side survivor
        with its identifier; the ends are the old-side survivors whose identifier
        the new side lacks, each once, in unspecified order; the additions are the
        new-side differences that are not the new half of an update, in order. */
    method Reconcile() returns (updates: map<Stock, Stock>, ends: seq<Stock>, adds: seq<Stock>)
      ensures var r := Reconciled(A, B);
        updates == r.updates && Distinct(ends) && Elems(ends) == r.ends && adds == r.adds
    {
      var a, b := Differences();
      var mapA := IndexOf(a);
      var mapB := IndexOf(b);
      var tempB;
      updates, ends, tempB := Join(a, b, mapA, mapB);
      // the `setBprime` and `BNotBprime` loops are those of `setDifference`
      adds := SetDifference(tempB, b);
    }
  }

  /** The loop `m[s.IexID] = i` of `Reconcile` over one of the two differences. */
  method IndexOf(s: seq<Stock>) returns (m: map<string, int>)
    ensures m == Index(s)
  {
    m := map[];
    for i := 0 to |s|
      invariant m == Index(s[..i])
    {
      IndexSnoc(s, i);
      m := m[s[i].iexId := i];
    }
    assert s[..|s|] == s;
  }

  /** The `for k, idxa := range mapA` loop of `Reconcile`. Go visits the keys of a
      map in an unspecified order; here each step picks any key not yet visited. */
  method Join(a: seq<Stock>, b: seq<Stock>, mapA: map<string, int>, mapB: map<string, int>)
    returns (updates: map<Stock, Stock>, ends: seq<Stock>, tempB: seq<Stock>)
    requires mapA == Index(a) && mapB == Index(b)
    ensures updates == Updates(a, b) && Elems(tempB) == updates.Values
    ensures Distinct(ends) && Elems(ends) == Ends(a, b)
  {
    ends := [];
    tempB := [];
    updates := map[];
    var todo := mapA.Keys;
    assert UpdatesOutside(a, b, todo) == map[] && EndsOutside(a, b, todo) == {};
    while todo != {}
      invariant todo <= mapA.Keys
      invariant updates == UpdatesOutside(a, b, todo)
      invariant Elems(tempB) == updates.Values
      invariant Distinct(ends) && Elems(ends) == EndsOutside(a, b, todo)
      decreases todo
    {
      var k :| k in todo;
      var idxa := mapA[k];
      if k in mapB {
        var idxb := mapB[k];
        JoinMatched(a, b, todo, k, updates, tempB);
        updates := updates[a[idxa] := b[idxb]];
        tempB := tempB + [b[idxb]];
      } else {
        JoinUnmatched(a, b, todo, k, ends);
        ends := ends + [a[idxa]];
      }
      todo := todo - {k};
    }
    JoinDone(a, b);
  }

  /** Once every identifier is visited, the collected updates and ends are complete. */
  lemma JoinDone(a: seq<Stock>, b: seq<Stock>)
    ensures UpdatesOutside(a, b, {}) == Updates(a, b)
    ensures EndsOutside(a, b, {}) == Ends(a, b)
  {
  }

  /** The loop step for an identifier both sides have keeps the invariant. */
  lemma JoinMatched(a: seq<Stock>, b: seq<Stock>, todo: set<string>, k: string,
                    updates: map<Stock, Stock>, tempB: seq<Stock>)
    requires k in todo && k in Ids(a) && k in Ids(b)
    requires updates == UpdatesOutside(a, b, todo) && Elems(tempB) == updates.Values
    ensures var u' := updates[LastOf(a, k) := LastOf(b, k)];
      u' == UpdatesOutside(a, b, todo - {k}) && Elems(tempB + [LastOf(b, k)]) == u'.Values
    ensures EndsOutside(a, b, todo - {k}) == EndsOutside(a, b, todo)
  {
    JoinStepFresh(a, b, todo, k);
    JoinStepMatched(a, b, todo, k);
    JoinStepMatchedEnds(a, b, todo, k);
    MapUpdateValues(updates, LastOf(a, k), LastOf(b, k));
    ElemsSnoc(tempB, LastOf(b, k));
  }

  /** The loop step for an identifier only the old side has keeps the invariant. */
  lemma JoinUnmatched(a: seq<Stock>, b: seq<Stock>, todo: set<string>, k: string, ends: seq<Stock>)
    requires k in todo && k in Ids(a) && k !in Ids(b)
    requires Distinct(ends) && Elems(ends) == EndsOutside(a, b, todo)
    ensures Distinct(ends + [LastOf(a, k)])
    ensures Elems(ends + [LastOf(a, k)]) == EndsOutside(a, b, todo - {k})
    ensures UpdatesOutside(a, b, todo - {k}) == UpdatesOutside(a, b, todo)
  {
    JoinStepFresh(a, b, todo, k);
    JoinStepUnmatched(a, b, todo, k);
    ElemsSnoc(ends, LastOf(a, k));
    DistinctSnoc(ends, LastOf(a, k));
  }

  /** A fresh key adds its value to the values of a map; for `Join`'s update step. */
  lemma MapUpdateValues(m: map<Stock, Stock>, x: Stock, y: Stock)
    requires x !in m
    ensures m[x := y].Values == m.Values + {y}
  {
    var m' := m[x := y];
    forall v | v in m.Values
      ensures v in m'.Values
    {
      var k :| k in m && m[k] == v;
      assert m'[k] == v;
    }
    assert m'[x] == y;
  }

  /** The updates collected once the identifiers in `todo` are still to be visited. */
  function UpdatesOutside(a: seq<Stock>, b: seq<Stock>, todo: set<string>): map<Stock, Stock> {
    map x | x in Latest(a) && x.iexId in Ids(b) && x.iexId !in todo :: LastOf(b, x.iexId)
  }

  /** The ends collected once the identifiers in `todo` are still to be visited. */
  function EndsOutside(a: seq<Stock>, b: seq<Stock>, todo: set<string>): set<Stock> {
    set x | x in Latest(a) && x.iexId !in Ids(b) && x.iexId !in todo
  }

  /** The survivor of an identifier still to be visited has not been collected yet. */
  lemma JoinStepFresh(a: seq<Stock>, b: seq<Stock>, todo: set<string>, k: string)
    requires k in todo && k in Ids(a)
    ensures LastOf(a, k) !in UpdatesOutside(a, b, todo)
    ensures LastOf(a, k) !in EndsOutside(a, b, todo)
  {
  }

  /** Visiting an old-side identifier that the new side also has adds its survivor
      as a new key of the updates, paired with the new side's survivor. */
  lemma JoinStepMatched(a: seq<Stock>, b: seq<Stock>, todo: set<string>, k: string)
    requires k in todo && k in Ids(a) && k in Ids(b)
    ensures UpdatesOutside(a, b, todo - {k}) == UpdatesOutside(a, b, todo)[LastOf(a, k) := LastOf(b, k)]
  {
    var x, v := LastOf(a, k), LastOf(b, k);
    LastSurvives(a, k);
    var u, u' := UpdatesOutside(a, b, todo), UpdatesOutside(a, b, todo - {k});
    forall y | y in u'
      ensures y in u[x := v] && u'[y] == u[x := v][y]
    {
      if y.iexId == k {
        LatestById(a, x, y);
      }
    }
    MapEq(u', u[x := v]);
  }

  /** Visiting an old-side identifier that the new side also has leaves the ends alone. */
  lemma JoinStepMatchedEnds(a: seq<Stock>, b: seq<Stock>, todo: set<string>, k: string)
    requires k in todo && k in Ids(a) && k in Ids(b)
    ensures EndsOutside(a, b, todo - {k}) == EndsOutside(a, b, todo)
  {
  }

  /** Visiting an old-side identifier that the new side lacks adds its survivor to the ends. */
  lemma JoinStepUnmatched(a: seq<Stock>, b: seq<Stock>, todo: set<string>, k: string)
    requires k in todo && k in Ids(a) && k !in Ids(b)
    ensures UpdatesOutside(a, b, todo - {k}) == UpdatesOutside(a, b, todo)
    ensures EndsOutside(a, b, todo - {k}) == EndsOutside(a, b, todo) + {LastOf(a, k)}
  {
    var u, u' := UpdatesOutside(a, b, todo), UpdatesOutside(a, b, todo - {k});
    MapEq(u', u);
    LastSurvives(a, k);
  }

  // ---------------------------------------------------------------------------
  // What the engine promises about its outcome

  /** Reconciling a list against itself yields no updates, no ends and no additions. */
  lemma NoChangeIsNoOp(S: seq<Stock>)
    ensures OnlyOld(S, S) == [] && OnlyNew(S, S) == []
    ensures Reconciled(S, S) == Outcome(map[], {}, [])
  {
    MinusEverything(S, Elems(S));
    assert Ids([]) == {};
  }

  /** Bootstrap: against an empty old list every new record is an addition, in order. */
  lemma Bootstrap(B: seq<Stock>)
    ensures Reconciled([], B) == Outcome(map[], {}, B)
  {
    var r := Reconciled([], B);
    assert Elems<Stock>([]) == {};
    MinusNothing(B);
    assert OnlyOld([], B) == [] && OnlyNew([], B) == B;
    assert Ids([]) == {} && Latest([]) == {};
    assert r.updates == map[] && r.ends == {};
    assert r.updates.Values == {};
  }

  /** Every update pairs an old-side difference with a new-side difference that
      carries the same identifier; the two are different records. */
  lemma UpdatePairs(A: seq<Stock>, B: seq<Stock>, x: Stock)
    requires x in Reconciled(A, B).updates
    ensures var y := Reconciled(A, B).updates[x];
      && x.iexId == y.iexId && x != y
      && x in OnlyOld(A, B) && y in OnlyNew(A, B)
      && x in A && x !in B && y in B && y !in A
  {
  }

  /** Every end is an old-side difference whose identifier no new-side difference
      carries, so no addition shares an identifier with an end. */
  lemma EndsUnmatched(A: seq<Stock>, B: seq<Stock>, x: Stock)
    requires x in Reconciled(A, B).ends
    ensures x in OnlyOld(A, B) && x.iexId !in Ids(OnlyNew(A, B))
    ensures forall y :: y in Reconciled(A, B).adds ==> y.iexId != x.iexId
  {
  }

  /** A new-side difference is an addition exactly when it is not the record the
      index keeps for an identifier that the old side also has. */
  lemma AddsCharacterized(A: seq<Stock>, B: seq<Stock>, y: Stock)
    ensures var a, b := OnlyOld(A, B), OnlyNew(A, B);
      y in Reconciled(A, B).adds <==>
        y in b && (y.iexId !in Ids(a) || y != LastOf(b, y.iexId))
  {
    UpdatesSides(OnlyOld(A, B), OnlyNew(A, B));
  }

  /** An old-side difference that a later record with the same identifier shadows
      lands in neither the updates nor the ends. */
  lemma ShadowedOldDuplicate(A: seq<Stock>, B: seq<Stock>, x: Stock)
    requires x in OnlyOld(A, B) && x != LastOf(OnlyOld(A, B), x.iexId)
    ensures x !in Reconciled(A, B).updates && x !in Reconciled(A, B).ends
  {
  }

  /** Every old record is classified exactly once: unchanged (equal to a new
      record), the old half of an update, an end, or shadowed by a later old
      record with the same identifier. */
  lemma OldRecordClassified(A: seq<Stock>, B: seq<Stock>, x: Stock)
    requires x in A
    ensures var r, a := Reconciled(A, B), OnlyOld(A, B);
      var shadowed := x in a && x != LastOf(a, x.iexId);
      (if x in B then 1 else 0) + (if x in r.updates then 1 else 0)
        + (if x in r.ends then 1 else 0) + (if shadowed then 1 else 0) == 1
  {
    var a, b := OnlyOld(A, B), OnlyNew(A, B);
    if x !in B {
      assert x in a;
      assert x.iexId in Ids(a);
    }
  }

  /** Every new record is classified exactly once: unchanged (equal to an old
      record), the new half of an update, or an addition. */
  lemma NewRecordClassified(A: seq<Stock>, B: seq<Stock>, y: Stock)
    requires y in B
    ensures var r := Reconciled(A, B);
      (if y in A then 1 else 0) + (if y in r.updates.Values then 1 else 0)
        + (if y in r.adds then 1 else 0) == 1
  {
    UpdatesSides(OnlyOld(A, B), OnlyNew(A, B));
  }

  /** With unique identifiers on each side, every old-side difference is either
      updated or ended, and every new-side difference is either the new half of
      an update or an addition. */
  lemma CountsWithUniqueIds(A: seq<Stock>, B: seq<Stock>)
    requires UniqueIds(A) && UniqueIds(B)
    ensures var r := Reconciled(A, B);
      && |OnlyOld(A, B)| == |r.updates| + |r.ends|
      && |OnlyNew(A, B)| == |r.updates| + |r.adds|
  {
    UniqueIdsMinus(A, Elems(B));
    UniqueIdsMinus(B, Elems(A));
    OldSideCount(OnlyOld(A, B), OnlyNew(A, B));
    NewSideCount(OnlyOld(A, B), OnlyNew(A, B));
  }

  /** The old-side half of `CountsWithUniqueIds`. */
  lemma OldSideCount(a: seq<Stock>, b: seq<Stock>)
    requires UniqueIds(a)
    ensures |a| == |Updates(a, b)| + |Ends(a, b)|
  {
    UniqueIdsCard(a);
    UpdatesCard(a, b);
    EndsCard(a, b);
    SplitCard(Ids(a), Ids(b));
  }

  /** The new-side half of `CountsWithUniqueIds`. */
  lemma NewSideCount(a: seq<Stock>, b: seq<Stock>)
    requires UniqueIds(b)
    ensures |b| == |Updates(a, b)| + |Minus(b, Updates(a, b).Values)|
  {
    UpdatesCard(a, b);
    UniqueIdsDistinct(b);
    DistinctCard(b);
    MinusDistinct(b, Updates(a, b).Values);
    UpdatesSides(a, b);
    SubsetMinusCard(Elems(b), Updates(a, b).Values);
  }

  /** There is one update per shared identifier, with different new halves. */
  lemma UpdatesCard(a: seq<Stock>, b: seq<Stock>)
    ensures |Updates(a, b)| == |Ids(a) * Ids(b)| == |Updates(a, b).Values|
  {
    var u, shared := Updates(a, b), Ids(a) * Ids(b);
    UpdatesSides(a, b);
    SurvivorsCard(a, shared);
    SurvivorsCard(b, shared);
    assert |u| == |u.Keys|;
  }

  /** There is one end per identifier only the old side has. */
  lemma EndsCard(a: seq<Stock>, b: seq<Stock>)
    ensures |Ends(a, b)| == |Ids(a) - Ids(b)|
  {
    EndsAreSurvivors(a, b);
    SurvivorsCard(a, Ids(a) - Ids(b));
  }

  /** A set splits into its part inside and its part outside `y`; for `OldSideCount`. */
  lemma SplitCard(x: set<string>, y: set<string>)
    ensures |x| == |x * y| + |x - y|
  {
    assert x == (x * y) + (x - y);
  }

  /** Removing a subset removes its size; for `NewSideCount`. */
  lemma SubsetMinusCard(x: set<Stock>, y: set<Stock>)
    requires y <= x
    ensures |x - y| == |x| - |y|
  {
    assert x == (x - y) + y;
  }

  /** Identity is stable under a rename: with unique identifiers, an old and a new
      record that share an identifier but differ elsewhere form an update, and
      neither is reported as an end or an addition. */
  lemma RenameIsUpdate(A: seq<Stock>, B: seq<Stock>, x: Stock, y: Stock)
    requires UniqueIds(A) && UniqueIds(B)
    requires x in A && y in B && x.iexId == y.iexId && x != y
    ensures var r := Reconciled(A, B);
      x in r.updates && r.updates[x] == y && x !in r.ends && y !in r.adds
  {
    var a, b := OnlyOld(A, B), OnlyNew(A, B);
    assert x !in B && y !in A;
    UniqueIdsMinus(A, Elems(B));
    UniqueIdsMinus(B, Elems(A));
    LatestUnique(a);
    LatestUnique(b);
    assert x in Latest(a) && y in Latest(b);
    assert x.iexId in Ids(b);
    LatestById(b, y, LastOf(b, x.iexId));
    AddsCharacterized(A, B, y);
  }

  /** The values of a one-entry map; for the scenario lemmas below. */
  lemma SingletonValues(x: Stock, y: Stock)
    ensures map[x := y].Values == {y}
  {
    assert map[x := y][x] == y;
  }

  /** The facts about a two-record list that the scenarios below need. */
  lemma MinusTwo(x: Stock, y: Stock, drop: set<Stock>)
    ensures Minus([x, y], drop) == (if x in drop then [] else [x]) + (if y in drop then [] else [y])
  {
    assert [x, y][..1] == [x];
    assert [x][..0] == [];
  }

  lemma MinusTwoKept(x: Stock, y: Stock, drop: set<Stock>)
    requires x !in drop && y !in drop
    ensures Minus([x, y], drop) == [x, y]
  {
    MinusTwo(x, y, drop);
  }

  lemma FirstOfTwo(x: Stock, y: Stock)
    ensures [x, y][..1] == [x]
  {
  }

  lemma ElemsTwo(x: Stock, y: Stock)
    ensures Elems([x, y]) == {x, y} && Ids([x, y]) == {x.iexId, y.iexId}
  {
  }

  lemma LatestTwo(x: Stock, y: Stock)
    ensures Latest([x, y]) == if x.iexId == y.iexId then {y} else {x, y}
  {
    var s := [x, y];
    assert s[..1] == [x] && [x][..0] == [];
    assert Index(s) == map[x.iexId := 0][y.iexId := 1];
    assert LastOf(s, y.iexId) == y;
    if x.iexId != y.iexId {
      assert LastOf(s, x.iexId) == x;
    }
  }

  lemma LatestOne(x: Stock)
    ensures Latest([x]) == {x} && Ids([x]) == {x.iexId}
  {
    assert [x][..0] == [];
    assert LastOf([x], x.iexId) == x;
  }

  /** The updates when each side has one surviving record per identifier. */
  lemma UpdatesOfLatest(A: seq<Stock>, B: seq<Stock>, x: Stock, y: Stock)
    requires x in Latest(A) && y in Latest(B) && x.iexId == y.iexId
    ensures x in Updates(A, B) && Updates(A, B)[x] == y
  {
    assert x.iexId in Ids(B);
    LatestById(B, y, LastOf(B, x.iexId));
  }

  /** When one survivor alone has its identifier on the new side, the updates are
      that one pair. */
  lemma SingleUpdate(A: seq<Stock>, B: seq<Stock>, x: Stock, y: Stock)
    requires x in Latest(A) && y in Latest(B) && x.iexId == y.iexId
    requires forall z :: z in Latest(A) && z != x ==> z.iexId !in Ids(B)
    ensures Updates(A, B) == map[x := y]
  {
    UpdatesOfLatest(A, B, x, y);
    MapEq(Updates(A, B), map[x := y]);
  }

  /** The outcome once both sides are known to be free of exact matches. */
  lemma OutcomeOfJoin(A: seq<Stock>, B: seq<Stock>, u: map<Stock, Stock>, e: set<Stock>)
    requires OnlyOld(A, B) == A && OnlyNew(A, B) == B
    requires Updates(A, B) == u && Ends(A, B) == e
    ensures Reconciled(A, B) == Outcome(u, e, Minus(B, u.Values))
  {
  }

  /** A record `foo` is renamed `foox` under the same identifier, `bar` disappears
      and `baz` is listed, all three identifiers being different: one update,
      one end, one addition. */
  lemma RenameScenario(foo: Stock, bar: Stock, foox: Stock, baz: Stock)
    requires foo.iexId == foox.iexId && foo != foox
    requires foo.iexId != bar.iexId && foo.iexId != baz.iexId && bar.iexId != baz.iexId
    ensures Reconciled([foo, bar], [foox, baz]) == Outcome(map[foo := foox], {bar}, [baz])
  {
    var A, B := [foo, bar], [foox, baz];
    RenameSides(foo, bar, foox, baz);
    RenameJoin(foo, bar, foox, baz);
    MinusTwo(foox, baz, {foox});
    SingletonValues(foo, foox);
    OutcomeOfJoin(A, B, map[foo := foox], {bar});
  }

  lemma RenameSides(foo: Stock, bar: Stock, foox: Stock, baz: Stock)
    requires foo.iexId == foox.iexId && foo != foox
    requires foo.iexId != bar.iexId && foo.iexId != baz.iexId && bar.iexId != baz.iexId
    ensures OnlyOld([foo, bar], [foox, baz]) == [foo, bar]
    ensures OnlyNew([foo, bar], [foox, baz]) == [foox, baz]
  {
    var A, B := [foo, bar], [foox, baz];
    ElemsTwo(foo, bar);
    ElemsTwo(foox, baz);
    assert foo != baz && bar != foox && bar != baz;
    MinusTwoKept(foo, bar, Elems(B));
    MinusTwoKept(foox, baz, Elems(A));
  }

  lemma RenameJoin(foo: Stock, bar: Stock, foox: Stock, baz: Stock)
    requires foo.iexId == foox.iexId && foo != foox
    requires foo.iexId != bar.iexId && foo.iexId != baz.iexId && bar.iexId != baz.iexId
    ensures Updates([foo, bar], [foox, baz]) == map[foo := foox]
    ensures Ends([foo, bar], [foox, baz]) == {bar}
  {
    var A, B := [foo, bar], [foox, baz];
    ElemsTwo(foox, baz);
    LatestTwo(foo, bar);
    assert bar.iexId != foo.iexId && bar.iexId != baz.iexId;
    RenameUpdates(foo, bar, foox, baz);
  }

  lemma RenameUpdates(foo: Stock, bar: Stock, foox: Stock, baz: Stock)
    requires Latest([foo, bar]) == {foo, bar} && Ids([foox, baz]) == {foox.iexId, baz.iexId}
    requires foo.iexId == foox.iexId && bar.iexId != foox.iexId && bar.iexId != baz.iexId
    requires baz.iexId != foox.iexId
    ensures Updates([foo, bar], [foox, baz]) == map[foo := foox]
  {
    LatestTwo(foox, baz);
    SingleUpdate([foo, bar], [foox, baz], foo, foox);
  }

  /** Two new records `first` and `second` share the identifier of the one old
      record `prev`, all three records being different: the later one becomes the
      new half of the update, and the earlier one is reported as an addition,
      since the engine neither drops nor counts duplicates. */
  lemma DuplicateNewIdScenario(prev: Stock, first: Stock, second: Stock)
    requires prev.iexId == first.iexId == second.iexId
    requires prev != first && prev != second && first != second
    ensures Reconciled([prev], [first, second]) == Outcome(map[prev := second], {}, [first])
  {
    var A, B := [prev], [first, second];
    DuplicateSides(prev, first, second);
    DuplicateJoin(prev, first, second);
    MinusTwo(first, second, {second});
    SingletonValues(prev, second);
    OutcomeOfJoin(A, B, map[prev := second], {});
  }

  /** A stored record `x` is followed by a stored `twin` with its identifier, and
      the fetched list holds `twin` unchanged. `twin` is no difference, so it does
      not shadow `x`: `x` becomes an end although its identifier is still listed. */
  lemma UnchangedTwinScenario(x: Stock, twin: Stock)
    requires x.iexId == twin.iexId && x != twin
    ensures x.iexId in Ids([twin])
    ensures Reconciled([x, twin], [twin]) == Outcome(map[], {x}, [])
  {
    TwinSides(x, twin);
    TwinJoin(x);
  }

  lemma TwinSides(x: Stock, twin: Stock)
    requires x != twin
    ensures OnlyOld([x, twin], [twin]) == [x]
    ensures OnlyNew([x, twin], [twin]) == []
  {
    assert Elems([twin]) == {twin};
    MinusTwo(x, twin, {twin});
    ElemsTwo(x, twin);
    assert [twin][..0] == [];
  }

  lemma TwinJoin(x: Stock)
    ensures Updates([x], []) == map[] && Ends([x], []) == {x}
  {
    LatestOne(x);
  }

  lemma DuplicateSides(prev: Stock, first: Stock, second: Stock)
    requires prev != first && prev != second && first != second
    ensures OnlyOld([prev], [first, second]) == [prev]
    ensures OnlyNew([prev], [first, second]) == [first, second]
  {
    var A, B := [prev], [first, second];
    assert Elems(A) == {prev};
    MinusTwo(first, second, Elems(A));
    assert A[..0] == [];
  }

  lemma DuplicateJoin(prev: Stock, first: Stock, second: Stock)
    requires prev.iexId == first.iexId == second.iexId
    requires prev != first && prev != second && first != second
    ensures Updates([prev], [first, second]) == map[prev := second]
    ensures Ends([prev], [first, second]) == {}
  {
    var A, B := [prev], [first, second];
    ElemsTwo(first, second);
    LatestOne(prev);
    LatestTwo(first, second);
    SingleUpdate(A, B, prev, second);
  }
}
