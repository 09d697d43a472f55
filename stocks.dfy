/** The security record of the upstream feed and the identity join that both
    revisions of the reconciliation engine perform on it. */
module Stocks {
  import opened Seqs

  /** One security of the reference-data universe. All ten fields take part in
      equality, so two records are the same value only if every field matches. */
  datatype Stock = Stock(
    symbol: string,
    name: string,
    date: string,
    stockType: string,
    iexId: string,
    region: string,
    currency: string,
    isActive: bool,
    figi: string,
    cik: string)

  /** The identifiers carried by the records of a list. */
  function Ids(s: seq<Stock>): (ids: set<string>)
    ensures forall x :: x in s ==> x.iexId in ids
  {
    set x | x in s :: x.iexId
  }

  /** No identifier occurs in two positions of the list. */
  predicate UniqueIds(s: seq<Stock>) {
    forall i, j :: 0 <= i < j < |s| ==> s[i].iexId != s[j].iexId
  }

  /** The index from identifier to position that a loop `m[s.IexID] = i` over the
      list builds: every identifier of the list maps to the position of its LAST
      record, so a duplicate identifier collapses onto its last occurrence. */
  function Index(s: seq<Stock>): (m: map<string, int>)
    ensures m.Keys == Ids(s)
    ensures forall k :: k in m ==> 0 <= m[k] < |s| && s[m[k]].iexId == k
  {
    if s == [] then map[]
    else
      var init := s[..|s| - 1];
      assert s == init + [s[|s| - 1]];
      Index(init)[s[|s| - 1].iexId := |s| - 1]
  }

  /** Indexing one more record points its identifier at its position. */
  lemma IndexSnoc(s: seq<Stock>, i: int)
    requires 0 <= i < |s|
    ensures Index(s[..i + 1]) == Index(s[..i])[s[i].iexId := i]
  {
    assert s[..i + 1][..i] == s[..i];
  }

  /** No record after the indexed position carries the identifier: the index keeps
      the last occurrence. */
  lemma {:induction false} IndexIsLast(s: seq<Stock>, k: string, j: int)
    requires k in Index(s) && Index(s)[k] < j < |s|
    ensures s[j].iexId != k
  {
    var init := s[..|s| - 1];
    assert Index(s) == Index(init)[s[|s| - 1].iexId := |s| - 1];
    if k != s[|s| - 1].iexId && j < |s| - 1 {
      assert init[j] == s[j];
      IndexIsLast(init, k, j);
    }
  }

  /** The record that the index keeps for an identifier: its last occurrence. */
  function LastOf(s: seq<Stock>, id: string): (x: Stock)
    requires id in Ids(s)
    ensures x in s && x.iexId == id
  {
    s[Index(s)[id]]
  }

  /** The record the index keeps for an identifier survives. */
  lemma LastSurvives(s: seq<Stock>, id: string)
    requires id in Ids(s)
    ensures LastOf(s, id) in Latest(s)
  {
  }

  /** The records that survive indexing: one per identifier, the last one. */
  function Latest(s: seq<Stock>): set<Stock> {
    set x | x in s && x == LastOf(s, x.iexId)
  }

  /** Phase 2 of the engine: every identifier that occurs on both sides pairs the
      old side's surviving record with the new side's surviving record. */
  function Updates(a: seq<Stock>, b: seq<Stock>): map<Stock, Stock> {
    map x | x in Latest(a) && x.iexId in Ids(b) :: LastOf(b, x.iexId)
  }

  /** The surviving old records whose identifier does not occur on the new side. */
  function Ends(a: seq<Stock>, b: seq<Stock>): set<Stock> {
    set x | x in Latest(a) && x.iexId !in Ids(b)
  }

  /** The index is injective: different identifiers keep different positions. */
  lemma IndexInjective(s: seq<Stock>)
    ensures Injective(Index(s))
  {
  }

  /** A record survives indexing exactly when it sits at a position that no later
      record with its identifier follows. */
  lemma LatestIsLast(s: seq<Stock>, x: Stock)
    ensures x in Latest(s) <==>
      exists p :: 0 <= p < |s| && s[p] == x && forall j :: p < j < |s| ==> s[j].iexId != x.iexId
  {
    if x in Latest(s) {
      var p := Index(s)[x.iexId];
      forall j | p < j < |s|
        ensures s[j].iexId != x.iexId
      {
        IndexIsLast(s, x.iexId, j);
      }
      assert s[p] == x;
    }
    if exists p :: 0 <= p < |s| && s[p] == x && forall j :: p < j < |s| ==> s[j].iexId != x.iexId {
      var p :| 0 <= p < |s| && s[p] == x && forall j :: p < j < |s| ==> s[j].iexId != x.iexId;
      assert x.iexId in Ids(s);
      var q := Index(s)[x.iexId];
      if q < p {
        IndexIsLast(s, x.iexId, p);
      }
      assert q == p;
    }
  }

  /** Surviving records are told apart by their identifiers alone. */
  lemma LatestById(s: seq<Stock>, x: Stock, y: Stock)
    requires x in Latest(s) && y in Latest(s) && x.iexId == y.iexId
    ensures x == y
  {
  }

  /** With unique identifiers every record survives indexing. */
  lemma {:induction false} LatestUnique(s: seq<Stock>)
    requires UniqueIds(s)
    ensures Latest(s) == Elems(s)
  {
    forall x | x in s
      ensures x in Latest(s)
    {
      var i :| 0 <= i < |s| && s[i] == x;
      assert x.iexId in Ids(s);
      var j := Index(s)[x.iexId];
      assert i == j;
    }
  }

  /** Every identifier has one surviving record, so there are as many survivors
      as identifiers. */
  lemma LatestCard(s: seq<Stock>)
    ensures |Latest(s)| == |Ids(s)|
  {
    var pick := map id | id in Ids(s) :: LastOf(s, id);
    assert Injective(pick);
    ImageCard(pick, Ids(s));
    assert Image(pick, Ids(s)) == Latest(s);
  }

  /** A list carries at most as many identifiers as records. */
  lemma {:induction false} IdsCard(s: seq<Stock>)
    ensures |Ids(s)| <= |s|
  {
    if s != [] {
      var init := s[..|s| - 1];
      IdsCard(init);
      assert s == init + [s[|s| - 1]];
      assert Ids(s) == Ids(init) + {s[|s| - 1].iexId};
    }
  }

  /** With unique identifiers there are exactly as many identifiers as records. */
  lemma {:induction false} UniqueIdsCard(s: seq<Stock>)
    requires UniqueIds(s)
    ensures |Ids(s)| == |s|
  {
    if s != [] {
      var init := s[..|s| - 1];
      UniqueIdsCard(init);
      assert s == init + [s[|s| - 1]];
      assert Ids(s) == Ids(init) + {s[|s| - 1].iexId};
      assert s[|s| - 1].iexId !in Ids(init);
    }
  }

  /** Filtering a list keeps its identifiers unique. */
  lemma {:induction false} UniqueIdsMinus(s: seq<Stock>, drop: set<Stock>)
    requires UniqueIds(s)
    ensures UniqueIds(Minus(s, drop))
  {
    if s != [] {
      var init := s[..|s| - 1];
      var last := s[|s| - 1];
      assert UniqueIds(init);
      UniqueIdsMinus(init, drop);
      assert last.iexId !in Ids(init);
      if last !in drop {
        assert last.iexId !in Ids(Minus(init, drop));
      }
    }
  }

  /** Records with unique identifiers are distinct records. */
  lemma UniqueIdsDistinct(s: seq<Stock>)
    requires UniqueIds(s)
    ensures Distinct(s)
  {
  }

  /** The survivors whose identifiers lie in `ids`. */
  function SurvivorsWith(s: seq<Stock>, ids: set<string>): set<Stock> {
    set x | x in Latest(s) && x.iexId in ids
  }

  /** The ends are the old side's survivors whose identifier the new side lacks. */
  lemma EndsAreSurvivors(a: seq<Stock>, b: seq<Stock>)
    ensures Ends(a, b) == SurvivorsWith(a, Ids(a) - Ids(b))
  {
  }

  /** There is one survivor per identifier. */
  lemma SurvivorsCard(s: seq<Stock>, ids: set<string>)
    requires ids <= Ids(s)
    ensures |SurvivorsWith(s, ids)| == |ids|
  {
    var pick := map id | id in Ids(s) :: LastOf(s, id);
    assert Injective(pick);
    ImageCard(pick, ids);
    assert Image(pick, ids) == SurvivorsWith(s, ids);
  }

  /** The updates pair the old side's survivors of the shared identifiers with
      the new side's survivors of the same identifiers. */
  lemma UpdatesSides(a: seq<Stock>, b: seq<Stock>)
    ensures Updates(a, b).Keys == SurvivorsWith(a, Ids(a) * Ids(b))
    ensures Updates(a, b).Values == SurvivorsWith(b, Ids(a) * Ids(b))
  {
    var u := Updates(a, b);
    forall y | y in SurvivorsWith(b, Ids(a) * Ids(b))
      ensures y in u.Values
    {
      var x := LastOf(a, y.iexId);
      assert x in u;
    }
  }
}
