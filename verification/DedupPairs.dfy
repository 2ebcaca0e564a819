/** A deduplication pass pair by pair: which are counted, and which leave a link. */
module DedupPairs {
  import opened EntityDedup
  import opened Ids
  import opened Wrappers

  // ----- the order of names

  /** The names agree up to place k; there the first ends or has the smaller character. */
  ghost predicate PartAt(a: string, b: string, k: nat) {
    && k <= |a| && k < |b| && a[..k] == b[..k]
    && (k == |a| || a[k] < b[k])
  }

  /** The order is that of the first difference, a prefix coming first. */
  lemma {:induction false} LessIff(a: string, b: string)
    ensures Less(a, b) <==> exists k: nat :: PartAt(a, b, k)
    decreases |a|
  {
    if a != "" && b != "" && a[0] == b[0] {
      LessIff(a[1..], b[1..]);
      if k: nat :| PartAt(a[1..], b[1..], k) {
        assert a[..k + 1] == [a[0]] + a[1..][..k] && b[..k + 1] == [b[0]] + b[1..][..k];
        assert PartAt(a, b, k + 1);
      }
      if k: nat :| PartAt(a, b, k) {
        SameStart(a, b, k);
        assert k > 0;
        assert a[1..][..k - 1] == a[..k][1..] && b[1..][..k - 1] == b[..k][1..];
        assert PartAt(a[1..], b[1..], k - 1);
      }
    } else {
      if Less(a, b) {
        assert PartAt(a, b, 0);
      }
      if k: nat :| PartAt(a, b, k) {
        SameStart(a, b, k);
      }
    }
  }

  lemma SameStart(a: string, b: string, k: nat)
    requires PartAt(a, b, k)
    ensures b != "" && (k > 0 ==> a != "" && a[0] == b[0]) && (k == 0 ==> a == "" || a[0] < b[0])
  {
    assert k > 0 ==> a[..k][0] == b[..k][0];
  }

  /** So different names always have an order. */
  lemma {:induction false} LessTotal(a: string, b: string)
    requires a != b
    ensures Less(a, b) || Less(b, a)
    decreases |a|
  {
    if a != "" && b != "" && a[0] == b[0] {
      assert a == [a[0]] + a[1..] && b == [b[0]] + b[1..];
      LessTotal(a[1..], b[1..]);
    }
  }

  // ----- the counts

  datatype Which = Seen | Agreed | Joined

  function Of(c: Counts, which: Which): nat {
    match which
    case Seen => c.considered
    case Agreed => c.confirmed
    case Joined => c.merged
  }

  /** Close names are considered; confirmed if nobody is asked or the answer is yes; merged only after a yes. */
  ghost predicate Has(judge: Judge, which: Which, a: Id, b: Id) {
    && judge.close(a, b)
    && match which
       case Seen => true
       case Agreed => judge.llmConfirm ==> judge.answer(a, b).Same?
       case Joined => judge.llmConfirm && judge.answer(a, b).Same?
  }

  lemma OnePair(judge: Judge, which: Which, a: Id, b: Id)
    ensures Of(Tally(judge, a, b), which) == if Has(judge, which, a, b) then 1 else 0
  {
  }

  ghost predicate Distinct(g: seq<Id>) { forall i, j :: 0 <= i < j < |g| ==> g[i] != g[j] }

  ghost function RowPairs(judge: Judge, which: Which, g: seq<Id>, i: nat, n: nat): set<(Id, Id)>
    requires i < n <= |g|
  {
    set t | i < t < n && Has(judge, which, g[i], g[t]) :: (g[i], g[t])
  }

  lemma {:induction false} RowCounts(judge: Judge, which: Which, g: seq<Id>, i: nat, n: nat)
    requires i < n <= |g| && Distinct(g)
    ensures |RowPairs(judge, which, g, i, n)| == Of(TallyRow(judge, g, i, n), which)
  {
    if n == i + 1 {
      assert RowPairs(judge, which, g, i, n) == {};
    } else {
      var m := n - 1;
      RowCounts(judge, which, g, i, m);
      OnePair(judge, which, g[i], g[m]);
      LastInRow(judge, which, g, i, m);
    }
  }

  lemma LastInRow(judge: Judge, which: Which, g: seq<Id>, i: nat, m: nat)
    requires i < m < |g| && Distinct(g)
    ensures var before := RowPairs(judge, which, g, i, m);
      && (g[i], g[m]) !in before
      && RowPairs(judge, which, g, i, m + 1)
         == if Has(judge, which, g[i], g[m]) then before + {(g[i], g[m])} else before
  {
  }

  ghost function RowsPairs(judge: Judge, which: Which, g: seq<Id>, n: nat): set<(Id, Id)>
    requires n <= |g|
  {
    set i, t | 0 <= i < n && i < t < |g| && Has(judge, which, g[i], g[t]) :: (g[i], g[t])
  }

  lemma {:induction false} RowsCount(judge: Judge, which: Which, g: seq<Id>, n: nat)
    requires n <= |g| && Distinct(g)
    ensures |RowsPairs(judge, which, g, n)| == Of(TallyRows(judge, g, n), which)
  {
    if n == 0 {
      assert RowsPairs(judge, which, g, n) == {};
    } else {
      var m := n - 1;
      RowsCount(judge, which, g, m);
      RowCounts(judge, which, g, m, |g|);
      LastRow(judge, which, g, m);
      Summed(judge, which, g, n, m);
    }
  }

  lemma Summed(judge: Judge, which: Which, g: seq<Id>, n: nat, m: nat)
    requires m < |g| && n == m + 1
    ensures Of(TallyRows(judge, g, n), which)
         == Of(TallyRows(judge, g, m), which) + Of(TallyRow(judge, g, m, |g|), which)
  {
  }

  lemma LastRow(judge: Judge, which: Which, g: seq<Id>, m: nat)
    requires m < |g| && Distinct(g)
    ensures var before, row := RowsPairs(judge, which, g, m), RowPairs(judge, which, g, m, |g|);
      |RowsPairs(judge, which, g, m + 1)| == |before| + |row|
  {
    var all := RowsPairs(judge, which, g, m + 1);
    var before, row := RowsPairs(judge, which, g, m), RowPairs(judge, which, g, m, |g|);
    forall p ensures p in all <==> p in before || p in row {
      if p in row {
        var t :| m < t < |g| && Has(judge, which, g[m], g[t]) && p == (g[m], g[t]);
        assert p in all;
      }
    }
    assert all == before + row && before !! row;
  }

  /** The pairs of candidates of one of these types, the earlier name first. */
  ghost function PairsOf(db: Entities, judge: Judge, which: Which, cands: seq<Id>, kinds: seq<Kind>): set<(Id, Id)> {
    set a, b | a in cands && b in cands && Earlier(db, a, b) && db[a].kind in kinds && Has(judge, which, a, b) :: (a, b)
  }

  lemma GroupPairs(db: Entities, judge: Judge, which: Which, cands: seq<Id>, kind: Kind, g: seq<Id>)
    requires (forall id :: id in cands ==> id in db) && Group(db, g)
    requires forall id :: id in g <==> id in cands && db[id].kind == kind
    ensures RowsPairs(judge, which, g, |g|) == PairsOf(db, judge, which, cands, [kind])
  {
    var rows, pairs := RowsPairs(judge, which, g, |g|), PairsOf(db, judge, which, cands, [kind]);
    forall p | p in rows ensures p in pairs {
      var i, t :| 0 <= i < |g| && i < t < |g| && Has(judge, which, g[i], g[t]) && p == (g[i], g[t]);
      assert Earlier(db, g[i], g[t]) && g[i] in g && g[t] in g;
    }
    forall p | p in pairs ensures p in rows {
      assert p.0 in g && p.1 in g;
      var i :| 0 <= i < |g| && g[i] == p.0;
      var t :| 0 <= t < |g| && g[t] == p.1;
      PlacesInOrder(db, g, i, t);
    }
  }

  lemma GroupDistinct(db: Entities, g: seq<Id>)
    requires Group(db, g)
    ensures Distinct(g)
  {
    forall i, j | 0 <= i < j < |g| ensures g[i] != g[j] {
      assert Earlier(db, g[i], g[j]);
    }
  }

  lemma {:induction false} KindsCount(db: Entities, judge: Judge, which: Which, cands: seq<Id>, kinds: seq<Kind>)
    requires Candidates(db, cands) && forall i, j :: 0 <= i < j < |kinds| ==> kinds[i] != kinds[j]
    ensures |PairsOf(db, judge, which, cands, kinds)| == Of(TallyKinds(db, cands, judge, kinds), which)
  {
    if kinds == [] {
      assert PairsOf(db, judge, which, cands, kinds) == {};
    } else {
      var n := |kinds| - 1;
      var g := OfKind(db, cands, kinds[n]);
      OfKindInOrder(db, cands, kinds[n]);
      GroupDistinct(db, g);
      KindsCount(db, judge, which, cands, kinds[..n]);
      RowsCount(judge, which, g, |g|);
      GroupPairs(db, judge, which, cands, kinds[n], g);
      LastKind(db, judge, which, cands, kinds, n);
    }
  }

  lemma LastKind(db: Entities, judge: Judge, which: Which, cands: seq<Id>, kinds: seq<Kind>, n: nat)
    requires |kinds| == n + 1 && forall i, j :: 0 <= i < j < |kinds| ==> kinds[i] != kinds[j]
    ensures var before := PairsOf(db, judge, which, cands, kinds[..n]);
      var last := PairsOf(db, judge, which, cands, [kinds[n]]);
      PairsOf(db, judge, which, cands, kinds) == before + last && before !! last
  {
    assert kinds == kinds[..n] + [kinds[n]];
  }

  /** Two candidates of one type, the earlier name first. */
  ghost predicate PairOf(db: Entities, cands: seq<Id>, a: Id, b: Id) {
    a in cands && b in cands && a in db && b in db && db[a].kind == db[b].kind && Less(db[a].name, db[b].name)
  }

  /**
    A pass that is not cut short considers every pair of candidates of one type with close names; of these are
    confirmed all if the judge is not asked, and else those it calls the same; and only in that case they are merged.
   */
  lemma CountsAre(db: Entities, judge: Judge, cands: seq<Id>, kinds: seq<Kind>)
    requires Candidates(db, cands) && forall i, j :: 0 <= i < j < |kinds| ==> kinds[i] != kinds[j]
    requires forall id :: id in cands ==> db[id].kind in kinds
    ensures var c := TallyKinds(db, cands, judge, kinds);
      var close := set a, b | a in cands && b in cands && PairOf(db, cands, a, b) && judge.close(a, b) :: (a, b);
      var same := set p | p in close && judge.answer(p.0, p.1) == Same;
      && c.considered == |close|
      && c.confirmed == (if judge.llmConfirm then |same| else |close|)
      && c.merged == (if judge.llmConfirm then |same| else 0)
  {
    KindsCount(db, judge, Seen, cands, kinds);
    KindsCount(db, judge, Agreed, cands, kinds);
    KindsCount(db, judge, Joined, cands, kinds);
    var close := set a, b | a in cands && b in cands && PairOf(db, cands, a, b) && judge.close(a, b) :: (a, b);
    var same := set p | p in close && judge.answer(p.0, p.1) == Same;
    forall a, b ensures PairOf(db, cands, a, b) <==> a in cands && b in cands && Earlier(db, a, b) {
      if a in db {
        LessIrreflexive(db[a].name);
      }
    }
    assert PairsOf(db, judge, Seen, cands, kinds) == close;
    assert PairsOf(db, judge, Agreed, cands, kinds) == if judge.llmConfirm then same else close;
    assert PairsOf(db, judge, Joined, cands, kinds) == if judge.llmConfirm then same else {};
  }

  /** A judge to whom all names are close. */
  function AllClose(): Judge { Judge((a, b) => true, false, (a, b) => Different) }

  lemma {:induction false} WholeRow(g: seq<Id>, i: nat, n: nat)
    requires i < n <= |g|
    ensures TallyRow(AllClose(), g, i, n).considered == n - i - 1
  {
    if n > i + 1 {
      WholeRow(g, i, n - 1);
    }
  }

  lemma {:induction false} WholeRows(g: seq<Id>, n: nat)
    requires n <= |g|
    ensures 2 * TallyRows(AllClose(), g, n).considered == n * (2 * |g| - n - 1)
  {
    if n > 0 {
      WholeRows(g, n - 1);
      WholeRow(g, n - 1, |g|);
      OneRowMore(n, |g|, TallyRows(AllClose(), g, n - 1).considered);
    }
  }

  lemma OneRowMore(n: nat, m: nat, c: nat)
    requires n > 0 && 2 * c == (n - 1) * (2 * m - (n - 1) - 1)
    ensures 2 * (c + (m - n)) == n * (2 * m - n - 1)
  {
    var x := 2 * m - n - 1;
    assert (n - 1) * (x + 1) == (n - 1) * x + (n - 1);
    assert n * x == (n - 1) * x + x;
  }

  lemma {:induction false} WholeKinds(db: Entities, cands: seq<Id>, kinds: seq<Kind>)
    requires forall id :: id in cands ==> id in db
    ensures TallyKinds(db, cands, AllClose(), kinds).considered == PairsOfKinds(db, cands, kinds)
  {
    if kinds != [] {
      var n := |kinds| - 1;
      WholeKinds(db, cands, kinds[..n]);
      var g := OfKind(db, cands, kinds[n]);
      WholeRows(g, |g|);
      Halved(TallyRows(AllClose(), g, |g|).considered, |g|);
    }
  }

  lemma Halved(c: nat, n: nat)
    requires 2 * c == n * (2 * n - n - 1)
    ensures c == Pairs(n)
  {
    assert n * (2 * n - n - 1) == n * (n - 1);
  }

  /** The number of pairs that bounds the counts is that of the pairs of candidates of one type. */
  lemma PairsCounted(db: Entities, cands: seq<Id>, kinds: seq<Kind>)
    requires Candidates(db, cands) && forall i, j :: 0 <= i < j < |kinds| ==> kinds[i] != kinds[j]
    requires forall id :: id in cands ==> db[id].kind in kinds
    ensures PairsOfKinds(db, cands, kinds)
         == |set a, b | a in cands && b in cands && PairOf(db, cands, a, b) :: (a, b)|
  {
    WholeKinds(db, cands, kinds);
    CountsAre(db, AllClose(), cands, kinds);
    assert (set a, b | a in cands && b in cands && PairOf(db, cands, a, b) :: (a, b))
        == set a, b | a in cands && b in cands && PairOf(db, cands, a, b) && AllClose().close(a, b) :: (a, b);
  }

  // ----- the links

  /** a comes before b in their type, their names are close, and the judge was asked and said they are the same. */
  ghost predicate SaidSame(db: Entities, judge: Judge, cands: seq<Id>, a: Id, b: Id) {
    PairOf(db, cands, a, b) && judge.close(a, b) && judge.llmConfirm && judge.answer(a, b) == Same
  }

  /** After a pass a candidate is linked to the one with the latest name of those it was said to be the same as. */
  lemma LinkIs(db0: Entities, db: Entities, judge: Judge, cands: seq<Id>, kinds: seq<Kind>, id: Id, k: Id)
    requires Passed(db0, db, judge, cands, kinds) && id in cands
    ensures id in db && id in db0 && db[id].name == db0[id].name && db[id].kind == db0[id].kind
        && db[id].mentions == db0[id].mentions
    ensures db[id].canonical == Some(k)
       <==> && SaidSame(db0, judge, cands, k, id)
            && forall other :: SaidSame(db0, judge, cands, other, id) && other != k ==>
                 Less(db0[other].name, db0[k].name)
  {
    LinkAfterPass(db0, db, judge, cands, kinds, id);
    KeptIff(db0, judge, cands, k, id);
  }

  lemma KeptIff(db: Entities, judge: Judge, cands: seq<Id>, k: Id, id: Id)
    requires Candidates(db, cands) && id in cands
    ensures Kept(db, judge, cands, k, id)
       <==> && SaidSame(db, judge, cands, k, id)
            && forall other :: SaidSame(db, judge, cands, other, id) && other != k ==> Less(db[other].name, db[k].name)
  {
    forall a | a in cands ensures SaidSame(db, judge, cands, a, id) <==> Earlier(db, a, id) && judge.Confirms(a, id) {
      LessIrreflexive(db[a].name);
    }
    if k in cands && db[k].kind == db[id].kind {
      forall other | other in cands && other != k && db[other].kind == db[k].kind
        ensures Less(db[other].name, db[k].name) <==> !Earlier(db, k, other)
      {
        OneWay(db, cands, k, other);
      }
    }
  }

  /** Of two candidates of a type one comes first. */
  lemma OneWay(db: Entities, cands: seq<Id>, a: Id, b: Id)
    requires Candidates(db, cands) && a in cands && b in cands && a != b && db[a].kind == db[b].kind
    ensures Less(db[b].name, db[a].name) <==> !Earlier(db, a, b)
  {
    var i :| 0 <= i < |cands| && cands[i] == a;
    var j :| 0 <= j < |cands| && cands[j] == b;
    LessAsymmetric(db[a].name, db[b].name);
    if i < j {
      assert InOrder(db, cands[i], cands[j]);
    } else {
      assert InOrder(db, cands[j], cands[i]);
    }
  }
}
