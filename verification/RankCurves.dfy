/** What the rank curves mean: farther is worse, a stronger relation is better, and by how much. */
module RankCurves {
  import opened GraphProximity

  // ----- the strength of a hop

  /** The weight of a hop, with its bonus under the type-weighted curve. */
  function Strength(curve: Curve, table: Table, relationType: string): real {
    WeightFor(table, relationType) * (if curve == TypeWeighted then Bonus(table, relationType) else 1.0)
  }

  predicate Opposing(relationType: string) {
    relationType == "contradicts" || relationType == "supersedes" || relationType == "alternative_to"
  }

  predicate Structural(relationType: string) {
    || relationType == "implements" || relationType == "contains" || relationType == "depends_on"
    || relationType == "derived_from"
  }

  predicate Loose(relationType: string) {
    relationType == "mentions" || relationType == "references" || relationType == "relates_to"
  }

  lemma WeightsAre(relationType: string)
    ensures WeightFor(RelationsTable, relationType)
         == if Opposing(relationType) then 1.1 else if Structural(relationType) then 1.0 else 0.7
  {
  }

  lemma BonusesAre(relationType: string)
    ensures Bonus(RelationsTable, relationType)
         == if Opposing(relationType) then 1.4 else if Structural(relationType) then 1.0
            else if Loose(relationType) then 0.6 else 0.8
  {
  }

  /** Edges that users draw are the strongest, then opposing relations, then structural ones, then all others. */
  lemma StrengthsAre(curve: Curve, relationType: string)
    ensures Strength(curve, EdgesTable, relationType) == if curve == TypeWeighted then 1.8 else 1.2
    ensures Strength(curve, RelationsTable, relationType)
         == if Opposing(relationType) then (if curve == TypeWeighted then 1.54 else 1.1)
            else if Structural(relationType) then 1.0
            else if curve != TypeWeighted then 0.7 else if Loose(relationType) then 0.42 else 0.56
  {
    WeightsAre(relationType);
    BonusesAre(relationType);
  }

  lemma StrongEnough(curve: Curve, table: Table, relationType: string)
    ensures table != SeedTable ==> Strength(curve, table, relationType) > 0.4
  {
    if table != SeedTable {
      StrengthsAre(curve, relationType);
    }
  }

  // ----- the rank

  /** How far a distance counts: each step as one, or under the harmonic curve the n-th as 1/n. */
  ghost function Length(curve: Curve, d: nat): real {
    if curve == Harmonic then HarmonicNumber(d) else d as real
  }

  lemma LengthsAre(curve: Curve, d: nat)
    ensures Length(curve, 0) == 0.0 && Length(curve, 1) == 1.0
    ensures curve == Harmonic ==> Length(curve, 2) == 1.5
    ensures (d + 1) as real * (Length(curve, d + 1) - Length(curve, d))
         == if curve == Harmonic then 1.0 else (d + 1) as real
    ensures Length(curve, d) < Length(curve, d + 1)
  {
    assert HarmonicNumber(2) == HarmonicNumber(1) + 1.0 / 2.0 && HarmonicNumber(1) == HarmonicNumber(0) + 1.0 / 1.0;
    Reciprocal((d + 1) as real);
  }

  lemma Reciprocal(x: real)
    requires x > 0.0
    ensures x * (1.0 / x) == 1.0 && 1.0 / x > 0.0
  {
  }

  /** The rank of a hop is one and the length, divided by its strength. */
  lemma RankIs(curve: Curve, d: nat, table: Table, relationType: string)
    requires table != SeedTable
    ensures (HopRank(curve, d, table, relationType) - 1.0) * Strength(curve, table, relationType) == Length(curve, d)
  {
    var s := Strength(curve, table, relationType);
    StrongEnough(curve, table, relationType);
    Reciprocal(s);
    if d > 0 {
      assert MaxReal(s, EPS) == s;
      assert HopRank(curve, d, table, relationType) - 1.0 == Length(curve, d) * (1.0 / s);
      Regroup(Length(curve, d), 1.0 / s, s);
    }
  }

  lemma Regroup(x: real, y: real, z: real)
    requires z * y == 1.0
    ensures x * y * z == x
  {
    assert x * y * z == x * (z * y);
  }

  /** With the same strength, the farther memory ranks behind. */
  lemma FartherIsWorse(curve: Curve, d: nat, e: nat, table: Table, relationType: string)
    requires table != SeedTable
    ensures HopRank(curve, d, table, relationType) < HopRank(curve, e, table, relationType) <==> d < e
  {
    var s := Strength(curve, table, relationType);
    StrongEnough(curve, table, relationType);
    RankIs(curve, d, table, relationType);
    RankIs(curve, e, table, relationType);
    LengthRises(curve, d, e);
    LengthRises(curve, e, d);
    SameFactor(HopRank(curve, d, table, relationType) - 1.0, HopRank(curve, e, table, relationType) - 1.0, s);
  }

  lemma {:induction false} LengthRises(curve: Curve, d: nat, e: nat)
    ensures d < e ==> Length(curve, d) < Length(curve, e)
    decreases e
  {
    if d < e {
      LengthsAre(curve, e - 1);
      LengthRises(curve, d, e - 1);
    }
  }

  lemma SameFactor(x: real, y: real, s: real)
    requires s > 0.0
    ensures x < y <==> x * s < y * s
  {
    assert y * s - x * s == (y - x) * s;
  }

  /** At one distance the stronger hop ranks in front. */
  lemma StrongerIsBetter(curve: Curve, d: nat, table: Table, relationType: string, table': Table, relationType': string)
    requires d > 0 && table != SeedTable && table' != SeedTable
    ensures HopRank(curve, d, table, relationType) < HopRank(curve, d, table', relationType')
       <==> Strength(curve, table, relationType) > Strength(curve, table', relationType')
  {
    var l := Length(curve, d);
    var x, v := Product(curve, d, table, relationType, l);
    var y, w := Product(curve, d, table', relationType', l);
    LengthRises(curve, 0, d);
    LengthsAre(curve, 0);
    SameProduct(x, v, y, w, l);
  }

  lemma Product(curve: Curve, d: nat, table: Table, relationType: string, l: real) returns (x: real, s: real)
    requires table != SeedTable && l == Length(curve, d)
    ensures x == HopRank(curve, d, table, relationType) - 1.0 && s == Strength(curve, table, relationType)
    ensures s > 0.0 && x * s == l
  {
    StrongEnough(curve, table, relationType);
    RankIs(curve, d, table, relationType);
    x, s := HopRank(curve, d, table, relationType) - 1.0, Strength(curve, table, relationType);
  }

  lemma SameProduct(x: real, s: real, y: real, t: real, p: real)
    requires s > 0.0 && t > 0.0 && p > 0.0 && x * s == p == y * t
    ensures x < y <==> s > t
  {
    assert x > 0.0 by {
      NotPositive(x, s);
    }
    assert y > 0.0 by {
      NotPositive(y, t);
    }
    SameFactor(x, y, t);
    SameFactor(t, s, x);
  }

  lemma NotPositive(x: real, s: real)
    requires s > 0.0
    ensures x <= 0.0 ==> x * s <= 0.0
  {
  }

  /** At every distance and under every curve: a manual edge, then `contradicts`, then `depends_on`, then `mentions`. */
  lemma TypesInOrder(curve: Curve, d: nat, relationType: string)
    requires d > 0
    ensures HopRank(curve, d, EdgesTable, relationType) < HopRank(curve, d, RelationsTable, "contradicts")
          < HopRank(curve, d, RelationsTable, "depends_on") < HopRank(curve, d, RelationsTable, "mentions")
  {
    StrengthsAre(curve, relationType);
    StrengthsAre(curve, "contradicts");
    StrengthsAre(curve, "depends_on");
    StrengthsAre(curve, "mentions");
    StrongerIsBetter(curve, d, EdgesTable, relationType, RelationsTable, "contradicts");
    StrongerIsBetter(curve, d, RelationsTable, "contradicts", RelationsTable, "depends_on");
    StrongerIsBetter(curve, d, RelationsTable, "depends_on", RelationsTable, "mentions");
  }
}
