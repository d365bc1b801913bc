/**
 * The per-orbital symmetry plans of lattice::plan_product and
 * lattice::plan_inverse: a table indexed [orbital][site] whose entry is the
 * (site, orbital) slot that slot is sent to.
 */
module PlanAlgebra {
  import opened Lattice

  /** A slot of the table: `.site` is the pair's first, `.orb` its second. */
  datatype Dest = Dest(site: nat, orb: nat)

  type Plan = seq<seq<Dest>>

  /** `nOrb` rows of `nSites` entries each. */
  predicate Shaped(p: Plan, nOrb: nat, nSites: nat)
  {
    |p| == nOrb && forall o :: 0 <= o < nOrb ==> |p[o]| == nSites
  }

  predicate InBounds(d: Dest, nOrb: nat, nSites: nat)
  {
    d.site < nSites && d.orb < nOrb
  }

  /** Shaped, and every entry names a slot of the table. */
  predicate Targets(p: Plan, nOrb: nat, nSites: nat)
  {
    && Shaped(p, nOrb, nSites)
    && forall o, s :: 0 <= o < nOrb && 0 <= s < nSites ==> InBounds(p[o][s], nOrb, nSites)
  }

  /** Where the plan sends slot `d`. */
  function Apply(p: Plan, d: Dest): Dest
    requires d.orb < |p| && d.site < |p[d.orb]|
  {
    p[d.orb][d.site]
  }

  /** The plan that leaves every slot where it is. */
  function Identity(nOrb: nat, nSites: nat): (id: Plan)
    ensures Targets(id, nOrb, nSites)
  {
    seq(nOrb, o requires 0 <= o < nOrb => seq(nSites, s requires 0 <= s < nSites => Dest(s, o)))
  }

  /** lhs after rhs: the slot rhs sends (o, s) to, sent on by lhs. */
  function Compose(lhs: Plan, rhs: Plan, nOrb: nat, nSites: nat): (r: Plan)
    requires Shaped(lhs, nOrb, nSites) && Targets(rhs, nOrb, nSites)
    ensures Shaped(r, nOrb, nSites)
    ensures Targets(lhs, nOrb, nSites) ==> Targets(r, nOrb, nSites)
  {
    seq(nOrb, o requires 0 <= o < nOrb =>
      seq(nSites, s requires 0 <= s < nSites => Apply(lhs, rhs[o][s])))
  }

  predicate Injective(p: Plan, nOrb: nat, nSites: nat)
    requires Shaped(p, nOrb, nSites)
  {
    forall o1, s1, o2, s2 ::
      (0 <= o1 < nOrb && 0 <= s1 < nSites && 0 <= o2 < nOrb && 0 <= s2 < nSites &&
       p[o1][s1] == p[o2][s2]) ==> o1 == o2 && s1 == s2
  }

  /** Some slot of the table is sent to `d`. */
  predicate Reached(p: Plan, d: Dest, nOrb: nat, nSites: nat)
    requires Shaped(p, nOrb, nSites)
  {
    exists o1, s1 :: 0 <= o1 < nOrb && 0 <= s1 < nSites && p[o1][s1] == d
  }

  predicate Surjective(p: Plan, nOrb: nat, nSites: nat)
    requires Shaped(p, nOrb, nSites)
  {
    forall o, s :: 0 <= o < nOrb && 0 <= s < nSites ==> Reached(p, Dest(s, o), nOrb, nSites)
  }

  /** A permutation of the slots. */
  predicate Bijective(p: Plan, nOrb: nat, nSites: nat)
  {
    Targets(p, nOrb, nSites) && Injective(p, nOrb, nSites) && Surjective(p, nOrb, nSites)
  }

  /** `q` undoes `p` and `p` undoes `q`. */
  predicate IsInverse(p: Plan, q: Plan, nOrb: nat, nSites: nat)
  {
    && Targets(p, nOrb, nSites) && Targets(q, nOrb, nSites)
    && Compose(p, q, nOrb, nSites) == Identity(nOrb, nSites)
    && Compose(q, p, nOrb, nSites) == Identity(nOrb, nSites)
  }

  /** `d` is a slot that `p` sends to slot (site1, orb1). */
  predicate Preimage(p: Plan, d: Dest, site1: nat, orb1: nat)
  {
    d.orb < |p| && d.site < |p[d.orb]| && p[d.orb][d.site] == Dest(site1, orb1)
  }

  /** Slot `res[o1][s1]` is either the zero pair or a slot `p` sends to (s1, o1). */
  predicate ZeroOrPreimage(p: Plan, res: Plan, nOrb: nat, nSites: nat)
    requires Shaped(res, nOrb, nSites)
  {
    forall o1, s1 :: 0 <= o1 < nOrb && 0 <= s1 < nSites ==>
      res[o1][s1] == Dest(0, 0) || Preimage(p, res[o1][s1], s1, o1)
  }

  /** The entry of `res` at the image of (o, s) is some slot with that same image. */
  predicate FoundBack(p: Plan, res: Plan, o: nat, s: nat)
    requires o < |p| && s < |p[o]|
  {
    var d := p[o][s];
    d.orb < |res| && d.site < |res[d.orb]| && Preimage(p, res[d.orb][d.site], d.site, d.orb)
  }

  // ------------------------------------------------------------------
  // The two operations.
  // ------------------------------------------------------------------

  /** lattice::plan_product: rhs is applied first, then lhs. */
  method PlanProduct(lat: Lattice, lhs: Plan, rhs: Plan) returns (res: Plan)
    requires |lhs| == |rhs| >= 1
    requires |lhs[0]| == |rhs[0]| == lat.nSites
    requires Shaped(lhs, |lhs|, lat.nSites) && Targets(rhs, |rhs|, lat.nSites)
    ensures res == Compose(lhs, rhs, |lhs|, lat.nSites)
    ensures forall o, s :: 0 <= o < |res| && 0 <= s < lat.nSites ==>
      res[o][s] == lhs[rhs[o][s].orb][rhs[o][s].site]
  {
    var orbTot := |lhs|;
    var siteTot := |lhs[0]|;
    res := seq(orbTot, _ => seq(siteTot, _ => Dest(0, 0)));
    for orb0 := 0 to orbTot
      invariant Shaped(res, orbTot, siteTot)
      invariant forall o, s :: 0 <= o < orb0 && 0 <= s < siteTot ==>
        res[o][s] == Apply(lhs, rhs[o][s])
    {
      for site0 := 0 to siteTot
        invariant Shaped(res, orbTot, siteTot)
        invariant forall o, s :: 0 <= o < orb0 && 0 <= s < siteTot ==>
          res[o][s] == Apply(lhs, rhs[o][s])
        invariant forall s :: 0 <= s < site0 ==> res[orb0][s] == Apply(lhs, rhs[orb0][s])
      {
        var site1 := rhs[orb0][site0].site;
        var orb1 := rhs[orb0][site0].orb;
        res := res[orb0 := res[orb0][site0 := lhs[orb1][site1]]];
      }
    }
    assert forall o :: 0 <= o < orbTot ==> res[o] == Compose(lhs, rhs, orbTot, siteTot)[o];
  }

  /**
   * lattice::plan_inverse: every slot's source is written at its image. Slots
   * nothing is sent to keep the zero pair; a slot several entries are sent to
   * keeps one of them. For a bijective plan the result is its inverse.
   */
  method PlanInverse(lat: Lattice, plan: Plan) returns (res: Plan)
    requires |plan| >= 1 && |plan[0]| == lat.nSites
    requires Targets(plan, |plan|, lat.nSites)
    ensures Shaped(res, |plan|, lat.nSites)
    ensures ZeroOrPreimage(plan, res, |plan|, lat.nSites)
    ensures forall o, s :: 0 <= o < |plan| && 0 <= s < lat.nSites ==> FoundBack(plan, res, o, s)
    ensures Injective(plan, |plan|, lat.nSites) ==>
      forall o, s :: 0 <= o < |plan| && 0 <= s < lat.nSites ==>
        res[plan[o][s].orb][plan[o][s].site] == Dest(s, o)
    ensures Bijective(plan, |plan|, lat.nSites) ==> IsInverse(plan, res, |plan|, lat.nSites)
  {
    var orbTot := |plan|;
    var siteTot := |plan[0]|;
    res := seq(orbTot, _ => seq(siteTot, _ => Dest(0, 0)));
    for orb0 := 0 to orbTot
      invariant Shaped(res, orbTot, siteTot)
      invariant ZeroOrPreimage(plan, res, orbTot, siteTot)
      invariant forall o, s :: 0 <= o < orb0 && 0 <= s < siteTot ==> FoundBack(plan, res, o, s)
    {
      for site0 := 0 to siteTot
        invariant Shaped(res, orbTot, siteTot)
        invariant ZeroOrPreimage(plan, res, orbTot, siteTot)
        invariant forall o, s :: 0 <= o < orb0 && 0 <= s < siteTot ==> FoundBack(plan, res, o, s)
        invariant forall s :: 0 <= s < site0 ==> FoundBack(plan, res, orb0, s)
      {
        var site1 := plan[orb0][site0].site;
        var orb1 := plan[orb0][site0].orb;
        ScatterStep(plan, res, orbTot, siteTot, orb0, site0);
        res := res[orb1 := res[orb1][site1 := Dest(site0, orb0)]];
      }
    }
    if Injective(plan, orbTot, siteTot) {
      FoundBackInjective(plan, res, orbTot, siteTot);
    }
    if Bijective(plan, orbTot, siteTot) {
      InverseOfBijective(plan, res, orbTot, siteTot);
    }
  }

  // ------------------------------------------------------------------
  // Lemmas.
  // ------------------------------------------------------------------

  /** Writing the source (site0, orb0) at its image keeps what was found so far. */
  lemma ScatterStep(p: Plan, res: Plan, nOrb: nat, nSites: nat, orb0: nat, site0: nat)
    requires Targets(p, nOrb, nSites) && Shaped(res, nOrb, nSites)
    requires orb0 < nOrb && site0 < nSites
    ensures var d := p[orb0][site0];
      var res' := res[d.orb := res[d.orb][d.site := Dest(site0, orb0)]];
      && Shaped(res', nOrb, nSites)
      && FoundBack(p, res', orb0, site0)
      && (forall o, s :: 0 <= o < nOrb && 0 <= s < nSites && FoundBack(p, res, o, s) ==>
            FoundBack(p, res', o, s))
  {
  }

  /** For an injective plan the slot found back is the source itself. */
  lemma FoundBackInjective(p: Plan, res: Plan, nOrb: nat, nSites: nat)
    requires Targets(p, nOrb, nSites) && Shaped(res, nOrb, nSites) && Injective(p, nOrb, nSites)
    requires forall o, s :: 0 <= o < nOrb && 0 <= s < nSites ==> FoundBack(p, res, o, s)
    ensures forall o, s :: 0 <= o < nOrb && 0 <= s < nSites ==>
      res[p[o][s].orb][p[o][s].site] == Dest(s, o)
  {
    forall o, s | 0 <= o < nOrb && 0 <= s < nSites
      ensures res[p[o][s].orb][p[o][s].site] == Dest(s, o)
    {
      assert FoundBack(p, res, o, s);
      var d := res[p[o][s].orb][p[o][s].site];
      assert p[d.orb][d.site] == p[o][s];
    }
  }

  /** What plan_inverse leaves for a bijective plan undoes it on both sides. */
  lemma InverseOfBijective(p: Plan, res: Plan, nOrb: nat, nSites: nat)
    requires Bijective(p, nOrb, nSites) && Shaped(res, nOrb, nSites)
    requires forall o, s :: 0 <= o < nOrb && 0 <= s < nSites ==> FoundBack(p, res, o, s)
    ensures IsInverse(p, res, nOrb, nSites)
  {
    EverySlotInverted(p, res, nOrb, nSites);
    assert Targets(res, nOrb, nSites);
    var id := Identity(nOrb, nSites);
    var pr, rp := Compose(p, res, nOrb, nSites), Compose(res, p, nOrb, nSites);
    forall o | 0 <= o < nOrb
      ensures pr[o] == id[o] && rp[o] == id[o]
    {
      forall s | 0 <= s < nSites
        ensures pr[o][s] == id[o][s] && rp[o][s] == id[o][s]
      {
        assert Preimage(p, res[o][s], s, o);
      }
    }
  }

  /** For a bijective plan, every slot of what plan_inverse leaves is a source of that slot. */
  lemma EverySlotInverted(p: Plan, res: Plan, nOrb: nat, nSites: nat)
    requires Bijective(p, nOrb, nSites) && Shaped(res, nOrb, nSites)
    requires forall o, s :: 0 <= o < nOrb && 0 <= s < nSites ==> FoundBack(p, res, o, s)
    ensures forall o1, s1 :: 0 <= o1 < nOrb && 0 <= s1 < nSites ==> Preimage(p, res[o1][s1], s1, o1)
  {
    FoundBackInjective(p, res, nOrb, nSites);
    forall o1, s1 | 0 <= o1 < nOrb && 0 <= s1 < nSites
      ensures Preimage(p, res[o1][s1], s1, o1)
    {
      assert Reached(p, Dest(s1, o1), nOrb, nSites);
      var o, s :| 0 <= o < nOrb && 0 <= s < nSites && p[o][s] == Dest(s1, o1);
      assert res[o1][s1] == Dest(s, o);
    }
  }

  lemma {:induction false} ComposeIdentity(p: Plan, nOrb: nat, nSites: nat)
    requires Targets(p, nOrb, nSites)
    ensures Compose(p, Identity(nOrb, nSites), nOrb, nSites) == p
    ensures Compose(Identity(nOrb, nSites), p, nOrb, nSites) == p
  {
    var id := Identity(nOrb, nSites);
    var l, r := Compose(id, p, nOrb, nSites), Compose(p, id, nOrb, nSites);
    forall o | 0 <= o < nOrb
      ensures l[o] == p[o] && r[o] == p[o]
    {
    }
  }

  lemma {:induction false} ComposeAssoc(a: Plan, b: Plan, c: Plan, nOrb: nat, nSites: nat)
    requires Targets(a, nOrb, nSites) && Targets(b, nOrb, nSites) && Targets(c, nOrb, nSites)
    ensures Compose(a, Compose(b, c, nOrb, nSites), nOrb, nSites) ==
            Compose(Compose(a, b, nOrb, nSites), c, nOrb, nSites)
  {
    var l := Compose(a, Compose(b, c, nOrb, nSites), nOrb, nSites);
    var r := Compose(Compose(a, b, nOrb, nSites), c, nOrb, nSites);
    forall o | 0 <= o < nOrb
      ensures l[o] == r[o]
    {
    }
  }

  /** A plan has at most one inverse. */
  lemma InverseUnique(p: Plan, q1: Plan, q2: Plan, nOrb: nat, nSites: nat)
    requires IsInverse(p, q1, nOrb, nSites) && IsInverse(p, q2, nOrb, nSites)
    ensures q1 == q2
  {
    calc {
      q1;
      { ComposeIdentity(q1, nOrb, nSites); }
      Compose(q1, Identity(nOrb, nSites), nOrb, nSites);
      Compose(q1, Compose(p, q2, nOrb, nSites), nOrb, nSites);
      { ComposeAssoc(q1, p, q2, nOrb, nSites); }
      Compose(Compose(q1, p, nOrb, nSites), q2, nOrb, nSites);
      Compose(Identity(nOrb, nSites), q2, nOrb, nSites);
      { ComposeIdentity(q2, nOrb, nSites); }
      q2;
    }
  }

  /** A plan with an inverse is a bijection, and so is its inverse. */
  lemma InverseBijective(p: Plan, q: Plan, nOrb: nat, nSites: nat)
    requires IsInverse(p, q, nOrb, nSites)
    ensures Bijective(p, nOrb, nSites) && Bijective(q, nOrb, nSites)
  {
    var id := Identity(nOrb, nSites);
    assert forall o, s :: 0 <= o < nOrb && 0 <= s < nSites ==>
      Compose(p, q, nOrb, nSites)[o][s] == id[o][s] && Compose(q, p, nOrb, nSites)[o][s] == id[o][s];
    forall o, s | 0 <= o < nOrb && 0 <= s < nSites
      ensures Reached(p, Dest(s, o), nOrb, nSites) && Reached(q, Dest(s, o), nOrb, nSites)
    {
      assert Compose(p, q, nOrb, nSites)[o][s] == id[o][s];
      assert Compose(q, p, nOrb, nSites)[o][s] == id[o][s];
      var dq, dp := q[o][s], p[o][s];
      assert p[dq.orb][dq.site] == Dest(s, o);
      assert q[dp.orb][dp.site] == Dest(s, o);
    }
    forall o1, s1, o2, s2 |
      0 <= o1 < nOrb && 0 <= s1 < nSites && 0 <= o2 < nOrb && 0 <= s2 < nSites && p[o1][s1] == p[o2][s2]
      ensures o1 == o2 && s1 == s2
    {
      assert Compose(q, p, nOrb, nSites)[o1][s1] == id[o1][s1];
      assert Compose(q, p, nOrb, nSites)[o2][s2] == id[o2][s2];
    }
    forall o1, s1, o2, s2 |
      0 <= o1 < nOrb && 0 <= s1 < nSites && 0 <= o2 < nOrb && 0 <= s2 < nSites && q[o1][s1] == q[o2][s2]
      ensures o1 == o2 && s1 == s2
    {
      assert Compose(p, q, nOrb, nSites)[o1][s1] == id[o1][s1];
      assert Compose(p, q, nOrb, nSites)[o2][s2] == id[o2][s2];
    }
  }

  /** Inverting the inverse of a bijective plan gives the plan back. */
  lemma InverseInvolution(p: Plan, q: Plan, r: Plan, nOrb: nat, nSites: nat)
    requires IsInverse(p, q, nOrb, nSites) && IsInverse(q, r, nOrb, nSites)
    ensures r == p
  {
    assert IsInverse(q, p, nOrb, nSites);
    InverseUnique(q, r, p, nOrb, nSites);
  }

  /** Bijective plans are closed under composition. */
  lemma ComposeBijective(a: Plan, b: Plan, nOrb: nat, nSites: nat)
    requires Bijective(a, nOrb, nSites) && Bijective(b, nOrb, nSites)
    ensures Bijective(Compose(a, b, nOrb, nSites), nOrb, nSites)
  {
    var c := Compose(a, b, nOrb, nSites);
    forall o, s | 0 <= o < nOrb && 0 <= s < nSites
      ensures Reached(c, Dest(s, o), nOrb, nSites)
    {
      assert Reached(a, Dest(s, o), nOrb, nSites);
      var ou, su :| 0 <= ou < nOrb && 0 <= su < nSites && a[ou][su] == Dest(s, o);
      assert Reached(b, Dest(su, ou), nOrb, nSites);
      var ox, sx :| 0 <= ox < nOrb && 0 <= sx < nSites && b[ox][sx] == Dest(su, ou);
      assert c[ox][sx] == Dest(s, o);
    }
    forall o1, s1, o2, s2 |
      0 <= o1 < nOrb && 0 <= s1 < nSites && 0 <= o2 < nOrb && 0 <= s2 < nSites && c[o1][s1] == c[o2][s2]
      ensures o1 == o2 && s1 == s2
    {
      assert b[o1][s1] == b[o2][s2];
    }
  }

  // ------------------------------------------------------------------
  // Single-orbital plans: the form translation_plan and c4_rotation_plan
  // return, entry `site` holding the image site.
  // ------------------------------------------------------------------

  /** A permutation of [0, n). */
  predicate IsPermutation(p: seq<nat>, n: nat)
  {
    && |p| == n
    && (forall i :: 0 <= i < n ==> p[i] < n)
    && (forall i, j :: 0 <= i < n && 0 <= j < n && p[i] == p[j] ==> i == j)
    && (forall t :: 0 <= t < n ==> t in p)
  }

  /** The same map as a one-orbital plan. */
  function Lift(p: seq<nat>, n: nat): (r: Plan)
    requires |p| == n && forall i :: 0 <= i < n ==> p[i] < n
    ensures Targets(r, 1, n)
  {
    [seq(n, s requires 0 <= s < n => Dest(p[s], 0))]
  }

  /** Composing lifted plans is composing the maps, right one first. */
  lemma LiftCompose(p: seq<nat>, q: seq<nat>, n: nat)
    requires |p| == n && forall i :: 0 <= i < n ==> p[i] < n
    requires |q| == n && forall i :: 0 <= i < n ==> q[i] < n
    ensures Compose(Lift(p, n), Lift(q, n), 1, n) == Lift(seq(n, s requires 0 <= s < n => p[q[s]]), n)
  {
    var l := Compose(Lift(p, n), Lift(q, n), 1, n);
    var r := Lift(seq(n, s requires 0 <= s < n => p[q[s]]), n);
    assert l[0] == r[0];
  }

  /** A permutation lifts to a bijective plan. */
  lemma LiftBijective(p: seq<nat>, n: nat)
    requires IsPermutation(p, n)
    ensures Bijective(Lift(p, n), 1, n)
  {
    var lp := Lift(p, n);
    forall o, s | 0 <= o < 1 && 0 <= s < n
      ensures Reached(lp, Dest(s, o), 1, n)
    {
      assert s in p;
      var i :| 0 <= i < n && p[i] == s;
      assert lp[0][i] == Dest(s, o);
    }
  }
}
