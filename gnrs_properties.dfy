// What the two Hamiltonian builders of GNRS.py guarantee about the matrices
// they produce, stated on the entry functions that the builders are proved to fill.
module GnrsProperties {
  import opened ComplexNumbers
  import opened Gnrs

  /** Conjugating a bond amplitude conjugates only its phase. */
  lemma BondAmplitudeConj(hop: real, k: nat, phase: Complex)
    ensures Conj(BondAmplitude(hop, k, phase)) == BondAmplitude(hop, k, Conj(phase))
  {
    if k % 2 == 0 {
      assert EdgeBond(hop, phase) == Add(Real(-hop), Mul(Real(-hop), phase));
      ConjRealAffine(-hop, -hop, phase);
    }
  }

  // ---------- pristine ribbon ----------

  /** Every diagonal entry is the zero on-site energy. */
  lemma PureDiagonalZero(P: Params, pR: Complex, pL: Complex, i: nat)
    ensures PureEntry(P, pR, pL, i, i) == Zero
  {
  }

  /** Only nearest neighbours couple: entries farther than one off the diagonal stay zero. */
  lemma PureBanded(P: Params, pR: Complex, pL: Complex, i: nat, j: nat)
    requires i > j + 1 || j > i + 1
    ensures PureEntry(P, pR, pL, i, j) == Zero
  {
  }

  /** The parity rule: the bond (i, i + 1) carries -t - t*p (and -t - t*p' on the
      way back) when i is even, and the plain -t in both directions when i is odd. */
  lemma PureParity(P: Params, pR: Complex, pL: Complex, i: nat)
    ensures i % 2 == 0 ==>
      PureEntry(P, pR, pL, i, i + 1) == Add(Real(-P.tC), Mul(Real(-P.tC), pR)) &&
      PureEntry(P, pR, pL, i + 1, i) == Add(Real(-P.tC), Mul(Real(-P.tC), pL))
    ensures i % 2 == 1 ==>
      PureEntry(P, pR, pL, i, i + 1) == Real(-P.tC) &&
      PureEntry(P, pR, pL, i + 1, i) == Real(-P.tC)
  {
  }

  /** With the left phase the conjugate of the right one, the pristine matrix is Hermitian. */
  lemma PureHermitian(P: Params, pR: Complex, pL: Complex)
    requires pL == Conj(pR)
    ensures forall i: nat, j: nat :: PureEntry(P, pR, pL, j, i) == Conj(PureEntry(P, pR, pL, i, j))
  {
    forall i: nat, j: nat
      ensures PureEntry(P, pR, pL, j, i) == Conj(PureEntry(P, pR, pL, i, j))
    {
      if j == i + 1 {
        BondAmplitudeConj(P.tC, i, pR);
      } else if i == j + 1 {
        BondAmplitudeConj(P.tC, j, pR);
        assert Conj(Conj(pR)) == pR;
      }
    }
  }

  /** At kx = 0 both phases are 1 and every pristine bond is real: -2 t_C for an
      inter-cell bond and -t_C for an intra-cell bond. */
  lemma PureBondAtGamma(P: Params, i: nat)
    ensures var amp := Real(if i % 2 == 0 then -2.0 * P.tC else -P.tC);
      PureEntry(P, One, One, i, i + 1) == amp && PureEntry(P, One, One, i + 1, i) == amp
  {
  }

  /** The same with the source's t_C = 2.7. */
  lemma SourcePureAtGamma(P: Params, i: nat)
    requires P == SourceParams
    ensures PureEntry(P, One, One, i, i + 1) == Real(if i % 2 == 0 then -5.4 else -2.7)
    ensures PureEntry(P, One, One, i + 1, i) == Real(if i % 2 == 0 then -5.4 else -2.7)
  {
    PureBondAtGamma(P, i);
    assert P.tC == 2.7;
  }

  // ---------- Si-doped ribbon ----------

  /** The impurity site, and only it, gets the impurity on-site energy; every
      other site keeps the carbon one. */
  lemma DopedDiagonal(P: Params, pR: Complex, pL: Complex, i: nat)
    ensures i == P.siIndex ==> DopedEntry(P, pR, pL, i, i) == Real(P.eSi)
    ensures i != P.siIndex ==> DopedEntry(P, pR, pL, i, i) == Real(P.eC)
    ensures P.eSi != P.eC ==> (DopedEntry(P, pR, pL, i, i) == Real(P.eSi) <==> i == P.siIndex)
  {
  }

  /** Only nearest neighbours couple in the doped matrix too. */
  lemma DopedBanded(P: Params, pR: Complex, pL: Complex, i: nat, j: nat)
    requires i > j + 1 || j > i + 1
    ensures DopedEntry(P, pR, pL, i, j) == Zero
  {
  }

  /** The left-neighbour rule, read from site i + 1, picks the same strength for
      the bond (i, i + 1) as the right-neighbour rule read from site i. */
  lemma HopRulesAgree(P: Params, i: nat)
    ensures LeftHop(P, i + 1) == RightHop(P, i)
  {
  }

  /** Both entries of the bond (i, i + 1) use the impurity strength exactly when the
      bond touches the impurity site; the phase rule is the pristine one, with
      that strength in place of t_C. */
  lemma DopedBond(P: Params, pR: Complex, pL: Complex, i: nat)
    ensures var hop := if P.siIndex == i || P.siIndex == i + 1 then P.tSi else P.tC;
      DopedEntry(P, pR, pL, i, i + 1) == PureEntry(P.(tC := hop), pR, pL, i, i + 1) &&
      DopedEntry(P, pR, pL, i + 1, i) == PureEntry(P.(tC := hop), pR, pL, i + 1, i)
  {
    HopRulesAgree(P, i);
  }

  /** The impurity is local: every entry away from the impurity's row and column
      is the pristine entry, shifted on the diagonal by the carbon on-site energy. */
  lemma ImpurityLocal(P: Params, pR: Complex, pL: Complex, i: nat, j: nat)
    requires i != P.siIndex && j != P.siIndex
    ensures DopedEntry(P, pR, pL, i, j) == if i == j then Real(P.eC) else PureEntry(P, pR, pL, i, j)
  {
    if j == i + 1 {
      DopedBond(P, pR, pL, i);
    } else if i == j + 1 {
      DopedBond(P, pR, pL, j);
    }
  }

  /** With the left phase the conjugate of the right one, the doped matrix is Hermitian. */
  lemma DopedHermitian(P: Params, pR: Complex, pL: Complex)
    requires pL == Conj(pR)
    ensures forall i: nat, j: nat :: DopedEntry(P, pR, pL, j, i) == Conj(DopedEntry(P, pR, pL, i, j))
  {
    forall i: nat, j: nat
      ensures DopedEntry(P, pR, pL, j, i) == Conj(DopedEntry(P, pR, pL, i, j))
    {
      if j == i + 1 {
        HopRulesAgree(P, i);
        BondAmplitudeConj(RightHop(P, i), i, pR);
      } else if i == j + 1 {
        HopRulesAgree(P, j);
        BondAmplitudeConj(RightHop(P, j), j, pR);
        assert Conj(Conj(pR)) == pR;
      }
    }
  }

  /** With no impurity energy (E_Si = E_C = 0) and no impurity hopping (t_Si = t_C)
      the doped matrix is the pristine one. */
  lemma DopedReducesToPure(P: Params, pR: Complex, pL: Complex)
    requires P.eC == 0.0 && P.eSi == 0.0 && P.tSi == P.tC
    ensures forall i: nat, j: nat :: DopedEntry(P, pR, pL, i, j) == PureEntry(P, pR, pL, i, j)
  {
    forall i: nat, j: nat
      ensures DopedEntry(P, pR, pL, i, j) == PureEntry(P, pR, pL, i, j)
    {
      if j == i + 1 {
        DopedBond(P, pR, pL, i);
        assert P.(tC := P.tC) == P;
      } else if i == j + 1 {
        DopedBond(P, pR, pL, j);
        assert P.(tC := P.tC) == P;
      }
    }
  }

  /** The builders' matrices, as arrays, satisfy the same reduction. */
  method BuildersAgree(P: Params, p: Complex) returns (pure: array2<Complex>, doped: array2<Complex>)
    requires P.eC == 0.0 && P.eSi == 0.0 && P.tSi == P.tC
    ensures pure.Length0 == doped.Length0 == P.numAtoms && pure.Length1 == doped.Length1 == P.numAtoms
    ensures forall i, j :: 0 <= i < P.numAtoms && 0 <= j < P.numAtoms ==> doped[i, j] == pure[i, j]
  {
    pure := BuildPure(P, p, Conj(p));
    doped := BuildDoped(P, p, Conj(p));
    DopedReducesToPure(P, p, Conj(p));
  }

  /** At kx = 0 both phases are 1 and every bond is real: an inter-cell bond is
      -2 hop and an intra-cell bond -hop, where hop is t_Si on the bonds touching
      the impurity and t_C elsewhere. */
  lemma DopedBondAtGamma(P: Params, k: nat)
    ensures var hop := if P.siIndex == k || P.siIndex == k + 1 then P.tSi else P.tC;
      var amp := Real(if k % 2 == 0 then -2.0 * hop else -hop);
      DopedEntry(P, One, One, k, k + 1) == amp && DopedEntry(P, One, One, k + 1, k) == amp
  {
    DopedBond(P, One, One, k);
  }

  /** With the source's values (impurity at site 2, E_Si = 0.118, t_Si = 1.123)
      at kx = 0: the impurity site has energy 0.118, its intra-cell bond to site 1
      is -1.123 and its inter-cell bond to site 3 is -2.246, in both directions. */
  lemma SourceImpurityAtGamma(P: Params)
    requires P == SourceParams
    ensures DopedEntry(P, One, One, 2, 2) == Real(0.118)
    ensures DopedEntry(P, One, One, 1, 2) == DopedEntry(P, One, One, 2, 1) == Real(-1.123)
    ensures DopedEntry(P, One, One, 2, 3) == DopedEntry(P, One, One, 3, 2) == Real(-2.246)
  {
    DopedBondAtGamma(P, 1);
    DopedBondAtGamma(P, 2);
    assert P.tSi == 1.123 && P.siIndex == 2 && P.eSi == 0.118;
  }

  // ---------- how far the impurity reaches ----------

  /** Number of sites k < m whose diagonal entry in the doped matrix is v. */
  function SitesWithOnSite(P: Params, pR: Complex, pL: Complex, m: nat, v: Complex): nat {
    if m == 0 then 0
    else SitesWithOnSite(P, pR, pL, m - 1, v) + (if DopedEntry(P, pR, pL, m - 1, m - 1) == v then 1 else 0)
  }

  /** Among the first m sites, the impurity energy appears once if the impurity is
      one of them and never otherwise; the carbon energy fills every other site. */
  lemma {:induction false} ImpuritySiteCount(P: Params, pR: Complex, pL: Complex, m: nat)
    requires P.eSi != P.eC
    ensures SitesWithOnSite(P, pR, pL, m, Real(P.eSi)) == if 0 <= P.siIndex < m then 1 else 0
    ensures SitesWithOnSite(P, pR, pL, m, Real(P.eC)) == if 0 <= P.siIndex < m then m - 1 else m
  {
    if m > 0 {
      ImpuritySiteCount(P, pR, pL, m - 1);
      DopedDiagonal(P, pR, pL, m - 1);
    }
  }

  /** In a whole cell with the impurity inside it, exactly one diagonal entry is
      E_Si and the other numAtoms - 1 are E_C. */
  lemma OneImpuritySite(P: Params, pR: Complex, pL: Complex)
    requires P.eSi != P.eC && 0 <= P.siIndex < P.numAtoms
    ensures SitesWithOnSite(P, pR, pL, P.numAtoms, Real(P.eSi)) == 1
    ensures SitesWithOnSite(P, pR, pL, P.numAtoms, Real(P.eC)) == P.numAtoms - 1
  {
    ImpuritySiteCount(P, pR, pL, P.numAtoms);
  }

  /** Number of bonds (k, k + 1) with k < m that get the impurity hopping. */
  function ImpurityBonds(P: Params, m: nat): nat {
    if m == 0 then 0
    else ImpurityBonds(P, m - 1) + (if RightHop(P, m - 1) == P.tSi then 1 else 0)
  }

  /** Among the bonds (k, k + 1) with k < m, the impurity hopping is used on the
      bond ending at the impurity and on the bond starting at it, each when it is
      among them. */
  lemma {:induction false} ImpurityBondCount(P: Params, m: nat)
    requires P.tSi != P.tC
    ensures ImpurityBonds(P, m) ==
      (if 1 <= P.siIndex <= m then 1 else 0) + (if 0 <= P.siIndex < m then 1 else 0)
  {
    if m > 0 {
      ImpurityBondCount(P, m - 1);
    }
  }

  /** In a whole cell (bonds k < numAtoms - 1), an impurity inside the cell changes
      two bonds, except at the first or last site, where only one bond exists. */
  lemma EdgeImpurityHasOneBond(P: Params)
    requires P.tSi != P.tC && P.numAtoms >= 2 && 0 <= P.siIndex < P.numAtoms
    ensures ImpurityBonds(P, P.numAtoms - 1) == if P.siIndex == 0 || P.siIndex == P.numAtoms - 1 then 1 else 2
  {
    ImpurityBondCount(P, P.numAtoms - 1);
  }
}
