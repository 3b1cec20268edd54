// Tight-binding Hamiltonian of a zigzag graphene nanoribbon unit cell,
// pristine and with one substitutional Si impurity (GNRS.py).
module Gnrs {
  import opened ComplexNumbers

  /** The model parameters of GNRS.py:21-29. The lattice constant a0 and the
      wavevector kx only enter through the phase factors, which the builders
      take as inputs instead. */
  datatype Params = Params(
    numAtoms: nat,  // sites in the unit cell
    tC: real,       // C-C hopping
    eC: real,       // on-site energy of carbon
    eSi: real,      // on-site energy of the Si impurity
    tSi: real,      // hopping on the bonds touching the impurity
    siIndex: int    // site of the impurity (0-based)
  )

  /** The values the source runs with: 12 sites, t_C = 2.7, E_C = 0,
      E_Si = 0.118, t_Si = 1.123, impurity at site 2. */
  const SourceParams: Params := Params(12, 2.7, 0.0, 0.118, 1.123, 2)

  /** Amplitude of an inter-cell (edge) bond: -hop + (-hop * phase). */
  function EdgeBond(hop: real, phase: Complex): Complex {
    Add(Neg(Real(hop)), Mul(Neg(Real(hop)), phase))
  }

  /** Amplitude of the bond between sites k and k + 1 with strength hop:
      even k is an inter-cell bond carrying the phase, odd k the plain -hop. */
  function BondAmplitude(hop: real, k: nat, phase: Complex): Complex {
    if k % 2 == 0 then EdgeBond(hop, phase) else Real(-hop)
  }

  // ---------- pristine ribbon ----------

  /** Entry (i, j) of the pristine Hamiltonian, with pR the phase of a
      right-neighbour bond and pL that of a left-neighbour bond. */
  function PureEntry(P: Params, pR: Complex, pL: Complex, i: nat, j: nat): Complex {
    if i == j then Zero
    else if j == i + 1 then BondAmplitude(P.tC, i, pR)
    else if i == j + 1 then BondAmplitude(P.tC, j, pL)
    else Zero
  }

  /** calc_eigenvalues_pure up to the eigenvalue call: computes the two edge
      amplitudes, allocates a zero matrix and fills it row by row. */
  method BuildPure(P: Params, pR: Complex, pL: Complex) returns (H: array2<Complex>)
    ensures fresh(H)
    ensures H.Length0 == P.numAtoms && H.Length1 == P.numAtoms
    ensures forall i, j :: 0 <= i < P.numAtoms && 0 <= j < P.numAtoms ==>
      H[i, j] == PureEntry(P, pR, pL, i, j)
  {
    var n := P.numAtoms;
    var a := EdgeBond(P.tC, pR);
    var b := EdgeBond(P.tC, pL);
    H := new Complex[n, n]((_, _) => Zero);
    for i := 0 to n
      invariant forall r, c :: 0 <= r < i && 0 <= c < n ==> H[r, c] == PureEntry(P, pR, pL, r, c)
      invariant forall r, c :: i <= r < n && 0 <= c < n ==> H[r, c] == Zero
    {
      FillPureRow(P, pR, pL, a, b, H, i);
    }
  }

  /** One iteration of the pristine builder's loop: the on-site energy of site i,
      then its right and left neighbours, amplitude a or b on even bonds. */
  method FillPureRow(P: Params, pR: Complex, pL: Complex, a: Complex, b: Complex, H: array2<Complex>, i: nat)
    requires a == EdgeBond(P.tC, pR) && b == EdgeBond(P.tC, pL)
    requires H.Length0 == P.numAtoms && H.Length1 == P.numAtoms && i < P.numAtoms
    requires forall c :: 0 <= c < P.numAtoms ==> H[i, c] == Zero
    modifies H
    ensures forall c :: 0 <= c < P.numAtoms ==> H[i, c] == PureEntry(P, pR, pL, i, c)
    ensures forall r, c :: 0 <= r < P.numAtoms && 0 <= c < P.numAtoms && r != i ==> H[r, c] == old(H[r, c])
  {
    var n := P.numAtoms;
    var onSite := Zero;
    H[i, i] := onSite;
    if i < n - 1 {
      if i % 2 == 0 {
        H[i, i + 1] := a;
      } else {
        H[i, i + 1] := Real(-P.tC);
      }
    }
    if i > 0 {
      if (i - 1) % 2 == 0 {
        H[i, i - 1] := b;
      } else {
        H[i, i - 1] := Real(-P.tC);
      }
    }
  }

  // ---------- Si-doped ribbon ----------

  /** On-site energy of site i. */
  function OnSite(P: Params, i: nat): real {
    if i == P.siIndex then P.eSi else P.eC
  }

  /** Hopping strength chosen for the right-neighbour bond of site i. */
  function RightHop(P: Params, i: nat): real {
    if i == P.siIndex - 1 || i == P.siIndex then P.tSi else P.tC
  }

  /** Hopping strength chosen for the left-neighbour bond of site i. */
  function LeftHop(P: Params, i: nat): real {
    if i == P.siIndex || i == P.siIndex + 1 then P.tSi else P.tC
  }

  /** Entry (i, j) of the doped Hamiltonian: the right-neighbour rule fills
      (i, i + 1) from row i, the left-neighbour rule fills (j + 1, j) from row j + 1. */
  function DopedEntry(P: Params, pR: Complex, pL: Complex, i: nat, j: nat): Complex {
    if i == j then Real(OnSite(P, i))
    else if j == i + 1 then BondAmplitude(RightHop(P, i), i, pR)
    else if i == j + 1 then BondAmplitude(LeftHop(P, i), j, pL)
    else Zero
  }

  /** calc_eigenvalues_si_doped up to the eigenvalue call: allocates a zero
      matrix, writes the on-site energies, then the hoppings row by row.
      Nothing is demanded of the impurity index: it is only compared with. */
  method BuildDoped(P: Params, pR: Complex, pL: Complex) returns (H: array2<Complex>)
    ensures fresh(H)
    ensures H.Length0 == P.numAtoms && H.Length1 == P.numAtoms
    ensures forall i, j :: 0 <= i < P.numAtoms && 0 <= j < P.numAtoms ==>
      H[i, j] == DopedEntry(P, pR, pL, i, j)
  {
    var n := P.numAtoms;
    H := new Complex[n, n]((_, _) => Zero);
    for i := 0 to n
      invariant forall r, c :: 0 <= r < n && 0 <= c < n ==>
        H[r, c] == if r == c && r < i then Real(OnSite(P, r)) else Zero
    {
      H[i, i] := Real(if i == P.siIndex then P.eSi else P.eC);
    }
    for i := 0 to n
      invariant forall r, c :: 0 <= r < i && 0 <= c < n ==> H[r, c] == DopedEntry(P, pR, pL, r, c)
      invariant forall r, c :: i <= r < n && 0 <= c < n ==>
        H[r, c] == if r == c then Real(OnSite(P, r)) else Zero
    {
      FillHoppingRow(P, pR, pL, H, i);
    }
  }

  /** One iteration of the doped builder's hopping loop: the right neighbour of
      site i, then its left neighbour, each with the strength its rule picks. */
  method FillHoppingRow(P: Params, pR: Complex, pL: Complex, H: array2<Complex>, i: nat)
    requires H.Length0 == P.numAtoms && H.Length1 == P.numAtoms && i < P.numAtoms
    requires forall c :: 0 <= c < P.numAtoms ==> H[i, c] == if c == i then Real(OnSite(P, i)) else Zero
    modifies H
    ensures forall c :: 0 <= c < P.numAtoms ==> H[i, c] == DopedEntry(P, pR, pL, i, c)
    ensures forall r, c :: 0 <= r < P.numAtoms && 0 <= c < P.numAtoms && r != i ==> H[r, c] == old(H[r, c])
  {
    var n := P.numAtoms;
    var hop: real;
    var phase: Complex;
    // right neighbour
    if i < n - 1 {
      if i == P.siIndex - 1 || i == P.siIndex {
        hop := P.tSi;
      } else {
        hop := P.tC;
      }
      if i % 2 == 0 {
        phase := pR;
        H[i, i + 1] := Add(Neg(Real(hop)), Mul(Neg(Real(hop)), phase));
      } else {
        H[i, i + 1] := Real(-hop);
      }
    }
    // left neighbour
    if i > 0 {
      if i == P.siIndex || i == P.siIndex + 1 {
        hop := P.tSi;
      } else {
        hop := P.tC;
      }
      if (i - 1) % 2 == 0 {
        phase := pL;
        H[i, i - 1] := Add(Neg(Real(hop)), Mul(Neg(Real(hop)), phase));
      } else {
        H[i, i - 1] := Real(-hop);
      }
    }
  }
}
