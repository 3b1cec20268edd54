# Tight-binding Hamiltonian of a zigzag graphene nanoribbon

This project models the Hamiltonian construction in `GNRS.py`. The program builds a
12×12 complex tight-binding matrix for one unit cell of a zigzag graphene nanoribbon
(6 dimers wide) at a wavevector `kx`, in two versions:

- the pristine ribbon (`calc_eigenvalues_pure`);
- the ribbon with one Si impurity per cell (`calc_eigenvalues_si_doped`). The
  impurity site gets its own on-site energy, and the bonds touching it get their
  own hopping strength.

Both builders start from `np.zeros` and write cells in a `for` loop. The model does
the same: `Gnrs.BuildPure` and `Gnrs.BuildDoped` allocate an `array2<Complex>` filled
with zero and fill it row by row. Each iteration of the row-filling loops is its
own method (`FillPureRow`, `FillHoppingRow`) with the same statements as the
source's loop body; the doped builder's on-site loop stays inline. Each builder is proved to leave every cell equal to an entry function
(`PureEntry`, `DopedEntry`). The lemmas in `GnrsProperties` then prove what the
matrices look like.

Modelling choices:

- Complex numbers are pairs of mathematical reals (`ComplexNumbers.Complex`), not
  floating point.
- The parameters of `GNRS.py:21-29` form a `Params` value passed to the builders.
  `SourceParams` holds the source's values. The unit-cell size `numAtoms` is a
  parameter too; the source uses 12.
- The phase factors `exp(-i·kx·a0)` and `exp(+i·kx·a0)` are two inputs, `pR` and `pL`.
  The Hermiticity lemmas assume `pL == Conj(pR)`, which holds for every real `kx`.
- Python's `%` and Dafny's `%` agree here, because the operands are never negative.
- The code does not validate the impurity index (`si_index` is only compared with
  loop indices), so `BuildDoped` has no precondition on `siIndex`. Every array access
  is still in bounds for any index, including 0 and `numAtoms - 1`. An index outside
  the cell gives the carbon energy on every site and `t_C` on every bond. Nothing
  rejects an out-of-range index; the builders simply never match it.

Files: `complex.dfy` (complex arithmetic), `gnrs.dfy` (parameters, entry functions,
the two builders) and `gnrs_properties.dfy` (properties of the matrices).

## Model

| member | source | states |
|---|---|---|
| `Gnrs.BuildPure` | GNRS.py:43-61 | returns a freshly allocated `numAtoms`×`numAtoms` matrix whose every cell is `PureEntry`: zero on-site energy, nearest-neighbour hoppings from the parity rule, zero elsewhere |
| `Gnrs.FillPureRow` | GNRS.py:49-61 | one pass of the pristine loop: row i, zero before, becomes row i of `PureEntry`; every other row is unchanged |
| `Gnrs.BuildDoped` | GNRS.py:74-104 | with no precondition on the impurity index, returns a freshly allocated `numAtoms`×`numAtoms` matrix whose every cell is `DopedEntry` (every index written is in bounds) |
| `Gnrs.FillHoppingRow` | GNRS.py:80-104 | one pass of the hopping loop: row i, holding only its on-site energy before, becomes row i of `DopedEntry`; every other row is unchanged |
| `GnrsProperties.BondAmplitudeConj` | GNRS.py:44-45 | conjugating a bond amplitude conjugates only its phase, for both parities |
| `GnrsProperties.PureDiagonalZero` | GNRS.py:43-50 | every diagonal entry of the pristine matrix is 0 |
| `GnrsProperties.PureBanded` | GNRS.py:48-61 | every pristine entry more than one step off the diagonal stays 0 |
| `GnrsProperties.PureParity` | GNRS.py:52-61 | for even i, `H[i][i+1] = -t_C - t_C·pR` and `H[i+1][i] = -t_C - t_C·pL`; for odd i, both equal `-t_C` |
| `GnrsProperties.PureHermitian` | GNRS.py:44-61 | if `pL = conj(pR)`, then `H[j][i] = conj(H[i][j])` for all i, j |
| `GnrsProperties.PureBondAtGamma` | GNRS.py:44-61 | at kx = 0 (both phases 1), every pristine bond is real: `-2·t_C` for an inter-cell bond, `-t_C` for an intra-cell bond, in both directions |
| `GnrsProperties.SourcePureAtGamma` | GNRS.py:21-23 | with the source's `t_C = 2.7` at kx = 0, inter-cell bonds are -5.4 and intra-cell bonds -2.7 |
| `GnrsProperties.DopedDiagonal` | GNRS.py:74-77 | diagonal entry `si_index` is `E_Si` and every other one is `E_C`; when `E_Si ≠ E_C`, exactly the impurity site has `E_Si` |
| `GnrsProperties.DopedBanded` | GNRS.py:74-104 | every doped entry more than one step off the diagonal stays 0 |
| `GnrsProperties.HopRulesAgree` | GNRS.py:82-99 | the left-neighbour rule seen from site i+1 picks the same strength as the right-neighbour rule seen from site i |
| `GnrsProperties.DopedBond` | GNRS.py:82-104 | both entries of bond (i, i+1) use `t_Si` exactly when the impurity is site i or i+1, and `t_C` otherwise; the phase follows the pristine parity rule with that strength |
| `GnrsProperties.ImpurityLocal` | GNRS.py:74-104 | outside the impurity's row and column, the doped matrix is the pristine one, with `E_C` on the diagonal |
| `GnrsProperties.DopedHermitian` | GNRS.py:74-104 | if `pL = conj(pR)`, the doped matrix is Hermitian for every impurity index and all real energies and hoppings |
| `GnrsProperties.DopedReducesToPure` | GNRS.py:43-104 | with `E_C = E_Si = 0` and `t_Si = t_C`, every doped entry equals the pristine entry |
| `GnrsProperties.BuildersAgree` | GNRS.py:43-104 | under the same conditions, the two builders called with the same phase return equal arrays cell by cell |
| `GnrsProperties.DopedBondAtGamma` | GNRS.py:82-104 | at kx = 0 (both phases 1), every bond is real: `-2·hop` for an inter-cell bond and `-hop` for an intra-cell bond, with hop `t_Si` next to the impurity and `t_C` elsewhere |
| `GnrsProperties.SourceImpurityAtGamma` | GNRS.py:26-29 | with the source's values at kx = 0, site 2 has energy 0.118, bond (1, 2) is -1.123 and bond (2, 3) is -2.246, in both directions |
| `GnrsProperties.ImpuritySiteCount` | GNRS.py:76-77 | among the first m sites, the impurity energy appears once when the impurity is one of them and never otherwise, and the carbon energy fills every other site |
| `GnrsProperties.OneImpuritySite` | GNRS.py:76-77 | with the impurity inside the cell and `E_Si ≠ E_C`, exactly one diagonal entry is `E_Si` and the other `numAtoms − 1` are `E_C` |
| `GnrsProperties.ImpurityBondCount` | GNRS.py:82-87 | among the bonds (k, k+1) with k < m, `t_Si` is used on the bond ending at the impurity and on the bond starting at it, each when it is in range |
| `GnrsProperties.EdgeImpurityHasOneBond` | GNRS.py:82-87 | with the impurity inside the cell and `t_Si ≠ t_C`, two bonds use `t_Si`, or one when the impurity is at site 0 or `numAtoms − 1` |

## Left out

- `np.linalg.eigvals` and `np.sort` (GNRS.py:64, 105). These are an external dense
  eigensolver and a complex sort. The model stops at the matrix, so no spectral
  property is stated: real eigenvalues, electron–hole symmetry at kx = 0 and band
  ordering are not covered.
- The complex exponential, `π` and the `np.linspace` grid of 2000 wavevectors
  (GNRS.py:33, 44-45, 90, 101). These are floating-point transcendental functions.
  The phases are inputs, and the lattice constant `a0` only enters through them.
- `plot_band_structure` and the `__main__` sweep and transpose (GNRS.py:110-138).
  These are plotting, plus a loop that applies a builder and the eigensolver to
  every wavevector.
- IEEE double rounding of the entries and of the constants 2.7, 1.123 and 0.118.
  The model uses exact reals.
- The source's constants are evaluated as literal numbers only at kx = 0, and in the
  doped matrix only around the impurity (`SourcePureAtGamma`, `SourceImpurityAtGamma`).
  Elsewhere the lemmas hold for any parameters.
