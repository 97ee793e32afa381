# fockgaussian: the bookkeeping of `matelem`, modelled in Dafny

`matelem(l, m, n, U, Up, ls, alpha)` computes one Fock-basis matrix element
<m|W(alpha, U, ls, Up)|n> of an l-mode Gaussian unitary. It builds a 2l-mode
squeezing circuit, reads off a symmetric matrix B and a vector zeta, lists
each mode k of the occupation vector p = m + n exactly p[k] times (the
multiset S_p), gathers the rows and columns of B by S_p, puts zeta[S_p] on
the diagonal, and takes the loop hafnian of the result. The amplitude is 1
when that matrix is empty.

This project models the exact part of that computation. Matrix entries are of
an abstract type `T`, so no arithmetic is involved:

- `numpy.dfy` (module `NumPy`): two-dimensional arrays with a shape; fancy
  indexing of vectors (`v[idx]`), rows (`M[idx, :]`) and columns (`M[:, idx]`);
  `np.block` of four blocks; zero and identity matrices; and `np.fill_diagonal`
  as a method that overwrites a square `array2` in place.
- `fockgaussian.dfy` (module `FockGaussian`): the six shape assertions, which
  report the first one that fails; the extended unitaries Ue and Uep; p = m + n;
  the nested loop that builds S_p, as a method proved against the function
  `Multiset`; the repeated-index matrix Bt, built by copying the gather into a
  fresh array and filling its diagonal in place; the amplitude for the empty
  case; and `MatElem`, a method that runs these steps in the source's order and
  is proved equal to the function `MatElemSpec`. The lemmas `MatElem*` state what
  `matelem` promises about the result.

Three things come from outside the model. B and zeta are inputs: the predicate
`NumericPart` only asks that B be square and that B and zeta have one entry per
mode of p. The loop hafnian is a function parameter `hafnian`. The entries
`zero` and `one` of the identity blocks are parameters.

The source says that m and n are lists, so `p = m + n` is modelled as list
concatenation. A negative occupation never reaches the multiset loop: the
factorials of p (fockgaussian.py:97) reject it. The model therefore reports
`NegativeOccupation` right after the shape assertions. On its own,
`BuildMultiset` runs `range(p[k])` as Python does, with no iterations for a
negative p[k] (`Runs`).

## Model

| member | source | states |
|---|---|---|
| FockGaussian.CheckShapes | fockgaussian.py:50-55 | no failure exactly when all six assertions hold; a reported assertion fails, and every assertion before it holds |
| FockGaussian.ShapesAgree | fockgaussian.py:50-55 | passing the assertions means m, n, ls and alpha have length l, and U and Up are l×l |
| FockGaussian.MatElemFails | fockgaussian.py:50-97 | matelem succeeds exactly when every shape assertion holds and no occupation is negative; a failed assertion is the one reported |
| NumPy.Block | fockgaussian.py:59-60 | `np.block` of four blocks has the summed shape, and each quadrant holds its block |
| FockGaussian.Extend | fockgaussian.py:57-60 | Ue is 2l×2l: U top-left, identity bottom-right, zero in both off-diagonal blocks |
| FockGaussian.ExtendRestricts | fockgaussian.py:57-60 | the top-left l×l block of Ue gives back U |
| FockGaussian.ExtendIdentity | fockgaussian.py:57-60 | extending the l×l identity gives the 2l×2l identity |
| FockGaussian.MatElemUnitaries | fockgaussian.py:57-60 | on success Ue and Uep are the 2l×2l extensions of U and Up |
| FockGaussian.Occupations | fockgaussian.py:93 | p has len(m)+len(n) entries: m's entries first, then n's |
| FockGaussian.TotalConcat | fockgaussian.py:93 | the occupations of m + n add up to those of m plus those of n |
| FockGaussian.MatElemOccupations | fockgaussian.py:93 | on success p has 2l entries, p[k] = m[k] and p[l+k] = n[k] |
| FockGaussian.Repeat | fockgaussian.py:103-104 | the inner loop's output is c copies of k |
| FockGaussian.RepeatCount | fockgaussian.py:103-104 | c copies of k hold k c times and nothing else |
| FockGaussian.BuildMultiset | fockgaussian.py:100-104 | the nested loop yields S_p: sum(p) entries, each index k of p exactly p[k] times, non-decreasing, all indices of p |
| FockGaussian.MultisetLength | fockgaussian.py:100-104 | S_p has sum(p) entries |
| FockGaussian.MultisetCount | fockgaussian.py:100-104 | index k of p occurs p[k] times in S_p; no other value occurs |
| FockGaussian.MultisetBounds | fockgaussian.py:101-104 | every entry of S_p is an index of p |
| FockGaussian.MultisetSorted | fockgaussian.py:101-104 | S_p is non-decreasing |
| FockGaussian.MultisetEmpty | fockgaussian.py:100-104 | S_p is empty exactly when no entry of p is positive |
| FockGaussian.MultisetFits | fockgaussian.py:88-110 | every entry of S_p indexes a row and a column of B and an entry of zeta |
| FockGaussian.MatElemMultiset | fockgaussian.py:93-104 | on success S_p has sum(m)+sum(n) entries, holds index k exactly p[k] times, is non-decreasing and stays below 2l |
| NumPy.Take | fockgaussian.py:110 | `zeta[sp]` has one entry per index, entry a being zeta[sp[a]] |
| NumPy.Columns | fockgaussian.py:107 | `B[:, sp]` keeps the rows and picks column sp[b] as column b |
| NumPy.Rows | fockgaussian.py:107 | `M[sp, :]` picks row sp[a] as row a and keeps the columns |
| FockGaussian.Gather | fockgaussian.py:107 | `B[:, sp][sp, :]` is len(sp)×len(sp) with entry (a, b) equal to B[sp[a]][sp[b]] |
| NumPy.FillDiagonal | fockgaussian.py:113 | `np.fill_diagonal` overwrites exactly the diagonal of the array, in place |
| FockGaussian.RepeatedIndexMatrixAt | fockgaussian.py:107-113 | Bt is len(sp)×len(sp), B[sp[a]][sp[b]] off the diagonal and zeta[sp[a]] on it |
| FockGaussian.RepeatedIndexMatrixSymmetric | fockgaussian.py:107-113 | Bt is symmetric whenever B is |
| FockGaussian.BuildRepeatedIndexMatrix | fockgaussian.py:107-113 | copying the gather into a fresh array and filling its diagonal gives Bt; B and zeta are values and unchanged |
| FockGaussian.MatElem | fockgaussian.py:50-118 | running the steps in the source's order gives exactly `MatElemSpec` |
| FockGaussian.MatElemMatrix | fockgaussian.py:107-113 | on success Bt has B's entries repeated by S_p off the diagonal and zeta[S_p] on it |
| FockGaussian.MatElemEmpty | fockgaussian.py:115-118 | on success Bt is 0×0 exactly when all of m and n are zero; then the amplitude is one, otherwise the loop hafnian of Bt |
| FockGaussian.MatElemSymmetric | fockgaussian.py:107-113 | on success Bt is symmetric whenever B is |

## Left out

- `tmsq` and the circuit in `matelem` (`GaussianModes`, `beamsplitter`, `squeeze`, `apply_u`, `mmat`, fockgaussian.py:18-31, 64-80): they call the strawberryfields Gaussian backend, which is not part of this model.
- The Takagi decomposition (fockgaussian.py:81) and the loop hafnian (fockgaussian.py:118): library calls that are not part of this model. The hafnian is the parameter `hafnian`, applied to Bt.
- All floating-point and complex arithmetic: `arcsinh`, `sqrt`, `tanh`, `cosh`, `exp`, the construction of B and zeta (fockgaussian.py:84-91), the prefactors `R`, `prefns` and `T` (fockgaussian.py:96-98) and the returned product `mu` (fockgaussian.py:120). B and zeta are inputs, entries are an abstract type, and the model stops at the amplitude.
- FockGaussian.MatElemFails: a negative occupation is reported as `NegativeOccupation` after the shape assertions. The source raises `ValueError` in `math.factorial` at line 97, but with a negative n the numeric steps before it may already fail on NaN values; which exception comes first is not modelled.
- FockGaussian.CheckShapes: `U` and `Up` are always two-dimensional matrices here. A NumPy array of another rank, which would also fail `U.shape == (l, l)`, cannot be expressed.
- NumPy.FillDiagonal: only the square case with one value per diagonal entry is modelled, which is how `matelem` calls it. NumPy's cycling of shorter value arrays and its handling of non-square arrays are not modelled.
- `p = m + n` is list concatenation, as the docstring says m and n are lists. If they were NumPy arrays, `+` would add them element by element; that case is not modelled.
- The exception types raised by the assertions (`AssertionError`) are reduced to the `Error` value naming the failed assertion.
