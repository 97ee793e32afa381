/**
 * The exact index and matrix bookkeeping of `matelem`, the function that
 * computes one Fock-basis matrix element <m|W(alpha, U, ls, Up)|n> of a
 * Gaussian unitary on `l` modes by a loop hafnian:
 *
 *  - the shape assertions on the arguments;
 *  - the extended unitaries Ue and Uep on the 2l modes of the doubled circuit;
 *  - the occupation vector p = m + n;
 *  - the multiset S_p, in which mode k is listed p[k] times;
 *  - the matrix Bt whose loop hafnian is the amplitude: B with rows and
 *    columns repeated according to S_p and its diagonal replaced by the
 *    matching entries of zeta;
 *  - the amplitude 1 for the empty matrix, and the loop hafnian otherwise.
 *
 * The floating-point part of `matelem` (the squeezing circuit, the Takagi
 * decomposition, the matrices B and zeta themselves and the scalar
 * prefactors) is not modelled: B and zeta are inputs, and the loop hafnian
 * is a function parameter.
 */
module FockGaussian {
  import opened NumPy

  datatype Option<T> = None | Some(value: T)
  datatype Result<T, E> = Success(value: T) | Failure(error: E)

  /* ---------------------------------------------------------------------- */
  /* Argument shape checks                                                  */
  /* ---------------------------------------------------------------------- */

  /** The arguments of `matelem`; `T` stands for the complex entries of U, Up and alpha. */
  datatype Args<T> = Args(l: int, m: seq<int>, n: seq<int>, U: Matrix<T>, Up: Matrix<T>,
                          ls: seq<real>, alpha: seq<T>)

  /** The six shape assertions at the start of `matelem`, in the order they are made. */
  datatype ShapeCheck = LengthOfM | LengthOfN | ShapeOfU | ShapeOfUp | LengthOfLs | LengthOfAlpha

  /** Position of an assertion in the sequence of assertions. */
  function Order(c: ShapeCheck): nat {
    match c
    case LengthOfM => 0
    case LengthOfN => 1
    case ShapeOfU => 2
    case ShapeOfUp => 3
    case LengthOfLs => 4
    case LengthOfAlpha => 5
  }

  /** Whether one shape assertion holds of the arguments. */
  predicate Holds<T>(c: ShapeCheck, args: Args<T>) {
    match c
    case LengthOfM => args.l == |args.m|
    case LengthOfN => args.l == |args.n|
    case ShapeOfU => args.U.Shape() == (args.l, args.l)
    case ShapeOfUp => args.Up.Shape() == (args.l, args.l)
    case LengthOfLs => |args.ls| == args.l
    case LengthOfAlpha => |args.alpha| == args.l
  }

  /**
   * Runs the assertions in order and reports the first that fails, if any:
   * `None` exactly when all of them hold, otherwise a failing assertion
   * that every earlier assertion passed.
   */
  function CheckShapes<T>(args: Args<T>): (r: Option<ShapeCheck>)
    ensures r.Some? ==> !Holds(r.value, args)
    ensures r.None? <==> forall c: ShapeCheck :: Holds(c, args)
    ensures r.Some? ==> forall c: ShapeCheck :: Order(c) < Order(r.value) ==> Holds(c, args)
  {
    if args.l != |args.m| then Some(LengthOfM)
    else if args.l != |args.n| then Some(LengthOfN)
    else if args.U.Shape() != (args.l, args.l) then Some(ShapeOfU)
    else if args.Up.Shape() != (args.l, args.l) then Some(ShapeOfUp)
    else if |args.ls| != args.l then Some(LengthOfLs)
    else if |args.alpha| != args.l then Some(LengthOfAlpha)
    else None
  }

  /** Arguments that pass every shape assertion agree with `l` in every length and shape. */
  lemma ShapesAgree<T>(args: Args<T>)
    requires CheckShapes(args).None?
    ensures args.l >= 0
    ensures |args.m| == |args.n| == |args.ls| == |args.alpha| == args.l
    ensures args.U.rows == args.U.cols == args.Up.rows == args.Up.cols == args.l
  {
    assert Holds(LengthOfM, args) && Holds(LengthOfN, args) && Holds(ShapeOfU, args);
    assert Holds(ShapeOfUp, args) && Holds(LengthOfLs, args) && Holds(LengthOfAlpha, args);
  }

  /* ---------------------------------------------------------------------- */
  /* Extended unitaries                                                     */
  /* ---------------------------------------------------------------------- */

  /**
   * `np.block([[U, 0 * idl], [0 * idl, idl]])`: the 2l×2l unitary that acts as
   * U on the first l modes and as the identity on the last l modes.
   */
  function Extend<T>(U: Matrix<T>, zero: T, one: T): (E: Matrix<T>)
    requires U.Valid() && U.rows == U.cols
    ensures E.Valid() && E.Shape() == (2 * U.rows, 2 * U.rows)
    ensures forall i, j | 0 <= i < U.rows && 0 <= j < U.rows :: E.entries[i][j] == U.entries[i][j]
    ensures forall i, j | 0 <= i < U.rows && U.rows <= j < 2 * U.rows :: E.entries[i][j] == zero
    ensures forall i, j | U.rows <= i < 2 * U.rows && 0 <= j < U.rows :: E.entries[i][j] == zero
    ensures forall i, j | U.rows <= i < 2 * U.rows && U.rows <= j < 2 * U.rows ::
      E.entries[i][j] == if i == j then one else zero
  {
    var l := U.rows;
    Block(U, Zeros(l, zero), Zeros(l, zero), Identity(l, zero, one))
  }

  /** The top-left l×l block of the extended unitary gives back U. */
  lemma ExtendRestricts<T>(U: Matrix<T>, zero: T, one: T)
    requires U.Valid() && U.rows == U.cols
    ensures SubMatrix(Extend(U, zero, one), 0, 0, U.rows, U.rows) == U
  {
    var E := Extend(U, zero, one);
    var S := SubMatrix(E, 0, 0, U.rows, U.rows);
    forall i, j | 0 <= i < U.rows && 0 <= j < U.rows
      ensures S.entries[i][j] == U.entries[i][j]
    {
      assert S.entries[i] == E.entries[i][0 .. U.rows];
    }
    SameEntries(S, U);
  }

  /** The extended unitary of the identity is the 2l×2l identity. */
  lemma ExtendIdentity<T>(l: nat, zero: T, one: T)
    ensures Extend(Identity(l, zero, one), zero, one) == Identity(2 * l, zero, one)
  {
    var E := Extend(Identity(l, zero, one), zero, one);
    var I := Identity(2 * l, zero, one);
    forall i, j | 0 <= i < 2 * l && 0 <= j < 2 * l
      ensures E.entries[i][j] == I.entries[i][j]
    {
    }
    SameEntries(E, I);
  }

  /* ---------------------------------------------------------------------- */
  /* Occupation vector and the multiset S_p                                 */
  /* ---------------------------------------------------------------------- */

  /** `p = m + n`: list concatenation of the two occupation lists. */
  function Occupations(m: seq<int>, n: seq<int>): (p: seq<int>)
    ensures |p| == |m| + |n|
    ensures forall k | 0 <= k < |m| :: p[k] == m[k]
    ensures forall k | |m| <= k < |p| :: p[k] == n[k - |m|]
  {
    m + n
  }

  /** How many times `range(x)` runs: x for x >= 0 and none for a negative x. */
  function Runs(x: int): nat {
    if x < 0 then 0 else x
  }

  /** The number of indices `range` produces over all of `p` (`sum(p)` when no entry is negative). */
  function Total(p: seq<int>): nat {
    if p == [] then 0 else Total(p[..|p| - 1]) + Runs(p[|p| - 1])
  }

  /** `c` copies of the index `k`, as the inner loop appends them. */
  function Repeat(k: nat, c: nat): (r: seq<nat>)
    ensures |r| == c
    ensures forall i | 0 <= i < |r| :: r[i] == k
  {
    if c == 0 then [] else Repeat(k, c - 1) + [k]
  }

  /** S_p as a list: each index k of `p`, in increasing order, repeated p[k] times. */
  function Multiset(p: seq<int>): seq<nat> {
    if p == [] then [] else Multiset(p[..|p| - 1]) + Repeat(|p| - 1, Runs(p[|p| - 1]))
  }

  lemma {:induction false} RepeatCount(k: nat, c: nat)
    ensures multiset(Repeat(k, c)) == multiset{}[k := c]
  {
    if c > 0 {
      RepeatCount(k, c - 1);
      assert multiset(Repeat(k, c)) == multiset(Repeat(k, c - 1)) + multiset{k};
    }
  }

  /** S_p has `sum(p)` entries. */
  lemma {:induction false} MultisetLength(p: seq<int>)
    ensures |Multiset(p)| == Total(p)
  {
    if p != [] {
      MultisetLength(p[..|p| - 1]);
    }
  }

  /** Every index k of `p` occurs exactly p[k] times in S_p, and no other value occurs. */
  lemma {:induction false} MultisetCount(p: seq<int>, k: nat)
    ensures multiset(Multiset(p))[k] == if k < |p| then Runs(p[k]) else 0
  {
    if p != [] {
      var q, last := p[..|p| - 1], |p| - 1;
      MultisetCount(q, k);
      RepeatCount(last, Runs(p[last]));
      assert Multiset(p) == Multiset(q) + Repeat(last, Runs(p[last]));
      assert multiset(Multiset(p)) == multiset(Multiset(q)) + multiset(Repeat(last, Runs(p[last])));
      if k < |q| {
        assert q[k] == p[k];
      }
    }
  }

  /** Every entry of S_p is an index of `p`. */
  lemma {:induction false} MultisetBounds(p: seq<int>)
    ensures forall i | 0 <= i < |Multiset(p)| :: Multiset(p)[i] < |p|
  {
    if p != [] {
      MultisetBounds(p[..|p| - 1]);
    }
  }

  /** S_p is non-decreasing. */
  lemma {:induction false} MultisetSorted(p: seq<int>)
    ensures forall i, j | 0 <= i <= j < |Multiset(p)| :: Multiset(p)[i] <= Multiset(p)[j]
  {
    if p != [] {
      var q := p[..|p| - 1];
      MultisetSorted(q);
      MultisetBounds(q);
      var s, t := Multiset(q), Repeat(|p| - 1, Runs(p[|p| - 1]));
      assert Multiset(p) == s + t;
      forall i, j | 0 <= i <= j < |s + t|
        ensures (s + t)[i] <= (s + t)[j]
      {
        if j < |s| {
          assert (s + t)[i] == s[i] && (s + t)[j] == s[j];
        } else if i < |s| {
          assert (s + t)[i] == s[i] && (s + t)[j] == t[j - |s|];
        } else {
          assert (s + t)[i] == t[i - |s|] && (s + t)[j] == t[j - |s|];
        }
      }
    }
  }

  /** S_p is empty exactly when no entry of `p` is positive. */
  lemma MultisetEmpty(p: seq<int>)
    ensures Multiset(p) == [] <==> forall k | 0 <= k < |p| :: p[k] <= 0
  {
    if Multiset(p) != [] {
      var s := Multiset(p);
      MultisetBounds(p);
      MultisetCount(p, s[0]);
      assert s[0] in multiset(s);
      assert p[s[0]] > 0;
    } else {
      forall k | 0 <= k < |p|
        ensures p[k] <= 0
      {
        MultisetCount(p, k);
      }
    }
  }

  /** The number of entries of the occupations m + n is sum(m) + sum(n). */
  lemma {:induction false} TotalConcat(m: seq<int>, n: seq<int>)
    ensures Total(m + n) == Total(m) + Total(n)
  {
    if n != [] {
      var n' := n[..|n| - 1];
      assert (m + n)[..|m + n| - 1] == m + n';
      assert (m + n)[|m + n| - 1] == n[|n| - 1];
      TotalConcat(m, n');
    } else {
      assert m + n == m;
    }
  }

  /**
   * The nested loop that builds S_p: for each index k of `p`, `range(p[k])`
   * appends k once per iteration.
   */
  method BuildMultiset(p: seq<int>) returns (sp: seq<nat>)
    ensures sp == Multiset(p)
    ensures |sp| == Total(p)
    ensures forall i | 0 <= i < |sp| :: sp[i] < |p|
    ensures forall i, j | 0 <= i <= j < |sp| :: sp[i] <= sp[j]
    ensures forall k | 0 <= k < |p| :: multiset(sp)[k] == Runs(p[k])
  {
    sp := [];
    for k := 0 to |p|
      invariant sp == Multiset(p[..k])
    {
      var i := 0;
      while i < p[k]
        invariant 0 <= i <= Runs(p[k])
        invariant sp == Multiset(p[..k]) + Repeat(k, i)
      {
        sp := sp + [k];
        i := i + 1;
      }
      assert p[..k + 1][..k] == p[..k];
    }
    assert p[..|p|] == p;
    MultisetLength(p);
    MultisetBounds(p);
    MultisetSorted(p);
    forall k | 0 <= k < |p|
      ensures multiset(sp)[k] == Runs(p[k])
    {
      MultisetCount(p, k);
    }
  }

  /* ---------------------------------------------------------------------- */
  /* The repeated-index matrix Bt                                           */
  /* ---------------------------------------------------------------------- */

  /** Every entry of `sp` indexes a row and a column of B and an entry of zeta. */
  predicate IndexesFit<T>(sp: seq<nat>, B: Matrix<T>, zeta: seq<T>) {
    forall a | 0 <= a < |sp| :: sp[a] < B.rows && sp[a] < B.cols && sp[a] < |zeta|
  }

  /** `B[:, sp][sp, :]`: columns gathered by `sp`, then rows gathered by `sp`. */
  function Gather<T>(B: Matrix<T>, sp: seq<nat>): (G: Matrix<T>)
    requires B.Valid() && forall a | 0 <= a < |sp| :: sp[a] < B.rows && sp[a] < B.cols
    ensures G.Valid() && G.Shape() == (|sp|, |sp|)
    ensures forall a, b | 0 <= a < |sp| && 0 <= b < |sp| :: G.entries[a][b] == B.entries[sp[a]][sp[b]]
  {
    Rows(Columns(B, sp), sp)
  }

  /** The value of Bp after `np.fill_diagonal(Bp, zetap)`, with `zetap = zeta[sp]`. */
  function RepeatedIndexMatrix<T>(B: Matrix<T>, zeta: seq<T>, sp: seq<nat>): Matrix<T>
    requires B.Valid() && IndexesFit(sp, B, zeta)
  {
    WithDiagonal(Gather(B, sp), Take(zeta, sp))
  }

  /** Bt is |sp|×|sp|, repeats B off the diagonal and zeta on it. */
  lemma RepeatedIndexMatrixAt<T>(B: Matrix<T>, zeta: seq<T>, sp: seq<nat>)
    requires B.Valid() && IndexesFit(sp, B, zeta)
    ensures RepeatedIndexMatrix(B, zeta, sp).Valid()
    ensures RepeatedIndexMatrix(B, zeta, sp).Shape() == (|sp|, |sp|)
    ensures forall a, b | 0 <= a < |sp| && 0 <= b < |sp| ::
      RepeatedIndexMatrix(B, zeta, sp).entries[a][b] == if a == b then zeta[sp[a]] else B.entries[sp[a]][sp[b]]
  {
  }

  /**
   * Rows and columns are gathered by the same list and only the diagonal is
   * replaced, so Bt is symmetric whenever B is.
   */
  lemma RepeatedIndexMatrixSymmetric<T>(B: Matrix<T>, zeta: seq<T>, sp: seq<nat>)
    requires B.Valid() && Symmetric(B)
    requires forall a | 0 <= a < |sp| :: sp[a] < B.rows && sp[a] < |zeta|
    ensures Symmetric(RepeatedIndexMatrix(B, zeta, sp))
  {
    var Bt := RepeatedIndexMatrix(B, zeta, sp);
    RepeatedIndexMatrixAt(B, zeta, sp);
    forall a, b | 0 <= a < |sp| && 0 <= b < |sp|
      ensures Bt.entries[a][b] == Bt.entries[b][a]
    {
      if a != b {
        assert B.entries[sp[a]][sp[b]] == B.entries[sp[b]][sp[a]];
      }
    }
  }

  /**
   * Builds Bt as the source does: the fancy-index gather makes a fresh copy of
   * B, whose diagonal `np.fill_diagonal` then overwrites in place with zeta[sp].
   * B and zeta are values and stay as they were.
   */
  method BuildRepeatedIndexMatrix<T>(B: Matrix<T>, zeta: seq<T>, sp: seq<nat>) returns (Bt: Matrix<T>)
    requires B.Valid() && IndexesFit(sp, B, zeta)
    ensures Bt == RepeatedIndexMatrix(B, zeta, sp)
    ensures Bt.Valid() && Bt.Shape() == (|sp|, |sp|)
    ensures forall a, b | 0 <= a < |sp| && 0 <= b < |sp| ::
      Bt.entries[a][b] == if a == b then zeta[sp[a]] else B.entries[sp[a]][sp[b]]
  {
    var G := Gather(B, sp);
    var size := |sp|;
    var Bp := new T[size, size]((a: int, b: int) requires 0 <= a < size && 0 <= b < size => G.entries[a][b]);
    assert Contents(Bp) == G by {
      SameEntries(Contents(Bp), G);
    }
    var zetap := Take(zeta, sp);
    FillDiagonal(Bp, zetap);
    Bt := Contents(Bp);
    RepeatedIndexMatrixAt(B, zeta, sp);
  }

  /* ---------------------------------------------------------------------- */
  /* The whole bookkeeping of matelem                                       */
  /* ---------------------------------------------------------------------- */

  /** Why `matelem` stops without a value. */
  datatype Error =
    | AssertionFailed(check: ShapeCheck)  // one of the shape assertions
    | NegativeOccupation                  // `math.factorial` rejects a negative entry of p

  /** What `matelem` builds on its way to the amplitude. */
  datatype Bookkeeping<T> = Bookkeeping(ue: Matrix<T>, uep: Matrix<T>, p: seq<int>, sp: seq<nat>,
                                        bt: Matrix<T>, amp: T)

  /** The numeric part supplies B and zeta for the 2l modes (|m| + |n| of them). */
  predicate NumericPart<T>(args: Args<T>, B: Matrix<T>, zeta: seq<T>) {
    args.U.Valid() && args.Up.Valid() && B.Valid() &&
    B.rows == B.cols == |zeta| == |args.m| + |args.n|
  }

  /** No index of S_p is out of range for B and zeta. */
  lemma MultisetFits<T>(args: Args<T>, B: Matrix<T>, zeta: seq<T>)
    requires NumericPart(args, B, zeta)
    ensures IndexesFit(Multiset(Occupations(args.m, args.n)), B, zeta)
  {
    MultisetBounds(Occupations(args.m, args.n));
  }

  /** The loop hafnian is skipped for the 0×0 matrix, whose amplitude is one. */
  function Amplitude<T>(bt: Matrix<T>, hafnian: Matrix<T> -> T, one: T): T {
    if bt.Shape() == (0, 0) then one else hafnian(bt)
  }

  /** The bookkeeping of `matelem` as one value, used to specify the method below. */
  function MatElemSpec<T>(args: Args<T>, B: Matrix<T>, zeta: seq<T>,
                          hafnian: Matrix<T> -> T, zero: T, one: T): Result<Bookkeeping<T>, Error>
    requires NumericPart(args, B, zeta)
  {
    match CheckShapes(args)
    case Some(c) => Failure(AssertionFailed(c))
    case None =>
      ShapesAgree(args);
      var p := Occupations(args.m, args.n);
      if exists k | 0 <= k < |p| :: p[k] < 0 then Failure(NegativeOccupation)
      else
        var sp := Multiset(p);
        MultisetFits(args, B, zeta);
        var bt := RepeatedIndexMatrix(B, zeta, sp);
        Success(Bookkeeping(Extend(args.U, zero, one), Extend(args.Up, zero, one), p, sp, bt,
                            Amplitude(bt, hafnian, one)))
  }

  /**
   * The bookkeeping of `matelem` in the order it is done: the assertions, the
   * extended unitaries, p, the multiset loop, Bt, and the amplitude.
   */
  method MatElem<T>(args: Args<T>, B: Matrix<T>, zeta: seq<T>,
                    hafnian: Matrix<T> -> T, zero: T, one: T) returns (r: Result<Bookkeeping<T>, Error>)
    requires NumericPart(args, B, zeta)
    ensures r == MatElemSpec(args, B, zeta, hafnian, zero, one)
  {
    var failed := CheckShapes(args);
    if failed.Some? {
      return Failure(AssertionFailed(failed.value));
    }
    var ue := Extend(args.U, zero, one);
    var uep := Extend(args.Up, zero, one);
    var p := Occupations(args.m, args.n);
    if exists k | 0 <= k < |p| :: p[k] < 0 {
      return Failure(NegativeOccupation);
    }
    var sp := BuildMultiset(p);
    var bt := BuildRepeatedIndexMatrix(B, zeta, sp);
    var amp := if bt.Shape() == (0, 0) then one else hafnian(bt);
    return Success(Bookkeeping(ue, uep, p, sp, bt, amp));
  }

  /* ---------------------------------------------------------------------- */
  /* What matelem promises                                                  */
  /* ---------------------------------------------------------------------- */

  /**
   * `matelem` fails exactly when a shape assertion fails (reporting the first)
   * or, past them, when an occupation is negative.
   */
  lemma MatElemFails<T>(args: Args<T>, B: Matrix<T>, zeta: seq<T>, hafnian: Matrix<T> -> T, zero: T, one: T)
    requires NumericPart(args, B, zeta)
    ensures MatElemSpec(args, B, zeta, hafnian, zero, one).Success? <==>
      (forall c: ShapeCheck :: Holds(c, args)) &&
      (forall k | 0 <= k < |args.m| :: args.m[k] >= 0) &&
      (forall k | 0 <= k < |args.n| :: args.n[k] >= 0)
    ensures CheckShapes(args).Some? ==>
      MatElemSpec(args, B, zeta, hafnian, zero, one) == Failure(AssertionFailed(CheckShapes(args).value))
  {
    if CheckShapes(args).None? {
      var p := Occupations(args.m, args.n);
      if exists k | 0 <= k < |args.n| :: args.n[k] < 0 {
        var k :| 0 <= k < |args.n| && args.n[k] < 0;
        assert p[|args.m| + k] < 0;
      }
    }
  }

  /** On success, the value is what each step builds, and l agrees with every input. */
  lemma MatElemValue<T>(args: Args<T>, B: Matrix<T>, zeta: seq<T>, hafnian: Matrix<T> -> T, zero: T, one: T)
    requires NumericPart(args, B, zeta)
    requires MatElemSpec(args, B, zeta, hafnian, zero, one).Success?
    ensures CheckShapes(args).None?
    ensures forall k | 0 <= k < |Occupations(args.m, args.n)| :: Occupations(args.m, args.n)[k] >= 0
    ensures IndexesFit(Multiset(Occupations(args.m, args.n)), B, zeta)
    ensures MatElemSpec(args, B, zeta, hafnian, zero, one).value ==
      var p := Occupations(args.m, args.n);
      var bt := RepeatedIndexMatrix(B, zeta, Multiset(p));
      Bookkeeping(Extend(args.U, zero, one), Extend(args.Up, zero, one), p, Multiset(p), bt,
                  Amplitude(bt, hafnian, one))
  {
    MultisetFits(args, B, zeta);
  }

  /** On success, Ue and Uep are the 2l×2l extensions of U and Up. */
  lemma MatElemUnitaries<T>(args: Args<T>, B: Matrix<T>, zeta: seq<T>, hafnian: Matrix<T> -> T, zero: T, one: T)
    requires NumericPart(args, B, zeta)
    requires MatElemSpec(args, B, zeta, hafnian, zero, one).Success?
    ensures var r := MatElemSpec(args, B, zeta, hafnian, zero, one).value;
      && r.ue == Extend(args.U, zero, one) && r.uep == Extend(args.Up, zero, one)
      && r.ue.Shape() == r.uep.Shape() == (2 * args.l, 2 * args.l)
  {
    MatElemValue(args, B, zeta, hafnian, zero, one);
    ShapesAgree(args);
  }

  /** On success, p has 2l entries: the l of m, then the l of n. */
  lemma MatElemOccupations<T>(args: Args<T>, B: Matrix<T>, zeta: seq<T>, hafnian: Matrix<T> -> T, zero: T, one: T)
    requires NumericPart(args, B, zeta)
    requires MatElemSpec(args, B, zeta, hafnian, zero, one).Success?
    ensures var p := MatElemSpec(args, B, zeta, hafnian, zero, one).value.p;
      && args.l >= 0 && |p| == 2 * args.l
      && (forall k | 0 <= k < args.l :: p[k] == args.m[k] && p[args.l + k] == args.n[k])
  {
    MatElemValue(args, B, zeta, hafnian, zero, one);
    ShapesAgree(args);
  }

  /**
   * On success, S_p has sum(m) + sum(n) entries, lists each index k of p
   * exactly p[k] times, is non-decreasing, and indexes the 2l modes only.
   */
  lemma MatElemMultiset<T>(args: Args<T>, B: Matrix<T>, zeta: seq<T>, hafnian: Matrix<T> -> T, zero: T, one: T)
    requires NumericPart(args, B, zeta)
    requires MatElemSpec(args, B, zeta, hafnian, zero, one).Success?
    ensures var r := MatElemSpec(args, B, zeta, hafnian, zero, one).value;
      && |r.sp| == Total(args.m) + Total(args.n)
      && (forall k | 0 <= k < |r.p| :: multiset(r.sp)[k] == r.p[k])
      && (forall i | 0 <= i < |r.sp| :: r.sp[i] < 2 * args.l)
      && (forall i, j | 0 <= i <= j < |r.sp| :: r.sp[i] <= r.sp[j])
  {
    MatElemValue(args, B, zeta, hafnian, zero, one);
    ShapesAgree(args);
    var p := Occupations(args.m, args.n);
    MultisetLength(p);
    TotalConcat(args.m, args.n);
    MultisetBounds(p);
    MultisetSorted(p);
    forall k | 0 <= k < |p|
      ensures multiset(Multiset(p))[k] == p[k]
    {
      MultisetCount(p, k);
    }
  }

  /**
   * On success, Bt is the |S_p|×|S_p| matrix that repeats B's rows and
   * columns by S_p off the diagonal and has zeta[S_p] on the diagonal.
   */
  lemma MatElemMatrix<T>(args: Args<T>, B: Matrix<T>, zeta: seq<T>, hafnian: Matrix<T> -> T, zero: T, one: T)
    requires NumericPart(args, B, zeta)
    requires MatElemSpec(args, B, zeta, hafnian, zero, one).Success?
    ensures var r := MatElemSpec(args, B, zeta, hafnian, zero, one).value;
      && r.bt.Valid() && r.bt.Shape() == (|r.sp|, |r.sp|)
      && (forall i | 0 <= i < |r.sp| :: r.sp[i] < B.rows && r.sp[i] < |zeta|)
      && (forall a, b | 0 <= a < |r.sp| && 0 <= b < |r.sp| ::
            r.bt.entries[a][b] == if a == b then zeta[r.sp[a]] else B.entries[r.sp[a]][r.sp[b]])
  {
    MatElemValue(args, B, zeta, hafnian, zero, one);
    RepeatedIndexMatrixAt(B, zeta, Multiset(Occupations(args.m, args.n)));
  }

  /**
   * On success, Bt is 0×0 exactly when every occupation in m and n is zero;
   * then the amplitude is one, and otherwise it is the loop hafnian of Bt.
   */
  lemma MatElemEmpty<T>(args: Args<T>, B: Matrix<T>, zeta: seq<T>, hafnian: Matrix<T> -> T, zero: T, one: T)
    requires NumericPart(args, B, zeta)
    requires MatElemSpec(args, B, zeta, hafnian, zero, one).Success?
    ensures var r := MatElemSpec(args, B, zeta, hafnian, zero, one).value;
      && (r.bt.Shape() == (0, 0) <==>
            (forall k | 0 <= k < |args.m| :: args.m[k] == 0) && (forall k | 0 <= k < |args.n| :: args.n[k] == 0))
      && r.amp == if r.bt.Shape() == (0, 0) then one else hafnian(r.bt)
  {
    MatElemValue(args, B, zeta, hafnian, zero, one);
    var p := Occupations(args.m, args.n);
    var sp := Multiset(p);
    MultisetEmpty(p);
    RepeatedIndexMatrixAt(B, zeta, sp);
    assert RepeatedIndexMatrix(B, zeta, sp).Shape() == (0, 0) <==> sp == [];
    if forall k | 0 <= k < |p| :: p[k] <= 0 {
      forall k | 0 <= k < |args.n|
        ensures args.n[k] == 0
      {
        assert p[|args.m| + k] == args.n[k];
      }
    }
    if (forall k | 0 <= k < |args.m| :: args.m[k] == 0) && (forall k | 0 <= k < |args.n| :: args.n[k] == 0) {
      forall k | 0 <= k < |p|
        ensures p[k] <= 0
      {
        if k >= |args.m| {
          assert p[k] == args.n[k - |args.m|];
        }
      }
    }
  }

  /** On success, if B is symmetric then so is the matrix handed to the loop hafnian. */
  lemma MatElemSymmetric<T>(args: Args<T>, B: Matrix<T>, zeta: seq<T>, hafnian: Matrix<T> -> T, zero: T, one: T)
    requires NumericPart(args, B, zeta) && Symmetric(B)
    requires MatElemSpec(args, B, zeta, hafnian, zero, one).Success?
    ensures Symmetric(MatElemSpec(args, B, zeta, hafnian, zero, one).value.bt)
  {
    MatElemValue(args, B, zeta, hafnian, zero, one);
    RepeatedIndexMatrixSymmetric(B, zeta, Multiset(Occupations(args.m, args.n)));
  }
}
