/** Sliding-window modular exponentiation. */
module ExpMod {
  import opened Arith
  import opened Divisors
  import opened Bits
  import opened Modular
  import opened Limbs
  import opened MpiBase
  import opened Compare
  import opened Shift
  import opened AddSub
  import opened Modulo
  import opened Montgomery

  /** POLARSSL_MPI_WINDOW_SIZE */
  const WINDOW_SIZE: nat := 6

  /** X stands for u in Montgomery form: X = u * W^n mod N, stored with room for a product. */
  ghost predicate Holds(X: Mpi, N: Mpi, u: int)
    reads X, N
  {
    && |N.p| > 0 && |X.p| >= |N.p| + 1 && X.s == 1 && X.Mag() < N.Mag()
    && Cong(X.Mag(), u * P(|N.p|), N.Mag())
  }

  /** The modulus, its helper limb and the scratch number of one exponentiation. */
  ghost predicate Setting(N: Mpi, mm: Limb, T: Mpi)
    reads N, T
  {
    && T != N && |N.p| > 0 && |T.p| >= 2 * |N.p| + 2 && N.Mag() > 0
    && Cong(N.p[0] * mm, -1, W)
  }

  /** The window table: A^k in Montgomery form at 1 and at every window with its top bit set. */
  ghost predicate Table(tab: seq<Mpi>, N: Mpi, a: int, wsize: nat)
    requires wsize > 0
    reads N, tab
  {
    && Pow2(wsize) <= |tab|
    && forall k :: 0 <= k < Pow2(wsize) && (k == 1 || Pow2(wsize - 1) <= k) ==> Holds(tab[k], N, Pow(a, k))
  }

  /** A Montgomery product of numbers in Montgomery form. */
  method Times(X: Mpi, B: Mpi, N: Mpi, mm: Limb, T: Mpi, ghost u: int, ghost v: int)
    requires Setting(N, mm, T) && X != N && X != T && B != T
    requires Holds(X, N, u) && Holds(B, N, v)
    modifies X, T
    ensures Setting(N, mm, T) && Holds(X, N, u * v)
  {
    ghost var x, b := X.Mag(), B.Mag();
    VBound(N.p, 0, |N.p|);
    HighLimbsZero(X.p, |N.p|, N.Mag());
    MontMul(X, B, N, mm, T);
    ghost var r := InverseOfRadix(N.p, mm);
    ProductForm(X.Mag(), x, b, u, v, P(|N.p|), r, N.Mag());
  }

  /** k squarings. */
  method SquareTimes(X: Mpi, k: nat, N: Mpi, mm: Limb, T: Mpi, ghost a: int, ghost e: nat)
    requires Setting(N, mm, T) && X != N && X != T
    requires Holds(X, N, Pow(a, e))
    modifies X, T
    ensures e * Pow2(k) >= 0
    ensures Setting(N, mm, T) && Holds(X, N, Pow(a, e * Pow2(k)))
  {
    var i := 0;
    ghost var d := e;
    while i < k
      invariant 0 <= i <= k && d == e * Pow2(i)
      invariant Setting(N, mm, T) && Holds(X, N, Pow(a, d))
    {
      PowAdd(a, d, d);
      MulAssoc(e, 2, Pow2(i));
      Times(X, X, N, mm, T, Pow(a, d), Pow(a, d));
      d := d + d;
      i := i + 1;
    }
  }

  /** Fills in the table from W[1]. */
  method BuildTable(tab: seq<Mpi>, wsize: nat, N: Mpi, mm: Limb, T: Mpi, ghost a: int)
    requires wsize > 0 && Pow2(wsize) <= |tab|
    requires forall i, j :: 0 <= i < j < |tab| ==> tab[i] != tab[j]
    requires Setting(N, mm, T) && N !in tab && T !in tab
    requires Holds(tab[1], N, Pow(a, 1))
    modifies tab, T
    ensures Setting(N, mm, T) && Table(tab, N, a, wsize)
  {
    hide Pow2, Pow, P, V, Holds, Setting;
    Pow2Mono(1, wsize);
    Pow2Double(wsize - 1);
    if wsize > 1 {
      var j := Pow2(wsize - 1);
      Pow2Mono(1, wsize - 1);
      CopyHolds(tab[j], tab[1], N, Pow(a, 1));
      SquareTimes(tab[j], wsize - 1, N, mm, T, a, 1);
      var i := j + 1;
      while i < Pow2(wsize)
        invariant j < i <= Pow2(wsize) == 2 * j
        invariant Setting(N, mm, T)
        invariant Holds(tab[1], N, Pow(a, 1))
        invariant forall k :: j <= k < i ==> Holds(tab[k], N, Pow(a, k))
      {
        NextEntry(tab[i], tab[i - 1], tab[1], N, mm, T, a, i - 1);
        i := i + 1;
      }
    }
  }

  /** W[i] := W[i - 1] * W[1]. */
  method NextEntry(X: Mpi, Y: Mpi, W1: Mpi, N: Mpi, mm: Limb, T: Mpi, ghost a: int, ghost k: nat)
    requires Setting(N, mm, T) && X !in {Y, W1, N, T} && Y != T && W1 != T
    requires Holds(Y, N, Pow(a, k)) && Holds(W1, N, Pow(a, 1))
    modifies X, T
    ensures Setting(N, mm, T) && Holds(X, N, Pow(a, k + 1))
  {
    hide Pow, P, V;
    CopyHolds(X, Y, N, Pow(a, k));
    PowAdd(a, k, 1);
    Times(X, W1, N, mm, T, Pow(a, k), Pow(a, 1));
  }

  method CopyHolds(X: Mpi, Y: Mpi, N: Mpi, ghost u: int)
    requires X != Y && X != N && Holds(Y, N, u)
    modifies X
    ensures Holds(X, N, u)
  {
    X.Grow(|N.p| + 1);
    X.Copy(Y);
  }

  /** Where the scan stands: the exponent bits taken so far are done * 2^nbits + w, with the
      nbits bits of w waiting in the window. */
  ghost predicate ScanState(taken: nat, done: nat, wsize: nat, nbits: nat, wbits: nat, w: nat, state: nat)
  {
    && nbits < wsize && taken == done * Pow2(nbits) + w
    && wbits == w * Pow2(wsize - nbits)
    && state <= 2
    && (state < 2 <==> nbits == 0)
    && (state == 0 ==> taken == 0)
    && if nbits == 0 then w == 0 else Pow2(nbits - 1) <= w < Pow2(nbits)
  }

  /** The main loop over the bits of E, from the top. */
  method Scan(X: Mpi, E: Mpi, tab: seq<Mpi>, wsize: nat, N: Mpi, mm: Limb, T: Mpi, ghost a: int)
    returns (nbits: nat, wbits: nat, ghost done: nat, ghost w: nat)
    requires wsize > 0 && Setting(N, mm, T) && Table(tab, N, a, wsize)
    requires X != N && X != T && X != E && T != E && X !in tab && T !in tab
    requires Holds(X, N, Pow(a, 0))
    modifies X, T
    ensures Setting(N, mm, T) && Table(tab, N, a, wsize) && Holds(X, N, Pow(a, done))
    ensures ScanState(E.Mag(), done, wsize, nbits, wbits, w, if nbits == 0 then 1 else 2)
  {
    hide Pow2, Pow, P, V, Holds, Table, Setting, ScanState, BitLen;
    var nblimbs, bufsize, state: nat := |E.p|, 0, 0;
    nbits, wbits, done, w := 0, 0, 0, 0;
    ScanStart(wsize);
    MulNat(BIL, nblimbs);
    ghost var pos: nat := BIL * nblimbs;
    ghost var taken := 0;
    AllTaken(E.p);
    while true
      invariant 0 <= nblimbs <= |E.p| && 0 <= bufsize <= BIL && (bufsize == 0 || nblimbs < |E.p|)
      invariant pos == BIL * nblimbs + bufsize && taken == E.Mag() / Pow2(pos)
      invariant Setting(N, mm, T) && Table(tab, N, a, wsize) && Holds(X, N, Pow(a, done))
      invariant ScanState(taken, done, wsize, nbits, wbits, w, state)
      decreases pos
    {
      if bufsize == 0 {
        if nblimbs == 0 { break; }
        MulDistSub(nblimbs, 1, BIL);
        nblimbs := nblimbs - 1;
        bufsize := BIL;
      }
      bufsize := bufsize - 1;
      var ei := Bit(E.p[nblimbs], bufsize);
      pos := pos - 1;
      NextBit(E.p, nblimbs, bufsize, pos);
      nbits, wbits, state, done, w := OneBit(X, ei, tab, wsize, N, mm, T, nbits, wbits, state, a, taken, done, w);
      taken := 2 * taken + ei;
    }
    ScanEnd(taken, done, wsize, nbits, wbits, w, state);
    DivUnique(E.Mag(), 1, E.Mag(), 0);
    Pow2Double(0);
  }

  /** One bit of the exponent: skipped before the first 1, squared alone outside a window,
      or added to the window, which is used up once it is full. */
  method OneBit(X: Mpi, ei: nat, tab: seq<Mpi>, wsize: nat, N: Mpi, mm: Limb, T: Mpi,
                nbits0: nat, wbits0: nat, state0: nat, ghost a: int, ghost taken: nat, ghost done0: nat, ghost w0: nat)
    returns (nbits: nat, wbits: nat, state: nat, ghost done: nat, ghost w: nat)
    requires wsize > 0 && Setting(N, mm, T) && Table(tab, N, a, wsize) && ei <= 1
    requires X != N && X != T && X !in tab && T !in tab
    requires Holds(X, N, Pow(a, done0)) && ScanState(taken, done0, wsize, nbits0, wbits0, w0, state0)
    modifies X, T
    ensures Setting(N, mm, T) && Table(tab, N, a, wsize) && Holds(X, N, Pow(a, done))
    ensures ScanState(2 * taken + ei, done, wsize, nbits, wbits, w, state)
  {
    hide Pow2, Pow, P, V;
    nbits, wbits, state, done, w := nbits0, wbits0, state0, done0, w0;
    if ei == 0 && state == 0 { return; }
    if ei == 0 && state == 1 {
      PowAdd(a, done, done);
      SquareStep(taken, done, wsize, wbits, w);
      Times(X, X, N, mm, T, Pow(a, done), Pow(a, done));
      done := done + done;
      return;
    }
    WindowStep(taken, done, wsize, nbits, wbits, w, state, ei);
    state := 2;
    nbits := nbits + 1;
    wbits := wbits + ei * Pow2(wsize - nbits);
    w := 2 * w + ei;
    if nbits == wsize {
      FullWindow(X, tab[wbits], wsize, N, mm, T, a, done, w);
      done := done * Pow2(wsize) + w;
      state := state - 1;
      nbits, wbits, w := 0, 0, 0;
    }
  }

  /** X := X^(2^wsize) * W[w]. */
  method FullWindow(X: Mpi, B: Mpi, wsize: nat, N: Mpi, mm: Limb, T: Mpi, ghost a: int, ghost done: nat, ghost w: nat)
    requires Setting(N, mm, T) && X != N && X != T && B != T && B != X
    requires Holds(X, N, Pow(a, done)) && Holds(B, N, Pow(a, w))
    modifies X, T
    ensures done * Pow2(wsize) >= 0
    ensures Setting(N, mm, T) && Holds(X, N, Pow(a, done * Pow2(wsize) + w))
  {
    SquareTimes(X, wsize, N, mm, T, a, done);
    ghost var d := done * Pow2(wsize);
    PowAdd(a, d, w);
    Times(X, B, N, mm, T, Pow(a, d), Pow(a, w));
  }

  /** The bits left in the window are taken one at a time. */
  method Rest(X: Mpi, W1: Mpi, wsize: nat, nbits: nat, window: nat, N: Mpi, mm: Limb, T: Mpi,
              ghost a: int, ghost done: nat, ghost w: nat)
    requires nbits < wsize && window == w * Pow2(wsize - nbits) && w < Pow2(nbits)
    requires Setting(N, mm, T) && X != N && X != T && W1 != T && W1 != X
    requires Holds(X, N, Pow(a, done)) && Holds(W1, N, Pow(a, 1))
    modifies X, T
    ensures done * Pow2(nbits) + w >= 0
    ensures Setting(N, mm, T) && Holds(X, N, Pow(a, done * Pow2(nbits) + w))
  {
    var i, wbits := 0, window;
    ghost var d := done;
    DivUnique(w, Pow2(nbits), 0, w);
    while i < nbits
      invariant 0 <= i <= nbits
      invariant wbits == w * Pow2(wsize - nbits + i)
      invariant d == done * Pow2(i) + w / Pow2(nbits - i)
      invariant Setting(N, mm, T)
      invariant Holds(X, N, Pow(a, d)) && Holds(W1, N, Pow(a, 1))
    {
      PowAdd(a, d, d);
      Times(X, X, N, mm, T, Pow(a, d), Pow(a, d));
      wbits := wbits * 2;
      RestStep(w, nbits, i, wsize, done, d, wbits);
      d := d + d;
      if Bit(wbits, wsize) != 0 {
        PowAdd(a, d, 1);
        Times(X, W1, N, mm, T, Pow(a, d), Pow(a, 1));
        d := d + 1;
      }
      i := i + 1;
    }
  }

  /** The window size chosen from the length of the exponent. */
  function WindowFor(bits: nat): (w: nat)
    ensures 0 < w <= WINDOW_SIZE
  {
    var w := if bits > 671 then 6 else if bits > 239 then 5 else
             if bits > 79 then 4 else if bits > 23 then 3 else 1;
    if w > WINDOW_SIZE then WINDOW_SIZE else w
  }

  /** mpi_exp_mod: X := A^E mod N. RR, when given, holds W^2n mod N from an earlier call with
      the same N, or has no limbs yet and is filled in. */
  method ExpModMpi(X: Mpi, A: Mpi, E: Mpi, N: Mpi, RR: Mpi?) returns (ret: Status)
    requires |A.p| > 0 && |E.p| > 0 && |N.p| > 0
    requires X != E && X != N && RR != X && RR != A && RR != E && RR != N
    requires RR != null && |RR.p| > 0 && N.Value() > 0 ==> RR.s == 1 && RR.Value() == P(2 * |N.p|) % N.Value()
    modifies X, RR
    ensures ret == if old(N.Value()) < 0 || old(N.p)[0] % 2 == 0 || old(E.Value()) < 0 then BadInputData else Ok
    ensures !ret.Ok? ==> X.s == old(X.s) && X.p == old(X.p)
    ensures !ret.Ok? && RR != null ==> unchanged(RR)
    ensures ret.Ok? ==> N.Value() > 0
    ensures ret.Ok? && old(A.s) == 1 ==> X.Value() == Pow(old(A.Value()), E.Mag()) % N.Value()
    ensures ret.Ok? && old(A.s) == -1 ==> X.Value() == N.Value() - Pow(old(A.Mag()), E.Mag()) % N.Value()
    ensures ret.Ok? && RR != null ==> |RR.p| > 0 && RR.s == 1 && RR.Value() == P(2 * |N.p|) % N.Value()
  {
    WFacts();
    var order := CmpInt(N, 0);
    if order < 0 || N.p[0] % 2 == 0 { return BadInputData; }
    order := CmpInt(E, 0);
    if order < 0 { return BadInputData; }
    Parity(N.p);
    ExpModOk(X, A, E, N, RR);
    ret := Ok;
  }

  /** The exponentiation proper, once the arguments have been accepted. */
  method ExpModOk(X: Mpi, A: Mpi, E: Mpi, N: Mpi, RR: Mpi?)
    requires |A.p| > 0 && |E.p| > 0 && |N.p| > 0 && N.Value() > 0 && N.p[0] % 2 == 1
    requires X != E && X != N && RR != X && RR != A && RR != E && RR != N
    requires RR != null && |RR.p| > 0 ==> RR.s == 1 && RR.Value() == P(2 * |N.p|) % N.Value()
    modifies X, RR
    ensures old(A.s) == 1 ==> X.Value() == Pow(old(A.Value()), E.Mag()) % N.Value()
    ensures old(A.s) == -1 ==> X.Value() == N.Value() - Pow(old(A.Mag()), E.Mag()) % N.Value()
    ensures RR != null ==> |RR.p| > 0 && RR.s == 1 && RR.Value() == P(2 * |N.p|) % N.Value()
  {
    hide Pow2, Pow, P, V;
    var mm := MontgInit(N.p[0]);
    var bits := E.Msb();
    var wsize := WindowFor(bits);
    var neg := A.s == -1;
    var A' := A;
    if neg {
      A' := new Mpi();
      A'.Copy(A);
      A'.s := 1;
    }
    var R2 := SquareOfRadix(N, RR);
    X.Grow(|N.p| + 1);
    var T := new Mpi();
    T.Grow((|N.p| + 1) * 2);
    Power(X, A', E, N, R2, mm, T, wsize);
    if neg {
      X.s := -1;
      AddMpi(X, N, X);
    }
  }

  /** W^2n mod N, taken from the cache or computed and cached. */
  method SquareOfRadix(N: Mpi, RR: Mpi?) returns (R2: Mpi)
    requires |N.p| > 0 && N.Value() > 0 && RR != N
    requires RR != null && |RR.p| > 0 ==> RR.s == 1 && RR.Value() == P(2 * |N.p|) % N.Value()
    modifies RR
    ensures fresh(R2) && |R2.p| > 0 && R2.s == 1 && R2.Mag() == P(2 * |N.p|) % N.Value()
    ensures RR != null ==> |RR.p| > 0 && RR.s == 1 && RR.Value() == P(2 * |N.p|) % N.Value()
  {
    R2 := new Mpi();
    if RR == null || |RR.p| == 0 {
      WFacts();
      R2.Lset(1);
      PPow2(2 * |N.p|);
      MulAssoc(BIL, 2, |N.p|);
      MulNat(BIL, 2 * |N.p|);
      ShiftL(R2, BIL * (2 * |N.p|));
      var _ := ModMpi(R2, R2, N);
      if RR != null { RR.s, RR.p := R2.s, R2.p; }
    } else {
      R2.s, R2.p := RR.s, RR.p;
    }
  }

  /** The exponentiation of a number that is not negative, with any window size. */
  method Power(X: Mpi, A: Mpi, E: Mpi, N: Mpi, R2: Mpi, mm: Limb, T: Mpi, wsize: nat)
    requires |A.p| > 0 && |E.p| > 0 && A.s == 1 && N.s == 1 && 0 < wsize <= WINDOW_SIZE
    requires X != E && X != N && |X.p| >= |N.p| + 1
    requires R2 != X && R2 != N && R2 != A && |R2.p| > 0 && R2.s == 1 && T !in {X, A, E, N, R2}
    requires Setting(N, mm, T) && R2.Mag() == P(2 * |N.p|) % N.Mag()
    modifies X, T
    ensures X.s == 1 && |X.p| > 0 && X.Value() == Pow(old(A.Mag()), E.Mag()) % N.Value()
  {
    hide Holds, P;
    ghost var a, e := A.Mag(), E.Mag();
    var tab := NewTable(2 * Pow2(WINDOW_SIZE));
    Pow2Mono(wsize, WINDOW_SIZE);
    Pow2Mono(1, WINDOW_SIZE);
    FirstPower(tab[1], A, N, R2, mm, T);
    UnitPower(X, N, R2, mm, T);
    BuildTable(tab, wsize, N, mm, T, a);
    var nbits, wbits;
    ghost var done, w;
    nbits, wbits, done, w := Scan(X, E, tab, wsize, N, mm, T, a);
    Pow2Mono(1, wsize);
    Rest(X, tab[1], wsize, nbits, wbits, N, mm, T, a, done, w);
    Finish(X, N, mm, T, Pow(a, e));
  }

  method NewTable(n: nat) returns (tab: seq<Mpi>)
    ensures |tab| == n && fresh(tab)
    ensures forall i, j :: 0 <= i < j < n ==> tab[i] != tab[j]
    ensures forall i :: 0 <= i < n ==> tab[i].p == [] && tab[i].s == 1
  {
    tab := [];
    while |tab| < n
      invariant |tab| <= n && fresh(tab)
      invariant forall i, j :: 0 <= i < j < |tab| ==> tab[i] != tab[j]
      invariant forall i :: 0 <= i < |tab| ==> tab[i].p == [] && tab[i].s == 1
    {
      var M := new Mpi();
      tab := tab + [M];
    }
  }

  /** W[1] := A * R^2 * R^-1 = A * R mod N. */
  method FirstPower(W1: Mpi, A: Mpi, N: Mpi, R2: Mpi, mm: Limb, T: Mpi)
    requires W1 !in {A, N, R2, T} && |A.p| > 0 && A.s == 1 && N.s == 1
    requires R2 != T && |R2.p| > 0 && A != T
    requires Setting(N, mm, T) && R2.Mag() == P(2 * |N.p|) % N.Mag()
    modifies W1, T
    ensures Setting(N, mm, T) && Holds(W1, N, Pow(A.Mag(), 1))
  {
    W1.Grow(|N.p| + 1);
    var order := CmpMpi(A, N);
    if order >= 0 {
      var _ := ModMpi(W1, A, N);
    } else {
      W1.Copy(A);
      DivUnique(A.Mag(), N.Mag(), 0, A.Mag());
    }
    ghost var x := W1.Mag();
    VBound(N.p, 0, |N.p|);
    HighLimbsZero(W1.p, |N.p|, N.Mag());
    MontMul(W1, R2, N, mm, T);
    ghost var r := InverseOfRadix(N.p, mm);
    FirstForm(W1.Mag(), x, A.Mag(), R2.Mag(), |N.p|, r, N.Mag());
  }

  /** X := R^2 * R^-1 = R mod N. */
  method UnitPower(X: Mpi, N: Mpi, R2: Mpi, mm: Limb, T: Mpi)
    requires X !in {N, R2, T} && R2 != T && |R2.p| > 0 && R2.s == 1 && |X.p| >= |N.p| + 1
    requires Setting(N, mm, T) && R2.Mag() == P(2 * |N.p|) % N.Mag()
    modifies X, T
    ensures Setting(N, mm, T) && Holds(X, N, 1)
  {
    X.Copy(R2);
    ghost var x := X.Mag();
    VBound(N.p, 0, |N.p|);
    HighLimbsZero(X.p, |N.p|, N.Mag());
    MontRed(X, N, mm, T);
    ghost var r := InverseOfRadix(N.p, mm);
    UnitForm(X.Mag(), x, |N.p|, r, N.Mag());
  }

  /** X := X * R^-1 mod N: out of Montgomery form. */
  method Finish(X: Mpi, N: Mpi, mm: Limb, T: Mpi, ghost u: int)
    requires Setting(N, mm, T) && X != N && X != T && Holds(X, N, u)
    modifies X, T
    ensures X.s == 1 && |X.p| > 0 && X.Mag() == u % N.Mag()
  {
    ghost var x := X.Mag();
    VBound(N.p, 0, |N.p|);
    HighLimbsZero(X.p, |N.p|, N.Mag());
    MontRed(X, N, mm, T);
    ghost var r := InverseOfRadix(N.p, mm);
    CongTrans(X.Mag() * P(|N.p|), x, u * P(|N.p|), N.Mag());
    CongCancel(X.Mag(), u, P(|N.p|), r, N.Mag());
    CongSameMod(X.Mag(), u, N.Mag());
    DivUnique(X.Mag(), N.Mag(), 0, X.Mag());
  }

  // ----- a negative base -----

  /** What the code leaves for a negative base equals the power exactly when the exponent is odd
      and the power is not a multiple of N. */
  lemma NegativeBaseIff(a: int, e: nat, n: nat)
    requires a >= 0 && n % 2 == 1
    ensures n - Pow(a, e) % n == Pow(-a, e) % n <==> e % 2 == 1 && Pow(a, e) % n != 0
  {
    var x := Pow(a, e);
    PowNegated(a, e);
    DivMod(x, n);
    if e % 2 == 1 { NegativeRemainder(x, n); }
  }

  /** So for a base coprime to N it is right exactly when the exponent is odd. */
  lemma CoprimeNegativeBaseIff(a: int, e: nat, n: nat)
    requires a >= 0 && n % 2 == 1 && n > 1 && Gcd(a, n) == 1
    ensures n - Pow(a, e) % n == Pow(-a, e) % n <==> e % 2 == 1
  {
    hide Pow, Gcd;
    NegativeBaseIff(a, e, n);
    PowCoprime(a, e, n);
  }

  lemma {:induction false} PowCoprime(a: nat, e: nat, n: nat)
    requires n > 1 && Gcd(a, n) == 1
    ensures Pow(a, e) > 0 && Pow(a, e) % n != 0
  {
    hide Gcd;
    if e > 0 {
      var f := Pow(a, e - 1);
      PowCoprime(a, e - 1, n);
      GcdScale(a, n, f);
      MulMod(f, n);
      MulComm(f, n);
      GcdDivisors(n, a * f, n * f);
      if a == 0 { GcdZero(n); }
      MulPos(a, f);
    } else {
      DivUnique(1, n, 0, 1);
    }
  }

  lemma GcdZero(n: nat)
    requires n > 0
    ensures Gcd(0, n) == n
  {
    GcdSym(0, n);
  }

  /** (-2)^2 modulo 5 comes out as 1. */
  lemma NegativeBaseCounterexample()
    ensures 5 - Pow(2, 2) % 5 == 1 && Pow(-2, 2) % 5 == 4
  {
    assert Pow(2, 2) == 4;
    assert Pow(-2, 2) == 4;
  }

  lemma {:induction false} PowNegated(a: int, e: nat)
    ensures a >= 0 ==> Pow(a, e) >= 0
    ensures Pow(-a, e) == if e % 2 == 0 then Pow(a, e) else -Pow(a, e)
  {
    if e > 0 {
      PowNegated(a, e - 1);
      MulDistSub(0, a, Pow(a, e - 1));
      if a >= 0 { MulNat(a, Pow(a, e - 1)); }
    }
  }

  // ----- Montgomery form -----

  /** An odd modulus has an inverse of the radix: N * mm = -1 modulo W says which. */
  lemma InverseOfRadix(s: seq<Limb>, mm: Limb) returns (r: int)
    requires |s| > 0 && Val(s) > 0 && Cong(s[0] * mm, -1, W)
    ensures Cong(P(|s|) * r, 1, Val(s))
  {
    VFirst(s, 0, |s|);
    var hi := V(s, 1, |s| - 1);
    var j := CongWitness(s[0] * mm, -1, W);
    var k := j + hi * mm;
    InverseAlgebra(s[0], hi, mm, j);
    CongFrom(W * k, 1, mm, Val(s));
    r := Pow(k, |s|);
    InversePower(k, |s|, Val(s));
  }

  lemma InverseAlgebra(s0: int, hi: int, mm: int, j: int)
    requires s0 * mm == -1 + j * W
    ensures W * (j + hi * mm) == 1 + mm * (s0 + hi * W)
  {
    MulDist(j, hi * mm, W);
    MulDist(s0, hi * W, mm);
    MulComm(W, j);
    MulComm(s0, mm);
    MulAssoc(hi, mm, W);
    MulAssoc(mm, hi, W);
    MulComm(mm, hi);
    MulComm(W, hi * mm);
  }

  lemma {:induction false} InversePower(k: int, n: nat, N: nat)
    requires N > 0 && Cong(W * k, 1, N)
    ensures Cong(P(n) * Pow(k, n), 1, N)
  {
    if n == 0 {
      CongRefl(1, N);
    } else {
      InversePower(k, n - 1, N);
      CongMul(W * k, 1, P(n - 1) * Pow(k, n - 1), 1, N);
      Regroup(W, k, P(n - 1), Pow(k, n - 1));
    }
  }

  lemma Regroup(a: int, b: int, c: int, d: int)
    ensures (a * b) * (c * d) == (a * c) * (b * d)
  {}

  lemma ProductForm(y: int, x: int, b: int, u: int, v: int, R: int, r: int, n: int)
    requires n > 0 && Cong(y * R, x * b, n) && Cong(x, u * R, n) && Cong(b, v * R, n) && Cong(R * r, 1, n)
    ensures Cong(y, (u * v) * R, n)
  {
    CongMul(x, u * R, b, v * R, n);
    CongTrans(y * R, x * b, (u * R) * (v * R), n);
    Regroup(u, R, v, R);
    MulAssoc(u * v, R, R);
    CongCancel(y, (u * v) * R, R, r, n);
  }

  lemma FirstForm(y: nat, x: nat, a: nat, r2: nat, k: nat, r: int, n: nat)
    requires n > 0 && Cong(y * P(k), x * r2, n) && x == a % n && r2 == P(2 * k) % n && Cong(P(k) * r, 1, n)
    ensures Cong(y, Pow(a, 1) * P(k), n)
  {
    assert Pow(a, 1) == a * Pow(a, 0);
    CongMod(a, n);
    CongMod(P(2 * k), n);
    CongMul(x, a, r2, P(2 * k), n);
    CongTrans(y * P(k), x * r2, a * P(2 * k), n);
    PAdd(k, k);
    MulAssoc(a, P(k), P(k));
    CongCancel(y, a * P(k), P(k), r, n);
  }

  lemma UnitForm(y: nat, x: nat, k: nat, r: int, n: nat)
    requires n > 0 && Cong(y * P(k), x, n) && x == P(2 * k) % n && Cong(P(k) * r, 1, n)
    ensures Cong(y, 1 * P(k), n)
  {
    CongMod(P(2 * k), n);
    CongTrans(y * P(k), x, P(2 * k), n);
    PAdd(k, k);
    CongCancel(y, P(k), P(k), r, n);
  }

  // ----- the bits of the exponent -----

  lemma AllTaken(s: seq<Limb>)
    ensures BIL * |s| >= 0 && Val(s) / Pow2(BIL * |s|) == 0
  {
    VBound(s, 0, |s|);
    PPow2(|s|);
    DivUnique(Val(s), P(|s|), 0, Val(s));
  }

  /** The next bit down, read from its limb. */
  lemma NextBit(s: seq<Limb>, k: nat, b: nat, pos: nat)
    requires k < |s| && b < BIL && pos == BIL * k + b
    ensures Val(s) / Pow2(pos) == 2 * (Val(s) / Pow2(pos + 1)) + Bit(s[k], b)
    ensures 0 <= Val(s) / Pow2(pos)
  {
    hide P, V;
    var v := Val(s);
    DivNat(v, Pow2(pos));
    PPow2(k);
    Pow2Split(BIL * k, b, pos);
    HighPart(s, k);
    VFirst(s, k, |s| - k);
    DivDiv(v, P(k), Pow2(b));
    FieldOf(s[k], V(s, k + 1, |s| - k - 1), BIL, b, 1);
    Pow2Split(pos, 1, pos + 1);
    assert Pow2(1) == 2;
    DivDiv(v, Pow2(pos), 2);
  }

  lemma ScanStart(wsize: nat)
    requires wsize > 0
    ensures ScanState(0, 0, wsize, 0, 0, 0, 0)
  {}

  lemma ScanEnd(e: nat, done: nat, wsize: nat, nbits: nat, wbits: nat, w: nat, state: nat)
    requires ScanState(e, done, wsize, nbits, wbits, w, state)
    ensures ScanState(e, done, wsize, nbits, wbits, w, if nbits == 0 then 1 else 2)
  {}

  /** The scan state after a bit joins the window. */
  lemma WindowStep(e: nat, done: nat, wsize: nat, nbits: nat, wbits: nat, w: nat, state: nat, ei: nat)
    requires ScanState(e, done, wsize, nbits, wbits, w, state)
    requires ei <= 1 && !(ei == 0 && state < 2)
    ensures var w', wbits' := 2 * w + ei, wbits + ei * Pow2(wsize - nbits - 1);
            if nbits + 1 < wsize then
              ScanState(2 * e + ei, done, wsize, nbits + 1, wbits', w', 2)
            else
              && wbits' == w' && Pow2(wsize - 1) <= w' < Pow2(wsize)
              && done * Pow2(wsize) >= 0
              && ScanState(2 * e + ei, done * Pow2(wsize) + w', wsize, 0, 0, 0, 1)
  {
    MulNat(done, Pow2(wsize));
    MulAssoc(done, 2, Pow2(nbits));
    var p := Pow2(wsize - nbits - 1);
    assert Pow2(wsize - nbits) == 2 * p;
    MulAssoc(w, 2, p);
    MulDist(2 * w, ei, p);
    if nbits > 0 { assert Pow2(nbits) == 2 * Pow2(nbits - 1); }
  }

  lemma SquareStep(e: nat, done: nat, wsize: nat, wbits: nat, w: nat)
    requires ScanState(e, done, wsize, 0, wbits, w, 1)
    ensures ScanState(2 * e, done + done, wsize, 0, wbits, w, 1)
  {}

  lemma RestStep(w: nat, nbits: nat, i: nat, wsize: nat, done: nat, d: nat, wbits: nat)
    requires i < nbits < wsize && wbits == (w * Pow2(wsize - nbits + i)) * 2
    requires d == done * Pow2(i) + w / Pow2(nbits - i)
    ensures wbits == w * Pow2(wsize - nbits + i + 1)
    ensures Bit(wbits, wsize) <= 1
    ensures d + d + Bit(wbits, wsize) == done * Pow2(i + 1) + w / Pow2(nbits - i - 1)
  {
    var j, m := wsize - nbits + i + 1, nbits - i - 1;
    MulAssoc(w, 2, Pow2(j - 1));
    assert Pow2(j) == 2 * Pow2(j - 1);
    MulAssoc(done, 2, Pow2(i));
    assert Pow2(i + 1) == 2 * Pow2(i);
    Pow2Split(j, m, wsize);
    DivDiv(wbits, Pow2(j), Pow2(m));
    MulMod(w, Pow2(j));
    Pow2Split(m, 1, m + 1);
    assert Pow2(1) == 2;
    DivDiv(w, Pow2(m), 2);
  }
}
