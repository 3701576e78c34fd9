/**
  The internal interleaver of the turbo code
  (internal/std-t115/qpsknarrow/fec/interleaver.go; 3GPP TS 25.212, section
  4.2.3.2.3): a rectangle of R rows and C columns is filled row by row, its rows
  are permuted by powers of a primitive root and among themselves, and it is
  read column by column.

  `Pattern(k)` is the specification; it is proved to be a permutation and
  `TurboInterleaver` to compute it.
  */
module Interleaver {
  import opened Words
  import opened NumberTheory
  import opened Residues
  import opened RootTable
  import opened LeastRoots

  /** The largest block the generator table has a rectangle for. */
  const MAX_BLOCK := 5160

  // ---------------------------------------------------------------- the rectangle

  function RowCount(k: nat): (R: nat)
    ensures R == 5 || R == 10 || R == 20
  {
    if 40 <= k <= 159 then 5
    else if 160 <= k <= 200 || 481 <= k <= 530 then 10
    else 20
  }

  predicate Special(k: nat) { 481 <= k <= 530 }

  /** What a rectangle of `R` rows and `p+1` columns holds. */
  function Capacity(R: nat, p: nat): nat { R * (p + 1) }

  /** First table entry whose rectangle can hold `k` values. */
  function FirstFit(k: nat, R: nat, i: nat): (e: nat)
    requires i < TABLE_SIZE
    ensures i <= e < TABLE_SIZE
    decreases TABLE_SIZE - i
  {
    if k <= Capacity(R, Entry(i).0) || i == TABLE_SIZE - 1 then i else FirstFit(k, R, i + 1)
  }

  lemma {:induction false} FirstFitHolds(k: nat, R: nat, i: nat)
    requires i < TABLE_SIZE && k <= Capacity(R, Entry(TABLE_SIZE - 1).0)
    ensures k <= Capacity(R, Entry(FirstFit(k, R, i)).0)
    decreases TABLE_SIZE - i
  {
    hide Entry, Capacity;
    if k > Capacity(R, Entry(i).0) { FirstFitHolds(k, R, i + 1); }
  }

  lemma Fits(k: nat)
    requires k <= MAX_BLOCK
    ensures k <= Capacity(RowCount(k), Entry(FirstFit(k, RowCount(k), 0)).0)
  {
    assert Entry(TABLE_SIZE - 1).0 == 257;
    FirstFitHolds(k, RowCount(k), 0);
  }

  /** Rows, prime, generator and columns. */
  datatype Shape = Shape(R: nat, p: nat, v: nat, C: nat) {
    /** What the selection guarantees for a block of `k`. */
    ghost predicate Holds(k: nat) {
      && (R == 5 || R == 10 || R == 20)
      && PrimitiveRoot(p, v)
      && (C == p - 1 || C == p || C == p + 1)
      && k <= R * C
    }
  }

  function Columns(k: nat, R: nat, p: nat): nat
    requires p > 0
  {
    if k <= R * (p - 1) then p - 1 else if k <= R * p then p else p + 1
  }

  function ShapeOf(k: nat): Shape
    requires k <= MAX_BLOCK
  {
    var R := RowCount(k);
    if Special(k) then Shape(R, 53, 2, 53)
    else
      var e := Entry(FirstFit(k, R, 0));
      Shape(R, e.0, e.1, if e.0 > 0 then Columns(k, R, e.0) else 0)
  }

  lemma ShapeHolds(k: nat)
    requires k <= MAX_BLOCK
    ensures ShapeOf(k).Holds(k)
  {
    hide PrimitiveRoot, Entry;
    Fits(k);
    if Special(k) {
      Roots12();
    } else {
      var i := FirstFit(k, RowCount(k), 0);
      TableRoots(i);
      RootExceeds(Entry(i).0, Entry(i).1);
    }
  }

  method SelectShape(k: nat) returns (sh: Shape)
    requires k <= MAX_BLOCK
    ensures sh == ShapeOf(k)
  {
    hide PrimitiveRoot, Entry, Capacity;
    var R := RowCount(k);
    if 481 <= k <= 530 {
      return Shape(R, 53, 2, 53);
    }
    Fits(k);
    var i := 0;
    while k > Capacity(R, Entry(i).0)
      invariant 0 <= i < TABLE_SIZE && FirstFit(k, R, 0) == FirstFit(k, R, i)
      decreases TABLE_SIZE - i
    {
      i := i + 1;
    }
    var e := Entry(i);
    TableRoots(i);
    RootExceeds(e.0, e.1);
    sh := Shape(R, e.0, e.1, Columns(k, R, e.0));
  }

  // ---------------------------------------------------------------- inter-row order

  function Inter20(i: nat): nat
    requires i < 20
  {
    match i
    case 0 => 19 case 1 => 9 case 2 => 14 case 3 => 4 case 4 => 0
    case 5 => 2 case 6 => 5 case 7 => 7 case 8 => 12 case 9 => 18
    case 10 => 10 case 11 => 8 case 12 => 13 case 13 => 17 case 14 => 3
    case 15 => 1 case 16 => 16 case 17 => 6 case 18 => 15 case _ => 11
  }

  function Inter20Alt(i: nat): nat
    requires i < 20
  {
    match i
    case 0 => 19 case 1 => 9 case 2 => 14 case 3 => 4 case 4 => 0
    case 5 => 2 case 6 => 5 case 7 => 7 case 8 => 12 case 9 => 18
    case 10 => 16 case 11 => 13 case 12 => 17 case 13 => 15 case 14 => 3
    case 15 => 1 case 16 => 6 case 17 => 11 case 18 => 8 case _ => 10
  }

  /** The original row that is read in place `i`. */
  function RowSource(k: nat, R: nat, i: nat): nat
    requires i < R && (R == 5 || R == 10 || R == 20)
  {
    if R == 5 || R == 10 then R - 1 - i
    else if 2281 <= k <= 2480 || 3161 <= k <= 3210 then Inter20Alt(i)
    else Inter20(i)
  }

  lemma RowSourceInjective(k: nat, R: nat, i: nat, j: nat)
    requires i < R && j < R && (R == 5 || R == 10 || R == 20)
    ensures RowSource(k, R, i) < R
    ensures RowSource(k, R, i) == RowSource(k, R, j) ==> i == j
  {
  }

  // ---------------------------------------------------------------- row factors

  ghost predicate Suitable(c: int, m: nat) { IsPrime(c) && Gcd(c, m) == 1 }

  /** Where the search after `prev` starts: above 6 and above `prev`. */
  function SearchStart(prev: nat): nat { if prev <= 6 then 7 else prev + 1 }

  /** `c` is the least prime above 6 and `prev` that is coprime to `m`. */
  ghost predicate IsNextFactor(prev: nat, m: nat, c: nat) {
    Suitable(c, m) && c >= SearchStart(prev) && forall d | SearchStart(prev) <= d < c :: !Suitable(d, m)
  }

  /** The unbounded search succeeds, because primes above `m` are coprime to it. */
  lemma SuitableAbove(n: nat, m: nat) returns (c: nat)
    requires m > 0
    ensures c >= n && Suitable(c, m)
  {
    c := PrimeAbove(n + m);
    PrimeCoprime(c, m);
  }

  ghost function LeastSuitable(n: nat, m: nat, bound: nat): (c: nat)
    requires n <= bound && Suitable(bound, m)
    ensures n <= c <= bound && Suitable(c, m) && forall d | n <= d < c :: !Suitable(d, m)
    decreases bound - n
  {
    if Suitable(n, m) then n else LeastSuitable(n + 1, m, bound)
  }

  lemma NextFactorExists(prev: nat, m: nat)
    requires m > 0
    ensures exists c :: IsNextFactor(prev, m, c)
  {
    var bound := SuitableAbove(SearchStart(prev), m);
    var c := LeastSuitable(SearchStart(prev), m, bound);
    assert IsNextFactor(prev, m, c);
  }

  ghost function NextFactor(prev: nat, m: nat): (c: nat)
    requires m > 0
    ensures IsNextFactor(prev, m, c)
  {
    NextFactorExists(prev, m);
    var c :| IsNextFactor(prev, m, c);
    c
  }

  lemma NextFactorUnique(prev: nat, m: nat, c: nat)
    requires m > 0 && IsNextFactor(prev, m, c)
    ensures c == NextFactor(prev, m)
  {
    var d := NextFactor(prev, m);
    assert c >= d && d >= c by { hide Suitable; }
  }

  /** The factor of the row read in place `i`. */
  ghost function Factor(i: nat, m: nat): (q: nat)
    requires m > 0
  {
    if i == 0 then 1 else NextFactor(Factor(i - 1, m), m)
  }

  lemma FactorCoprime(i: nat, m: nat)
    requires m > 0
    ensures Gcd(Factor(i, m), m) == 1
  {
    hide IsPrime;
    if i == 0 {
      GcdIsGreatest(1, m, 1);
      DivisorBound(Gcd(1, m), 1);
    }
  }

  /** The search loop for one factor, from `start`. */
  method FindNext(prev: nat, start: nat, m: nat) returns (c: nat)
    requires m > 0 && start == SearchStart(prev)
    ensures c == NextFactor(prev, m)
  {
    ghost var bound := SuitableAbove(start, m);
    c := start;
    hide IsPrime;
    while true
      invariant start <= c <= bound && Suitable(bound, m)
      invariant forall d | start <= d < c :: !Suitable(d, m)
      decreases bound - c
    {
      var prime := TestPrime(c);
      var g := ComputeGcd(c, m);
      if prime && c > 6 && c > prev && g == 1 {
        break;
      }
      c := c + 1;
    }
    NextFactorUnique(prev, m, c);
  }

  method FindFactors(R: nat, m: nat) returns (q: seq<nat>)
    requires R > 0 && m > 0
    ensures |q| == R && forall i | 0 <= i < R :: q[i] == Factor(i, m)
  {
    hide NextFactor, IsNextFactor;
    q := [1];
    var c := 7;
    var i := 1;
    while i < R
      invariant 1 <= i <= R && |q| == i && c == SearchStart(q[i - 1])
      invariant forall j | 0 <= j < i :: q[j] == Factor(j, m)
    {
      c := FindNext(q[i - 1], c, m);
      NextFactorAbove(q[i - 1], m);
      q := q + [c];
      c := c + 1;
      i := i + 1;
    }
  }

  lemma NextFactorAbove(prev: nat, m: nat)
    requires m > 0
    ensures NextFactor(prev, m) > 6
  {
  }

  // ---------------------------------------------------------------- intra-row permutation

  /** Base sequence element for exponent `e`. */
  function Base(sh: Shape, e: nat): (r: nat)
    requires sh.p > 1
    ensures r < sh.p
  {
    PowMod(sh.v, e, sh.p)
  }

  lemma BaseRange(sh: Shape, e: nat)
    requires PrimitiveRoot(sh.p, sh.v) && e < sh.p - 1
    ensures 1 <= Base(sh, e) <= sh.p - 1
  {
    RootPowerRange(sh.p, sh.v, e);
  }

  /** Powers of a primitive root below `p-1` are distinct. */
  lemma BaseInjective(sh: Shape, e: nat, f: nat)
    requires PrimitiveRoot(sh.p, sh.v) && e < sh.p - 1 && f < sh.p - 1 && Base(sh, e) == Base(sh, f)
    ensures e == f
  {
    if e < f {
      RootPowersDistinct(sh.p, sh.v, e, f);
    } else if f < e {
      RootPowersDistinct(sh.p, sh.v, f, e);
    }
  }

  function Exponent(j: nat, r: nat, m: nat): (e: nat)
    requires m > 0
    ensures e < m
  {
    (j * r) % m
  }

  /** Column of the original row `src` that is moved to column `j`, with row factor `r`. */
  function Column(k: nat, sh: Shape, src: nat, r: nat, j: nat): int
    requires sh.p > 2
  {
    if j >= sh.p then (if Swapped(k, sh, src) then Base(sh, Exponent(0, r, sh.p - 1)) else sh.p)
    else if j == sh.p - 1 then 0
    else if j == 0 && Swapped(k, sh, src) then sh.p
    else if sh.C == sh.p - 1 then Base(sh, Exponent(j, r, sh.p - 1)) - 1
    else Base(sh, Exponent(j, r, sh.p - 1))
  }

  /** In a full rectangle with `p+1` columns the last row has its ends exchanged. */
  predicate Swapped(k: nat, sh: Shape, src: nat) {
    sh.C == sh.p + 1 && k == sh.R * sh.C && src == sh.R - 1
  }

  lemma ColumnRange(k: nat, sh: Shape, src: nat, r: nat, j: nat)
    requires sh.Holds(k) && j < sh.C
    ensures 0 <= Column(k, sh, src, r, j) < sh.C
  {
    hide Exponent, Base;
    BaseRange(sh, Exponent(j, r, sh.p - 1));
    BaseRange(sh, Exponent(0, r, sh.p - 1));
  }

  /** Each row is permuted: the exponents `j*r` are distinct modulo `p-1`, and so are the powers. */
  lemma ColumnInjective(k: nat, sh: Shape, src: nat, r: nat, i: nat, j: nat)
    requires sh.Holds(k) && i < sh.C && j < sh.C && Gcd(r, sh.p - 1) == 1
    requires Column(k, sh, src, r, i) == Column(k, sh, src, r, j)
    ensures i == j
  {
    var m := sh.p - 1;
    var x, y := if i >= sh.p then 0 else i, if j >= sh.p then 0 else j;
    if x < m { PowersInjective(sh, r, 0, x); BaseRange(sh, Exponent(x, r, m)); }
    if y < m { PowersInjective(sh, r, 0, y); BaseRange(sh, Exponent(y, r, m)); }
    if x < m && y < m { PowersInjective(sh, r, x, y); }
    BaseRange(sh, Exponent(0, r, m));
    hide Base, Exponent, PrimitiveRoot;
  }

  lemma PowersInjective(sh: Shape, r: nat, i: nat, j: nat)
    requires PrimitiveRoot(sh.p, sh.v) && i < sh.p - 1 && j < sh.p - 1 && Gcd(r, sh.p - 1) == 1
    ensures Base(sh, Exponent(i, r, sh.p - 1)) == Base(sh, Exponent(j, r, sh.p - 1)) ==> i == j
  {
    var m := sh.p - 1;
    if Base(sh, Exponent(i, r, m)) == Base(sh, Exponent(j, r, m)) {
      BaseInjective(sh, Exponent(i, r, m), Exponent(j, r, m));
      CoprimeInjective(m, r, i, j);
    }
  }

  // ---------------------------------------------------------------- the pattern

  /** Address of a column in a row of width `C`. */
  function Address(row: nat, C: nat, col: int): int { row * C + col }

  lemma AddressParts(row: nat, C: nat, col: int)
    requires 0 <= col < C
    ensures Address(row, C, col) >= 0 && Address(row, C, col) / C == row && Address(row, C, col) % C == col
  {
    assert row * C >= 0;
    ModUnique(Address(row, C, col), C, row, col);
  }

  lemma AddressOf(x: nat, R: nat, C: nat)
    requires C > 0 && x < Address(R, C, 0)
    ensures x / C < R && Address(x / C, C, x % C) == x
  {
    QuotientBelow(x, R, C);
  }

  /** What is read from place `(i, j)` of the permuted rectangle. */
  ghost function Cell(k: nat, sh: Shape, i: nat, j: nat): int
    requires sh.Holds(k) && i < sh.R
  {
    Address(RowSource(k, sh.R, i), sh.C, Column(k, sh, RowSource(k, sh.R, i), Factor(i, sh.p - 1), j))
  }

  /** The first `n` rows of column `j`, pruned to values below `k`. */
  ghost function ReadRows(k: nat, sh: Shape, j: nat, n: nat): seq<int>
    requires sh.Holds(k) && n <= sh.R
  {
    if n == 0 then []
    else ReadRows(k, sh, j, n - 1) + (if Cell(k, sh, n - 1, j) < k then [Cell(k, sh, n - 1, j)] else [])
  }

  ghost function ReadColumns(k: nat, sh: Shape, n: nat): seq<int>
    requires sh.Holds(k)
  {
    if n == 0 then [] else ReadColumns(k, sh, n - 1) + ReadRows(k, sh, n - 1, sh.R)
  }

  /** The interleaving pattern of a block of `k`. */
  ghost function Pattern(k: nat): seq<int>
    requires k <= MAX_BLOCK
  {
    ShapeHolds(k);
    ReadColumns(k, ShapeOf(k), ShapeOf(k).C)
  }

  // ---------------------------------------------------------------- permutations

  ghost predicate Distinct(s: seq<int>) {
    forall i, j | 0 <= i < j < |s| :: s[i] != s[j]
  }

  ghost predicate IsPermutation(s: seq<int>, k: nat) {
    && |s| == k
    && (forall i | 0 <= i < k :: 0 <= s[i] < k)
    && Distinct(s)
  }

  function Range(n: nat): (r: set<int>)
    ensures forall x :: x in r <==> 0 <= x < n
  {
    if n == 0 then {} else Range(n - 1) + {n - 1}
  }

  lemma {:induction false} RangeSize(n: nat)
    ensures |Range(n)| == n
  {
    if n > 0 {
      RangeSize(n - 1);
    }
  }

  function Elements(s: seq<int>): (r: set<int>)
    ensures forall x :: x in r <==> x in s
  {
    set x | x in s
  }

  lemma {:induction false} ElementsSize(s: seq<int>)
    requires Distinct(s)
    ensures |Elements(s)| == |s|
  {
    if s != [] {
      var t, x := s[..|s| - 1], s[|s| - 1];
      ElementsSize(t);
      assert s == t + [x];
      assert Elements(s) == Elements(t) + {x};
      assert x !in t;
    }
  }

  lemma SubsetSize(a: set<int>, b: set<int>)
    requires a <= b
    ensures |a| <= |b|
    ensures |a| == |b| ==> a == b
  {
    assert b == a + (b - a);
  }

  /** Pigeonhole: `n` distinct values below `n` are all of them. */
  lemma Onto(s: seq<int>, n: nat, x: int)
    requires IsPermutation(s, n) && 0 <= x < n
    ensures x in s
  {
    ElementsSize(s);
    RangeSize(n);
    SubsetSize(Elements(s), Range(n));
  }

  /** Distinct values that are exactly the numbers below `n` are `n` many. */
  lemma CountAll(s: seq<int>, n: nat)
    requires Distinct(s) && forall x :: x in s <==> 0 <= x < n
    ensures IsPermutation(s, n)
  {
    ElementsSize(s);
    RangeSize(n);
    assert Elements(s) == Range(n);
    forall i | 0 <= i < |s|
      ensures 0 <= s[i] < n
    {
      assert s[i] in s;
    }
  }

  // ---------------------------------------------------------------- the cells are a bijection

  lemma CellInjective(k: nat, sh: Shape, i: nat, j: nat, i': nat, j': nat)
    requires sh.Holds(k) && i < sh.R && i' < sh.R && j < sh.C && j' < sh.C
    requires Cell(k, sh, i, j) == Cell(k, sh, i', j')
    ensures i == i' && j == j'
  {
    var src, src' := RowSource(k, sh.R, i), RowSource(k, sh.R, i');
    var r, r' := Factor(i, sh.p - 1), Factor(i', sh.p - 1);
    ColumnRange(k, sh, src, r, j);
    ColumnRange(k, sh, src', r', j');
    AddressParts(src, sh.C, Column(k, sh, src, r, j));
    AddressParts(src', sh.C, Column(k, sh, src', r', j'));
    hide Column, RowSource, Factor, Address;
    RowSourceInjective(k, sh.R, i, i');
    FactorCoprime(i, sh.p - 1);
    ColumnInjective(k, sh, src, r, j, j');
  }

  lemma RowsCovered(k: nat, R: nat, src: nat) returns (i: nat)
    requires src < R && (R == 5 || R == 10 || R == 20)
    ensures i < R && RowSource(k, R, i) == src
  {
    var rows: seq<int> := seq(R, i requires 0 <= i < R => RowSource(k, R, i));
    forall a, b | 0 <= a < b < R
      ensures rows[a] != rows[b]
    {
      RowSourceInjective(k, R, a, b);
    }
    forall a | 0 <= a < R
      ensures 0 <= rows[a] < R
    {
      RowSourceInjective(k, R, a, a);
    }
    Onto(rows, R, src);
    i :| 0 <= i < R && rows[i] == src;
  }

  lemma ColumnsCovered(k: nat, sh: Shape, src: nat, r: nat, u: nat) returns (j: nat)
    requires sh.Holds(k) && Gcd(r, sh.p - 1) == 1 && u < sh.C
    ensures j < sh.C && Column(k, sh, src, r, j) == u
  {
    hide Column;
    var row: seq<int> := seq(sh.C, j requires 0 <= j < sh.C => Column(k, sh, src, r, j));
    forall a, b | 0 <= a < b < sh.C
      ensures row[a] != row[b]
    {
      if row[a] == row[b] { ColumnInjective(k, sh, src, r, a, b); }
    }
    forall a | 0 <= a < sh.C
      ensures 0 <= row[a] < sh.C
    {
      ColumnRange(k, sh, src, r, a);
    }
    Onto(row, sh.C, u);
    j :| 0 <= j < sh.C && row[j] == u;
  }

  /** Every value below `k` is read from some place. */
  lemma CellsCovered(k: nat, sh: Shape, x: nat) returns (i: nat, j: nat)
    requires sh.Holds(k) && x < k
    ensures i < sh.R && j < sh.C && Cell(k, sh, i, j) == x
  {
    hide Column, RowSource, Factor;
    var src := x / sh.C;
    AddressOf(x, sh.R, sh.C);
    i := RowsCovered(k, sh.R, src);
    FactorCoprime(i, sh.p - 1);
    j := ColumnsCovered(k, sh, src, Factor(i, sh.p - 1), x % sh.C);
  }

  lemma QuotientBelow(x: nat, R: nat, C: nat)
    requires C > 0 && x < R * C
    ensures x / C < R
  {
    var q := x / C;
    assert x == C * q + x % C;
    if q >= R { MulMono(R, q, C, C); }
  }

  // ---------------------------------------------------------------- reading

  lemma {:induction false} ReadRowsElements(k: nat, sh: Shape, j: nat, n: nat, x: int)
    requires sh.Holds(k) && n <= sh.R
    ensures x in ReadRows(k, sh, j, n) <==> x < k && exists i: nat :: i < n && Cell(k, sh, i, j) == x
  {
    hide Cell;
    if n > 0 {
      ReadRowsElements(k, sh, j, n - 1, x);
      if Cell(k, sh, n - 1, j) == x { assert n - 1 < n; }
    }
  }

  lemma {:induction false} ReadColumnsElements(k: nat, sh: Shape, n: nat, x: int)
    requires sh.Holds(k)
    ensures x in ReadColumns(k, sh, n)
      <==> x < k && exists i: nat, j: nat :: i < sh.R && j < n && Cell(k, sh, i, j) == x
  {
    hide Cell, ReadRows;
    if n > 0 {
      ReadColumnsElements(k, sh, n - 1, x);
      ReadRowsElements(k, sh, n - 1, sh.R, x);
      if x in ReadRows(k, sh, n - 1, sh.R) {
        var i: nat :| i < sh.R && Cell(k, sh, i, n - 1) == x;
        assert n - 1 < n;
      }
    }
  }

  lemma DistinctAppend(s: seq<int>, t: seq<int>)
    requires Distinct(s) && Distinct(t) && forall x | x in s :: x !in t
    ensures Distinct(s + t)
  {
    forall i, j | 0 <= i < j < |s + t|
      ensures (s + t)[i] != (s + t)[j]
    {
      if i < |s| <= j { assert s[i] in s && t[j - |s|] in t; }
    }
  }

  lemma {:induction false} ReadRowsDistinct(k: nat, sh: Shape, j: nat, n: nat)
    requires sh.Holds(k) && n <= sh.R && j < sh.C
    ensures Distinct(ReadRows(k, sh, j, n))
  {
    hide Cell;
    if n > 0 {
      ReadRowsDistinct(k, sh, j, n - 1);
      var s, x := ReadRows(k, sh, j, n - 1), Cell(k, sh, n - 1, j);
      ReadRowsElements(k, sh, j, n - 1, x);
      if x in s {
        var i: nat :| i < n - 1 && Cell(k, sh, i, j) == x;
        CellInjective(k, sh, i, j, n - 1, j);
      }
      DistinctAppend(s, if x < k then [x] else []);
    }
  }

  lemma {:induction false} ReadColumnsDistinct(k: nat, sh: Shape, n: nat)
    requires sh.Holds(k) && n <= sh.C
    ensures Distinct(ReadColumns(k, sh, n))
  {
    hide Cell, ReadRows;
    if n > 0 {
      ReadColumnsDistinct(k, sh, n - 1);
      ReadRowsDistinct(k, sh, n - 1, sh.R);
      var s, t := ReadColumns(k, sh, n - 1), ReadRows(k, sh, n - 1, sh.R);
      forall x | x in s
        ensures x !in t
      {
        ColumnsDisjoint(k, sh, n, x);
      }
      DistinctAppend(s, t);
    }
  }

  lemma ColumnsDisjoint(k: nat, sh: Shape, n: nat, x: int)
    requires sh.Holds(k) && 0 < n <= sh.C && x in ReadColumns(k, sh, n - 1)
    ensures x !in ReadRows(k, sh, n - 1, sh.R)
  {
    hide Cell, ReadRows, ReadColumns;
    ReadColumnsElements(k, sh, n - 1, x);
    ReadRowsElements(k, sh, n - 1, sh.R, x);
    if x in ReadRows(k, sh, n - 1, sh.R) {
      var i: nat :| i < sh.R && Cell(k, sh, i, n - 1) == x;
      var i': nat, j: nat :| i' < sh.R && j < n - 1 && Cell(k, sh, i', j) == x;
      CellInjective(k, sh, i, n - 1, i', j);
    }
  }

  /** The interleaver permutes `0..k`: pruning keeps exactly `k` places. */
  lemma PatternPermutes(k: nat)
    requires k <= MAX_BLOCK
    ensures IsPermutation(Pattern(k), k)
  {
    ShapeHolds(k);
    var sh := ShapeOf(k);
    ReadColumnsDistinct(k, sh, sh.C);
    forall x
      ensures x in Pattern(k) <==> 0 <= x < k
    {
      ReadColumnsElements(k, sh, sh.C, x);
      if x in Pattern(k) {
        var i: nat, j: nat :| i < sh.R && j < sh.C && Cell(k, sh, i, j) == x;
        CellNonNegative(k, sh, i, j);
      }
      if 0 <= x < k {
        var i, j := CellsCovered(k, sh, x);
      }
    }
    CountAll(Pattern(k), k);
  }

  lemma CellNonNegative(k: nat, sh: Shape, i: nat, j: nat)
    requires sh.Holds(k) && i < sh.R && j < sh.C
    ensures Cell(k, sh, i, j) >= 0
  {
    hide Column, RowSource, Factor, Address;
    var src, r := RowSource(k, sh.R, i), Factor(i, sh.p - 1);
    ColumnRange(k, sh, src, r, j);
    AddressParts(src, sh.C, Column(k, sh, src, r, j));
  }

  // ---------------------------------------------------------------- the pattern in closed form

  /** The rectangle for a block of `k`: the least prime from 7 on and the least width that hold it, and the least root. */
  ghost predicate Rectangle(k: nat, R: nat, p: nat, v: nat, C: nat) {
    && R == (if 40 <= k <= 159 then 5 else if 160 <= k <= 200 || 481 <= k <= 530 then 10 else 20)
    && IsPrime(p) && p >= 7 && PrimitiveRoot(p, v) && (forall w | 0 <= w < v :: !PrimitiveRoot(p, w))
    && (if 481 <= k <= 530 then p == 53 && C == 53
        else
          && (forall r | IsPrime(r) && 7 <= r < p :: k > R * (r + 1))
          && (C == p - 1 || C == p || C == p + 1) && k <= R * C && (C > p - 1 ==> k > R * (C - 1)))
  }

  /** The multipliers of the rows: 1, then the primes above 6 coprime to `m`, in order, none skipped. */
  ghost predicate Multipliers(q: seq<nat>, R: nat, m: nat) {
    && |q| == R > 0 && q[0] == 1
    && (forall i | 0 < i < R :: IsPrime(q[i]) && q[i] > 6 && Gcd(q[i], m) == 1)
    && (forall i, j | 0 <= i < j < R :: q[i] < q[j])
    && (forall d: nat | IsPrime(d) && d > 6 && Gcd(d, m) == 1 && d < q[R - 1] :: d in q)
  }

  /** The order in which the rows are read. */
  function RowOrder(k: nat, R: nat): seq<nat> {
    if R == 5 then [4, 3, 2, 1, 0]
    else if R == 10 then [9, 8, 7, 6, 5, 4, 3, 2, 1, 0]
    else if 2281 <= k <= 2480 || 3161 <= k <= 3210
    then [19, 9, 14, 4, 0, 2, 5, 7, 12, 18, 16, 13, 17, 15, 3, 1, 6, 11, 8, 10]
    else [19, 9, 14, 4, 0, 2, 5, 7, 12, 18, 10, 8, 13, 17, 3, 1, 16, 6, 15, 11]
  }

  /**
    What stands in column `j` of the row that is read at place `i`: a power of `v`, lowered by 1 in the
    narrow rectangle; 0 and `p` in the last columns; in the last row of a full wide rectangle the ends
    are exchanged.
    */
  function Stored(k: nat, R: nat, p: nat, v: nat, C: nat, q: seq<nat>, i: nat, j: nat): int
    requires p > 2 && i < |q| && i < |RowOrder(k, R)|
  {
    var row := RowOrder(k, R)[i];
    var power: int := PowMod(v, (j * q[i]) % (p - 1), p);
    var exchanged := C == p + 1 && k == R * C && row == R - 1;
    row * C + (if exchanged && j == 0 then p
               else if exchanged && j == p then 1
               else if j == p then p
               else if j == p - 1 then 0
               else if C == p - 1 then power - 1 else power)
  }

  /** Column by column, within a column from the first row on. */
  predicate ReadBefore(a: (nat, nat), b: (nat, nat)) { a.1 < b.1 || (a.1 == b.1 && a.0 < b.0) }

  /** `perm` lists the stored values below `k` in the order of reading; `place` says where each one stands. */
  ghost predicate ReadOutAt(k: nat, R: nat, p: nat, v: nat, C: nat, q: seq<nat>, perm: seq<int>, place: seq<(nat, nat)>) {
    && p > 2 && |q| == R == |RowOrder(k, R)| && |place| == |perm|
    && (forall n | 0 <= n < |perm| :: place[n].0 < R && place[n].1 < C
                                      && perm[n] == Stored(k, R, p, v, C, q, place[n].0, place[n].1))
    && (forall m, n | 0 <= m < n < |perm| :: ReadBefore(place[m], place[n]))
  }

  /** The permutation of the standard, without reference to how it is computed. */
  ghost predicate Interleaves(k: nat, perm: seq<int>) {
    exists R: nat, p: nat, v: nat, C: nat, q: seq<nat>, place: seq<(nat, nat)> ::
      && Rectangle(k, R, p, v, C) && p > 2 && Multipliers(q, R, p - 1)
      && ReadOutAt(k, R, p, v, C, q, perm, place)
  }

  lemma RowOrderIs(k: nat, R: nat, i: nat)
    requires i < R && (R == 5 || R == 10 || R == 20)
    ensures |RowOrder(k, R)| == R && RowOrder(k, R)[i] == RowSource(k, R, i)
  {
  }

  ghost function Factors(R: nat, m: nat): (q: seq<nat>)
    requires m > 0
    ensures |q| == R && forall i | 0 <= i < R :: q[i] == Factor(i, m)
  {
    seq(R, i requires 0 <= i < R => Factor(i, m))
  }

  lemma FactorRises(i: nat, m: nat)
    requires m > 0
    ensures IsNextFactor(Factor(i, m), m, Factor(i + 1, m)) && Factor(i, m) < Factor(i + 1, m)
  {
    hide IsPrime;
  }

  lemma {:induction false} FactorsRise(i: nat, j: nat, m: nat)
    requires m > 0 && i < j
    ensures Factor(i, m) < Factor(j, m)
  {
    hide Factor;
    FactorRises(j - 1, m);
    if i < j - 1 { FactorsRise(i, j - 1, m); }
  }

  /** No suitable prime is skipped. */
  lemma {:induction false} NoneSkipped(d: nat, n: nat, m: nat) returns (i: nat)
    requires m > 0 && Suitable(d, m) && d > 6 && d < Factor(n, m)
    ensures 0 < i < n && Factor(i, m) == d
    decreases n
  {
    hide Factor, Suitable;
    FactorZero(m);
    assert n > 0;
    FactorRises(n - 1, m);
    var prev := Factor(n - 1, m);
    if d == prev {
      i := n - 1;
    } else {
      assert !(SearchStart(prev) <= d);
      i := NoneSkipped(d, n - 1, m);
    }
  }

  lemma FactorZero(m: nat)
    requires m > 0
    ensures Factor(0, m) == 1
  {
  }

  lemma FactorsAre(R: nat, m: nat)
    requires R > 0 && m > 0
    ensures Multipliers(Factors(R, m), R, m)
  {
    hide Factor, IsPrime;
    var q := Factors(R, m);
    FactorZero(m);
    forall i | 0 < i < R
      ensures IsPrime(q[i]) && q[i] > 6 && Gcd(q[i], m) == 1
    {
      FactorRises(i - 1, m);
    }
    forall i, j | 0 <= i < j < R
      ensures q[i] < q[j]
    {
      FactorsRise(i, j, m);
    }
    forall d: nat | IsPrime(d) && d > 6 && Gcd(d, m) == 1 && d < q[R - 1]
      ensures d in q
    {
      var i := NoneSkipped(d, R - 1, m);
      assert q[i] == d;
    }
  }

  lemma CellIsStored(k: nat, sh: Shape, q: seq<nat>, i: nat, j: nat)
    requires sh.Holds(k) && i < sh.R && j < sh.C && q == Factors(sh.R, sh.p - 1) && sh.p > 2
    ensures |RowOrder(k, sh.R)| == sh.R && Cell(k, sh, i, j) == Stored(k, sh.R, sh.p, sh.v, sh.C, q, i, j)
  {
    hide Factor, PrimitiveRoot, RowSource, RowOrder;
    RowOrderIs(k, sh.R, i);
    PowerZero(sh.v, sh.p);
    assert (0 * q[i]) % (sh.p - 1) == 0;
  }

  lemma PowerZero(v: nat, p: nat)
    requires p > 1
    ensures PowMod(v, 0, p) == 1
  {
  }

  ghost predicate Listed(k: nat, sh: Shape, q: seq<nat>, perm: seq<int>, place: seq<(nat, nat)>) {
    ReadOutAt(k, sh.R, sh.p, sh.v, sh.C, q, perm, place)
  }

  lemma {:induction false} RowsListed(k: nat, sh: Shape, q: seq<nat>, j: nat, n: nat, before: seq<int>, place: seq<(nat, nat)>)
    returns (all: seq<(nat, nat)>)
    requires sh.Holds(k) && n <= sh.R && j < sh.C && q == Factors(sh.R, sh.p - 1) && sh.p > 2
    requires Listed(k, sh, q, before, place) && forall m | 0 <= m < |place| :: place[m].1 < j
    ensures Listed(k, sh, q, before + ReadRows(k, sh, j, n), all)
    ensures forall m | 0 <= m < |all| :: ReadBefore(all[m], (n, j))
  {
    hide Cell, Stored, Factors;
    if n == 0 {
      all := place;
      assert before + [] == before;
    } else {
      all := RowsListed(k, sh, q, j, n - 1, before, place);
      CellIsStored(k, sh, q, n - 1, j);
      var x := Cell(k, sh, n - 1, j);
      var rows := ReadRows(k, sh, j, n - 1);
      if x < k {
        assert before + (rows + [x]) == (before + rows) + [x];
        ListedSnoc(k, sh, q, before + rows, all, n - 1, j);
        all := all + [(n - 1, j)];
      } else {
        assert rows + [] == rows;
      }
    }
  }

  lemma ListedSnoc(k: nat, sh: Shape, q: seq<nat>, perm: seq<int>, place: seq<(nat, nat)>, i: nat, j: nat)
    requires Listed(k, sh, q, perm, place) && i < sh.R && j < sh.C
    requires forall m | 0 <= m < |place| :: ReadBefore(place[m], (i, j))
    ensures Listed(k, sh, q, perm + [Stored(k, sh.R, sh.p, sh.v, sh.C, q, i, j)], place + [(i, j)])
  {
    hide Stored;
  }

  lemma {:induction false} ColumnsListed(k: nat, sh: Shape, q: seq<nat>, n: nat) returns (place: seq<(nat, nat)>)
    requires sh.Holds(k) && n <= sh.C && q == Factors(sh.R, sh.p - 1) && sh.p > 2
    ensures Listed(k, sh, q, ReadColumns(k, sh, n), place) && forall m | 0 <= m < |place| :: place[m].1 < n
  {
    hide Stored, ReadRows, Factors;
    if n == 0 {
      place := [];
      NothingListed(k, sh, q);
    } else {
      place := ColumnsListed(k, sh, q, n - 1);
      place := RowsListed(k, sh, q, n - 1, sh.R, ReadColumns(k, sh, n - 1), place);
    }
  }

  lemma NothingListed(k: nat, sh: Shape, q: seq<nat>)
    requires sh.Holds(k) && sh.p > 2 && |q| == sh.R
    ensures Listed(k, sh, q, [], [])
  {
  }

  lemma {:induction false} FirstFitIsFirst(k: nat, R: nat, i: nat, j: nat)
    requires i < TABLE_SIZE && i <= j < FirstFit(k, R, i)
    ensures k > Capacity(R, Entry(j).0)
    decreases j - i
  {
    hide Entry, Capacity;
    if i < j { FirstFitIsFirst(k, R, i + 1, j); }
  }

  lemma ShapeIsRectangle(k: nat)
    requires k <= MAX_BLOCK
    ensures var sh := ShapeOf(k); Rectangle(k, sh.R, sh.p, sh.v, sh.C)
  {
    hide PrimitiveRoot, Entry, IsPrime;
    ShapeHolds(k);
    var sh := ShapeOf(k);
    RootIsPrime(sh.p, sh.v);
    RootExceeds(sh.p, sh.v);
    if Special(k) {
      EntryOf53();
      ShapeRoot(sh, 12);
    } else {
      Fits(k);
      var e := FirstFit(k, sh.R, 0);
      TableRises(e);
      ShapeRoot(sh, e);
      forall r | IsPrime(r) && 7 <= r < sh.p
        ensures k > sh.R * (r + 1)
      {
        PrimeBelow(k, sh.R, e, r);
      }
    }
  }

  lemma EntryOf53()
    ensures Entry(12) == (53, 2)
  {
  }

  lemma ShapeRoot(sh: Shape, e: nat)
    requires e < TABLE_SIZE && Entry(e) == (sh.p, sh.v)
    ensures forall w | 0 <= w < sh.v :: !PrimitiveRoot(sh.p, w)
  {
    hide PrimitiveRoot, Entry;
    forall w | 0 <= w < sh.v
      ensures !PrimitiveRoot(sh.p, w)
    {
      LeastRoot(e, w);
    }
  }

  /** A smaller prime stands earlier in the table, so its rectangle was too small. */
  lemma PrimeBelow(k: nat, R: nat, e: nat, r: nat)
    requires e < TABLE_SIZE && e == FirstFit(k, R, 0) && IsPrime(r) && 7 <= r < Entry(e).0
    ensures k > R * (r + 1)
  {
    hide Entry, IsPrime;
    LastEntry(e);
    AllPrimes(r);
    var i: nat :| i < TABLE_SIZE && Entry(i).0 == r;
    if i >= e {
      TableOrder(e, i);
    } else {
      FirstFitIsFirst(k, R, 0, i);
    }
  }

  lemma LastEntry(e: nat)
    requires e < TABLE_SIZE
    ensures Entry(e).0 <= 257
  {
  }

  lemma TableRises(i: nat)
    requires i < TABLE_SIZE
    ensures Entry(i).0 >= 7 && (i + 1 < TABLE_SIZE ==> Entry(i).0 < Entry(i + 1).0)
  {
  }

  lemma {:induction false} TableOrder(i: nat, j: nat)
    requires i <= j < TABLE_SIZE
    ensures Entry(i).0 <= Entry(j).0
  {
    hide Entry;
    if i < j {
      TableOrder(i, j - 1);
      TableRises(j - 1);
    }
  }

  /** The pattern is the permutation of the standard. */
  lemma PatternInterleaves(k: nat)
    requires k <= MAX_BLOCK
    ensures Interleaves(k, Pattern(k))
  {
    hide PrimitiveRoot, Rectangle, Multipliers, ReadColumns, Factors;
    ShapeHolds(k);
    var sh := ShapeOf(k);
    RootExceeds(sh.p, sh.v);
    ShapeIsRectangle(k);
    FactorsAre(sh.R, sh.p - 1);
    var place := ColumnsListed(k, sh, Factors(sh.R, sh.p - 1), sh.C);
    hide ReadOutAt;
    PatternIs(k);
  }

  lemma PatternIs(k: nat)
    requires k <= MAX_BLOCK
    ensures ShapeOf(k).Holds(k) && Pattern(k) == ReadColumns(k, ShapeOf(k), ShapeOf(k).C)
  {
    ShapeHolds(k);
  }

  // ---------------------------------------------------------------- the program

  method BaseSequence(p: nat, v: nat) returns (s: seq<nat>)
    requires p > 2
    ensures |s| == p - 1 && forall j | 0 <= j < p - 1 :: s[j] == PowMod(v, j, p)
  {
    s := [1];
    var j := 1;
    while j < p - 1
      invariant 1 <= j <= p - 1 && |s| == j
      invariant forall i | 0 <= i < j :: s[i] == PowMod(v, i, p)
    {
      PowModNext(p, v, j - 1);
      s := s + [(v * s[j - 1]) % p];
      j := j + 1;
    }
  }

  method BuildRow(k: nat, sh: Shape, s: seq<nat>, src: nat, r: nat) returns (row: array<int>)
    requires sh.Holds(k) && |s| == sh.p - 1 && forall j | 0 <= j < sh.p - 1 :: s[j] == Base(sh, j)
    ensures fresh(row) && row.Length == sh.C
    ensures forall j | 0 <= j < sh.C :: row[j] == Column(k, sh, src, r, j)
  {
    hide PrimitiveRoot, Base, Exponent;
    var p := sh.p;
    RootExceeds(p, sh.v);
    row := new int[sh.C](_ => 0);
    var lift: int := if sh.C == p || sh.C == p + 1 then 0 else 1;
    var j := 0;
    while j < p - 1
      invariant 0 <= j <= p - 1
      invariant forall i | 0 <= i < j :: row[i] == Base(sh, Exponent(i, r, p - 1)) as int - lift
    {
      var power: int := s[Exponent(j, r, p - 1)];
      row[j] := power - lift;
      j := j + 1;
    }
    if sh.C == p {
      row[p - 1] := 0;
    } else if sh.C == p + 1 {
      row[p - 1] := 0;
      row[p] := p;
      if k == sh.R * sh.C && src == sh.R - 1 {
        row[p], row[0] := row[0], row[p];
      }
    }
  }

  method TurboInterleaver(k: nat) returns (perm: seq<int>)
    requires k <= MAX_BLOCK
    ensures perm == Pattern(k)
    ensures IsPermutation(perm, k)
    ensures Interleaves(k, perm)
  {
    hide Interleaves;
    var sh := SelectShape(k);
    ShapeHolds(k);
    PatternPermutes(k);
    PatternInterleaves(k);
    perm := Fill(k, sh);
  }

  method Fill(k: nat, sh: Shape) returns (perm: seq<int>)
    requires sh.Holds(k)
    ensures perm == ReadColumns(k, sh, sh.C)
  {
    hide PrimitiveRoot, Base, Column, RowSource, Factor;
    var R, C := sh.R, sh.C;
    RootExceeds(sh.p, sh.v);
    var s := BaseSequence(sh.p, sh.v);
    assert forall j | 0 <= j < sh.p - 1 :: s[j] == Base(sh, j) by { BaseIsPower(sh); }
    var q := FindFactors(R, sh.p - 1);
    var r := Scatter(k, R, q);
    var U: seq<seq<int>> := [];
    var i := 0;
    while i < R
      invariant 0 <= i <= R && |U| == i
      invariant forall a | 0 <= a < i :: RowIs(k, sh, a, r[a], U[a])
    {
      var row := BuildRow(k, sh, s, i, r[i]);
      U := U + [row[..]];
      i := i + 1;
    }
    perm := ReadOut(k, sh, q, r, U);
  }

  lemma BaseIsPower(sh: Shape)
    requires sh.p > 1
    ensures forall j: nat :: Base(sh, j) == PowMod(sh.v, j, sh.p)
  {
  }

  /** `row` is the permuted row `src` for factor `r`. */
  ghost predicate RowIs(k: nat, sh: Shape, src: nat, r: nat, row: seq<int>) {
    sh.p > 2 && |row| == sh.C && forall j | 0 <= j < sh.C :: row[j] == Column(k, sh, src, r, j)
  }

  /** `r[T[i]] = q[i]`. */
  method Scatter(k: nat, R: nat, q: seq<nat>) returns (r: seq<nat>)
    requires |q| == R && (R == 5 || R == 10 || R == 20)
    ensures |r| == R
    ensures forall i | 0 <= i < R :: RowSource(k, R, i) < R && r[RowSource(k, R, i)] == q[i]
  {
    hide RowSource;
    var a := new nat[R](_ => 0);
    var i := 0;
    while i < R
      invariant 0 <= i <= R
      invariant forall j | 0 <= j < i :: RowSource(k, R, j) < R && a[RowSource(k, R, j)] == q[j]
    {
      forall j | 0 <= j <= i
        ensures RowSource(k, R, j) < R && (RowSource(k, R, j) == RowSource(k, R, i) ==> i == j)
      {
        RowSourceInjective(k, R, j, i);
      }
      a[RowSource(k, R, i)] := q[i];
      i := i + 1;
    }
    r := a[..];
  }

  method ReadOut(k: nat, sh: Shape, q: seq<nat>, r: seq<nat>, U: seq<seq<int>>) returns (perm: seq<int>)
    requires sh.Holds(k) && |q| == |r| == |U| == sh.R
    requires forall i | 0 <= i < sh.R :: q[i] == Factor(i, sh.p - 1)
    requires forall i | 0 <= i < sh.R :: RowSource(k, sh.R, i) < sh.R && r[RowSource(k, sh.R, i)] == q[i]
    requires forall a | 0 <= a < sh.R :: RowIs(k, sh, a, r[a], U[a])
    ensures perm == ReadColumns(k, sh, sh.C)
  {
    hide PrimitiveRoot, Column, RowSource, Factor;
    perm := [];
    var j := 0;
    while j < sh.C
      invariant 0 <= j <= sh.C && perm == ReadColumns(k, sh, j)
    {
      var i := 0;
      while i < sh.R
        invariant 0 <= i <= sh.R && perm == ReadColumns(k, sh, j) + ReadRows(k, sh, j, i)
      {
        var src := RowSource(k, sh.R, i);
        assert RowIs(k, sh, src, r[src], U[src]);
        var idx := Address(src, sh.C, U[src][j]);
        assert idx == Cell(k, sh, i, j);
        if idx < k {
          perm := perm + [idx];
        }
        i := i + 1;
      }
      j := j + 1;
    }
  }
}
