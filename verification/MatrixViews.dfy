/**
  Matrix (pb_type_matrix): views of shared storage with a scale and a transposed flag, over reals instead of floats.
 */
module MatrixViews {
  import opened Words

  /** Shape as seen by the user is m by n; transposed tells that data is stored column by column. */
  datatype View = View(data: seq<real>, scale: real, m: nat, n: nat, transposed: bool)

  predicate IsMatrix(v: View) {
    v.m > 0 && v.n > 0 && |v.data| == v.m * v.n
  }

  lemma IndexInRange(r: nat, c: nat, m: nat, n: nat)
    requires r < m && c < n
    ensures r * n + c < m * n
  {
    assert r * n + n == (r + 1) * n <= m * n;
  }

  function Index(v: View, r: nat, c: nat): nat {
    if v.transposed then c * v.m + r else r * v.n + c
  }

  lemma IndexOk(v: View, r: nat, c: nat)
    requires IsMatrix(v) && r < v.m && c < v.n
    ensures Index(v, r, c) < |v.data|
  {
    IndexInRange(r, c, v.m, v.n);
    IndexInRange(c, r, v.n, v.m);
    assert v.n * v.m == v.m * v.n;
  }

  /** The entry the user sees in row r and column c; zero outside. */
  function At(v: View, r: nat, c: nat): real
    requires IsMatrix(v)
  {
    if r < v.m && c < v.n then
      IndexOk(v, r, c); v.data[Index(v, r, c)] * v.scale
    else 0.0
  }

  /** pb_type_Matrix__T and pb_type_Matrix__scale only make another view. */
  function T(v: View): View {
    View(v.data, v.scale, v.n, v.m, !v.transposed)
  }

  function Scale(v: View, s: real): View {
    v.(scale := v.scale * s)
  }

  /** Same shape and same entries. */
  ghost predicate Same(a: View, b: View) {
    && IsMatrix(a) && IsMatrix(b) && a.m == b.m && a.n == b.n
    && forall r, c :: At(a, r, c) == At(b, r, c)
  }

  /** Transposing swaps rows and columns, and twice is the very same view. */
  lemma Transposes(v: View)
    requires IsMatrix(v)
    ensures IsMatrix(T(v)) && T(T(v)) == v && T(v).data == v.data
    ensures forall r, c :: At(T(v), c, r) == At(v, r, c)
  {
    assert v.n * v.m == v.m * v.n;
    forall r: nat, c: nat
      ensures At(T(v), c, r) == At(v, r, c)
    {
      assert Index(T(v), c, r) == Index(v, r, c);
    }
  }

  lemma Scales(v: View, s: real)
    requires IsMatrix(v)
    ensures IsMatrix(Scale(v, s)) && Scale(v, s).data == v.data
    ensures forall r, c :: At(Scale(v, s), r, c) == At(v, r, c) * s
  {
    forall r: nat, c: nat
      ensures At(Scale(v, s), r, c) == At(v, r, c) * s
    {
      if r < v.m && c < v.n {
        IndexOk(v, r, c);
        var x := v.data[Index(v, r, c)];
        assert x * (v.scale * s) == (x * v.scale) * s;
      }
    }
  }

  // ----- Row by row -----

  /** The values written row by row up to, not including, row r and column c. */
  function Filled(f: (nat, nat) -> real, n: nat, r: nat, c: nat): (s: seq<real>)
    requires n > 0 && c <= n
    ensures |s| == r * n + c
    decreases r, c
  {
    if c > 0 then Filled(f, n, r, c - 1) + [f(r, c - 1)]
    else if r > 0 then Filled(f, n, r - 1, n)
    else []
  }

  lemma {:induction false} FilledAt(f: (nat, nat) -> real, n: nat, r: nat, c: nat, i: nat, j: nat)
    requires n > 0 && c <= n && j < n
    requires i < r || (i == r && j < c)
    ensures i * n + j < r * n + c && Filled(f, n, r, c)[i * n + j] == f(i, j)
    decreases r, c
  {
    if c > 0 {
      if i < r || j < c - 1 {
        FilledAt(f, n, r, c - 1, i, j);
      }
    } else {
      FilledAt(f, n, r - 1, n, i, j);
    }
  }

  /** A freshly computed matrix: stored row by row and not transposed. */
  function Stored(f: (nat, nat) -> real, scale: real, m: nat, n: nat): View
    requires n > 0
  {
    View(Filled(f, n, m, 0), scale, m, n, false)
  }

  lemma StoredAt(f: (nat, nat) -> real, scale: real, m: nat, n: nat)
    requires m > 0 && n > 0
    ensures IsMatrix(Stored(f, scale, m, n))
    ensures forall r: nat, c: nat :: r < m && c < n ==> At(Stored(f, scale, m, n), r, c) == f(r, c) * scale
  {
    forall r: nat, c: nat | r < m && c < n
      ensures At(Stored(f, scale, m, n), r, c) == f(r, c) * scale
    {
      FilledAt(f, n, m, 0, r, c);
    }
  }

  // ----- Sum and product -----

  /** The entry of the sum or difference, on the entries the user sees. */
  function SumAt(a: View, b: View, add: bool, r: nat, c: nat): real
    requires IsMatrix(a) && IsMatrix(b)
  {
    if add then At(a, r, c) + At(b, r, c) else At(a, r, c) - At(b, r, c)
  }

  ghost predicate IsSum(x: View, a: View, b: View, add: bool) {
    && IsMatrix(x) && IsMatrix(a) && IsMatrix(b) && x.m == a.m == b.m && x.n == a.n == b.n
    && forall r, c :: At(x, r, c) == SumAt(a, b, add, r, c)
  }

  /** The first k terms of the inner product of row r and column c, on the entries the user sees. */
  function Dot(a: View, b: View, r: nat, c: nat, k: nat): real
    requires IsMatrix(a) && IsMatrix(b)
  {
    if k == 0 then 0.0 else Dot(a, b, r, c, k - 1) + At(a, r, k - 1) * At(b, k - 1, c)
  }

  ghost predicate IsProduct(x: View, a: View, b: View) {
    && IsMatrix(x) && IsMatrix(a) && IsMatrix(b) && a.n == b.m && x.m == a.m && x.n == b.n
    && forall r: nat, c: nat :: r < a.m && c < b.n ==> At(x, r, c) == Dot(a, b, r, c, a.n)
  }

  /** Entry by entry the sum is the sum and the difference the difference; subtracting undoes adding. */
  lemma SumMeans(x: View, a: View, b: View, r: nat, c: nat)
    ensures IsSum(x, a, b, true) ==> At(x, r, c) == At(a, r, c) + At(b, r, c)
    ensures IsSum(x, a, b, false) ==> At(x, r, c) == At(a, r, c) - At(b, r, c)
  {
  }

  lemma SubtractUndoesAdd(a: View, b: View, x: View, y: View)
    requires IsSum(x, a, b, true) && IsSum(y, x, b, false)
    ensures Same(y, a)
  {
    forall r: nat, c: nat
      ensures At(y, r, c) == At(a, r, c)
    {
      SumMeans(x, a, b, r, c);
      SumMeans(y, x, b, r, c);
    }
  }

  /** Ones on the diagonal, zeros elsewhere. */
  ghost predicate IsIdentity(v: View) {
    && IsMatrix(v) && v.m == v.n
    && forall r: nat, c: nat :: r < v.m && c < v.n ==> At(v, r, c) == if r == c then 1.0 else 0.0
  }

  lemma {:induction false} DotWithIdentity(a: View, e: View, r: nat, c: nat, k: nat)
    requires IsMatrix(a) && IsIdentity(e) && a.n == e.m && r < a.m && c < e.n && k <= a.n
    ensures Dot(a, e, r, c, k) == if c < k then At(a, r, c) else 0.0
  {
    if k > 0 {
      DotWithIdentity(a, e, r, c, k - 1);
      assert At(e, k - 1, c) == if k - 1 == c then 1.0 else 0.0;
    }
  }

  /** Multiplying by the identity from the right gives the matrix back. */
  lemma IdentityIsNeutral(a: View, e: View, x: View)
    requires IsIdentity(e) && IsProduct(x, a, e)
    ensures Same(x, a)
  {
    forall r: nat, c: nat
      ensures At(x, r, c) == At(a, r, c)
    {
      if r < a.m && c < a.n {
        DotWithIdentity(a, e, r, c, a.n);
      }
    }
  }

  lemma Distribute(d: real, e: real, x: real, y: real, z: real)
    ensures (d + e) + x * (y + z) == (d + x * y) + (e + x * z)
  {
    assert x * (y + z) == x * y + x * z;
  }

  lemma DotNext(a: View, b: View, r: nat, c: nat, k: nat)
    requires IsMatrix(a) && IsMatrix(b)
    ensures Dot(a, b, r, c, 0) == 0.0
    ensures Dot(a, b, r, c, k + 1) == Dot(a, b, r, c, k) + At(a, r, k) * At(b, k, c)
  {
  }

  lemma {:induction false} DotDistributes(a: View, b: View, b': View, sum: View, r: nat, c: nat, k: nat)
    requires IsMatrix(a) && IsSum(sum, b, b', true)
    ensures Dot(a, sum, r, c, k) == Dot(a, b, r, c, k) + Dot(a, b', r, c, k)
  {
    hide At, SumAt, Dot;
    var j := if k > 0 then k - 1 else 0;
    DotNext(a, sum, r, c, j);
    DotNext(a, b, r, c, j);
    DotNext(a, b', r, c, j);
    if k > 0 {
      DotDistributes(a, b, b', sum, r, c, j);
      SumMeans(sum, b, b', j, c);
      Distribute(Dot(a, b, r, c, j), Dot(a, b', r, c, j), At(a, r, j), At(b, j, c), At(b', j, c));
    }
  }

  /** A * (B + C) == A * B + A * C. */
  lemma ProductDistributes(a: View, b: View, b': View, sum: View, x: View, y: View, y': View)
    requires IsSum(sum, b, b', true)
    requires IsProduct(x, a, sum) && IsProduct(y, a, b) && IsProduct(y', a, b')
    ensures IsSum(x, y, y', true)
  {
    forall r: nat, c: nat
      ensures At(x, r, c) == SumAt(y, y', true, r, c)
    {
      if r < x.m && c < x.n {
        DotDistributes(a, b, b', sum, r, c, a.n);
      }
    }
  }

  lemma {:induction false} DotTransposed(a: View, b: View, r: nat, c: nat, k: nat)
    requires IsMatrix(a) && IsMatrix(b) && IsMatrix(T(a)) && IsMatrix(T(b))
    ensures Dot(T(b), T(a), c, r, k) == Dot(a, b, r, c, k)
  {
    if k > 0 {
      DotTransposed(a, b, r, c, k - 1);
      Transposes(a);
      Transposes(b);
      assert At(T(b), c, k - 1) == At(b, k - 1, c) && At(T(a), k - 1, r) == At(a, r, k - 1);
    }
  }

  /** (A * B).T == B.T * A.T, for every combination of views. */
  lemma TransposeOfProduct(a: View, b: View, ab: View, ba: View)
    requires IsProduct(ab, a, b) && IsProduct(ba, T(b), T(a))
    ensures Same(T(ab), ba)
  {
    Transposes(ab);
    forall r: nat, c: nat
      ensures At(T(ab), c, r) == At(ba, c, r)
    {
      if r < ab.m && c < ab.n {
        DotTransposed(a, b, r, c, a.n);
      }
    }
  }

  /** (A + B).T == A.T + B.T. */
  lemma TransposeOfSum(a: View, b: View, x: View, add: bool)
    requires IsSum(x, a, b, add)
    ensures IsSum(T(x), T(a), T(b), add)
  {
    Transposes(a);
    Transposes(b);
    Transposes(x);
    forall r: nat, c: nat
      ensures At(T(x), r, c) == SumAt(T(a), T(b), add, r, c)
    {
      assert At(T(x), r, c) == At(x, c, r) && At(T(a), r, c) == At(a, c, r) && At(T(b), r, c) == At(b, c, r);
    }
  }

  /** The inner product of the stored values; the scales are multiplied in afterwards. */
  function RawDot(a: View, b: View, r: nat, c: nat, k: nat): real
    requires IsMatrix(a) && IsMatrix(b) && r < a.m && c < b.n && k <= a.n == b.m
  {
    if k == 0 then 0.0
    else
      IndexOk(a, r, k - 1);
      IndexOk(b, k - 1, c);
      RawDot(a, b, r, c, k - 1) + a.data[Index(a, r, k - 1)] * b.data[Index(b, k - 1, c)]
  }

  /** The value is stored for the entry in row r and column c. */
  predicate IsStoredAt(v: View, r: nat, c: nat, x: real) {
    Index(v, r, c) < |v.data| && v.data[Index(v, r, c)] == x
  }

  lemma RawDotNext(a: View, b: View, r: nat, c: nat, k: nat, x: real, y: real)
    requires IsMatrix(a) && IsMatrix(b) && r < a.m && c < b.n && k < a.n == b.m
    requires IsStoredAt(a, r, k, x) && IsStoredAt(b, k, c, y)
    ensures RawDot(a, b, r, c, k + 1) == RawDot(a, b, r, c, k) + x * y
  {
  }

  lemma TermScaled(sum: real, x: real, y: real, s: real, t: real)
    ensures (sum + x * y) * (s * t) == sum * (s * t) + (x * s) * (y * t)
  {
    assert (x * y) * (s * t) == (x * s) * (y * t);
  }

  /** The last term of the inner product on the entries seen, in terms of the stored values. */
  lemma LastTerm(a: View, b: View, r: nat, c: nat, k: nat)
    requires IsMatrix(a) && IsMatrix(b) && r < a.m && c < b.n && 0 < k <= a.n == b.m
    ensures Index(a, r, k - 1) < |a.data| && Index(b, k - 1, c) < |b.data|
    ensures var x, y := a.data[Index(a, r, k - 1)], b.data[Index(b, k - 1, c)];
            Dot(a, b, r, c, k) == Dot(a, b, r, c, k - 1) + (x * a.scale) * (y * b.scale)
  {
    IndexOk(a, r, k - 1);
    IndexOk(b, k - 1, c);
  }

  /** Scale is commutative, so it can be left out of the sum. */
  lemma {:induction false} RawDotScaled(a: View, b: View, r: nat, c: nat, k: nat)
    requires IsMatrix(a) && IsMatrix(b) && r < a.m && c < b.n && k <= a.n == b.m
    ensures RawDot(a, b, r, c, k) * (a.scale * b.scale) == Dot(a, b, r, c, k)
  {
    if k > 0 {
      RawDotScaled(a, b, r, c, k - 1);
      LastTerm(a, b, r, c, k);
      TermScaled(RawDot(a, b, r, c, k - 1), a.data[Index(a, r, k - 1)], b.data[Index(b, k - 1, c)], a.scale, b.scale);
    }
  }

  // ----- Subscripts -----

  /** The signed value of a 32-bit word. */
  function ToSigned(u: nat): int {
    if u < 0x8000_0000 then u else u - U32
  }

  /** The data fits the address space, as it must to be allocated. */
  predicate Addressable(v: View) {
    IsMatrix(v) && |v.data| < 0x8000_0000
  }

  predicate IsInt32(i: int) {
    -0x8000_0000 <= i < 0x8000_0000
  }

  /** A negative subscript counts from the end. */
  function FromEnd(v: View, i: int): int {
    if i < 0 then i + v.m * v.n else i
  }

  /** Where the remapping of a transposed view takes an unsigned subscript, if nothing wraps. */
  function Remapped(u: nat, m: nat, n: nat): nat
    requires n > 0
  {
    u / n + (u % n) * m
  }

  /**
    The storage position read for an integer subscript, before the bounds check. The dimensions are unsigned, so
    the remapping divides and multiplies unsigned words; its result is read as signed again.
   */
  function FlatPosition(v: View, i: int): int
    requires IsMatrix(v)
  {
    var idx := FromEnd(v, i);
    if v.transposed then ToSigned(Wrap(Remapped(Wrap(idx), v.m, v.n))) else idx
  }

  /** The storage position for a pair, or -1. */
  function PairPosition(v: View, row: int, col: int): int
    requires IsMatrix(v)
  {
    var r := if row < 0 then row + v.m else row;
    var c := if col < 0 then col + v.n else col;
    if 0 <= r < v.m && 0 <= c < v.n then Index(v, r, c) else -1
  }

  /** The value at a storage position, or IndexError. */
  function Fetch(v: View, position: int): Option<real> {
    if 0 <= position < |v.data| then Some(v.scale * v.data[position]) else None
  }

  /** The fetch delivers this value. */
  predicate Gives(fetched: Option<real>, x: real) {
    fetched.Some? && fetched.value == x
  }

  lemma FetchIsAt(v: View, r: nat, c: nat)
    requires IsMatrix(v) && r < v.m && c < v.n
    ensures Gives(Fetch(v, Index(v, r, c)), At(v, r, c))
  {
    IndexOk(v, r, c);
  }

  lemma DivideUnique(q: nat, s: nat, r: nat, c: nat, n: nat)
    requires q * n + s == r * n + c && s < n && c < n
    ensures q == r && s == c
  {
    if q < r {
      MultiplyMonotone(q + 1, r, n);
      assert false;
    }
    if r < q {
      MultiplyMonotone(r + 1, q, n);
      assert false;
    }
  }

  lemma RemappedPair(r: nat, c: nat, m: nat, n: nat)
    requires c < n
    ensures Remapped(r * n + c, m, n) == c * m + r
  {
    var k := r * n + c;
    DivideUnique(k / n, k % n, r, c, n);
  }

  lemma PositionOfPair(v: View, r: nat, c: nat)
    requires IsMatrix(v) && r < v.m && c < v.n
    ensures Remapped(r * v.n + c, v.m, v.n) == c * v.m + r < v.m * v.n
    ensures r * v.n + c < v.m * v.n
  {
    RemappedPair(r, c, v.m, v.n);
    IndexInRange(r, c, v.m, v.n);
    IndexInRange(c, r, v.n, v.m);
  }

  /** In range nothing wraps. */
  lemma NothingWraps(v: View, k: nat)
    requires Addressable(v) && k < |v.data| && Remapped(k, v.m, v.n) < |v.data|
    ensures FlatPosition(v, k) == if v.transposed then Remapped(k, v.m, v.n) else k
  {
    assert Wrap(k) == k;
  }

  /** The entry in row r and column c has flat subscript r * n + c, and that minus the length counting from the end. */
  lemma FlatSubscript(v: View, r: nat, c: nat)
    requires Addressable(v) && r < v.m && c < v.n
    ensures Gives(Fetch(v, FlatPosition(v, r * v.n + c)), At(v, r, c))
    ensures Gives(Fetch(v, FlatPosition(v, r * v.n + c - |v.data|)), At(v, r, c))
  {
    var k := r * v.n + c;
    PositionOfPair(v, r, c);
    NothingWraps(v, k);
    assert FlatPosition(v, k) == Index(v, r, c);
    assert FromEnd(v, k - |v.data|) == k;
    FetchIsAt(v, r, c);
  }

  /** Every in-range flat subscript, negative ones counting from the end, is that of some row and column. */
  lemma FlatInRange(v: View, i: int) returns (r: nat, c: nat)
    requires Addressable(v) && -|v.data| <= i < |v.data|
    ensures r < v.m && c < v.n && r * v.n + c == (if i < 0 then i + |v.data| else i)
    ensures Gives(Fetch(v, FlatPosition(v, i)), At(v, r, c))
  {
    r, c := RowAndColumn(if i < 0 then i + |v.data| else i, v.m, v.n);
    FlatSubscript(v, r, c);
    if i < 0 {
      assert i == r * v.n + c - |v.data|;
    }
  }

  lemma RowAndColumn(k: nat, m: nat, n: nat) returns (r: nat, c: nat)
    requires n > 0 && k < m * n
    ensures r < m && c < n && r * n + c == k
  {
    QuotientInRange(k, m, n);
    r, c := k / n, k % n;
  }

  lemma MultiplyMonotone(a: nat, b: nat, n: nat)
    requires a <= b
    ensures a * n <= b * n
  {
  }

  lemma QuotientInRange(k: nat, m: nat, n: nat)
    requires n > 0 && k < m * n
    ensures k / n < m && (k / n) * n + k % n == k
  {
    if k / n >= m {
      MultiplyMonotone(m, k / n, n);
      assert false;
    }
  }

  /** A pair subscript reads the entry seen there, with negative indices counting from the end, or fails. */
  lemma PairSubscript(v: View, row: int, col: int)
    requires IsMatrix(v)
    ensures if 0 - v.m <= row < v.m && 0 - v.n <= col < v.n then
              Gives(Fetch(v, PairPosition(v, row, col)),
                    At(v, if row < 0 then row + v.m else row, if col < 0 then col + v.n else col))
            else Fetch(v, PairPosition(v, row, col)).None?
  {
    var r := if row < 0 then row + v.m else row;
    var c := if col < 0 then col + v.n else col;
    if 0 <= r < v.m && 0 <= c < v.n {
      FetchIsAt(v, r, c);
    }
  }

  lemma HalfQuotient(u: nat, n: nat)
    requires n >= 2
    ensures u / n <= u / 2
  {
    assert 2 * (u / n) <= n * (u / n) <= u;
  }

  /** The remapping itself never wraps. */
  lemma RemappedIsWord(u: nat, m: nat, n: nat)
    requires n > 0 && u < U32 && m * n < 0x8000_0000
    ensures Remapped(u, m, n) < U32
  {
    if n >= 2 {
      HalfQuotient(u, n);
      MultiplyMonotone(u % n, n, m);
    }
  }

  /** The position is inside the storage exactly when the quotient is small enough. */
  lemma InsideIff(u: nat, m: nat, n: nat)
    requires n > 0
    ensures Remapped(u, m, n) < m * n <==> u / n < m * (n - u % n)
  {
    assert (u % n) * m + m * (n - u % n) == m * n;
  }

  /** The subscript of an entry that is read although the subscript is out of range. */
  predicate SlipsThrough(v: View, i: int)
    requires IsMatrix(v)
  {
    var u := Wrap(FromEnd(v, i));
    v.transposed && u / v.n < v.m * (v.n - u % v.n)
  }

  /**
    A flat subscript out of range raises IndexError, except on a transposed view, where the position is remapped
    before the check: there exactly those slip through for which u / n < m * (n - u % n), where u is the
    subscript, counted from the end if negative, as an unsigned word.
   */
  lemma FlatOutOfRange(v: View, i: int)
    requires Addressable(v) && IsInt32(i) && !(-|v.data| <= i < |v.data|)
    ensures Fetch(v, FlatPosition(v, i)).Some? <==> SlipsThrough(v, i)
  {
    var m, n, u := v.m, v.n, Wrap(FromEnd(v, i));
    RemappedIsWord(u, m, n);
    InsideIff(u, m, n);
    assert Wrap(Remapped(u, m, n)) == Remapped(u, m, n);
  }

  /**
    For a subscript beyond the end that is its own value; below the range it always fails if m * n * n fits a signed
    word.
   */
  lemma OutOfRangeBothWays(v: View, i: int)
    requires Addressable(v) && IsInt32(i) && !(-|v.data| <= i < |v.data|)
    ensures i >= 0 ==> (SlipsThrough(v, i) <==> v.transposed && i / v.n < v.m * (v.n - i % v.n))
    ensures i < 0 && v.m * v.n * v.n <= 0x8000_0000 ==> !SlipsThrough(v, i)
  {
    var m, n, u := v.m, v.n, Wrap(FromEnd(v, i));
    if i >= 0 {
      assert u == i;
    } else {
      assert u == i + m * n + U32;
      if m * n * n <= 0x8000_0000 {
        QuotientAtLeast(u, m * n, n);
        MultiplyMonotone(n - u % n, n, m);
      }
    }
  }

  lemma QuotientAtLeast(u: nat, q: nat, n: nat)
    requires n > 0 && q * n <= u
    ensures q <= u / n
  {
    if u / n < q {
      MultiplyMonotone(u / n + 1, q, n);
      assert false;
    }
  }

  /** For instance a transposed view with two columns and m rows: subscript 2 * m reads row 0, column 1. */
  lemma FlatOutOfRangeExample(v: View)
    requires Addressable(v) && v.n == 2 && v.transposed && 2 <= v.m < 0x4000_0000
    ensures 2 * v.m >= |v.data| && FlatPosition(v, 2 * v.m) == v.m == Index(v, 0, 1)
  {
    RemappedPair(v.m, 0, v.m, v.n);
  }

  /** And a transposed column of 70000 entries reads its last entry for subscript -108653. */
  lemma FlatBelowRangeExample(data: seq<real>, scale: real)
    requires |data| == 70_000
    ensures var v := View(data, scale, 1, 70_000, true);
            && Addressable(v) && IsInt32(-108_653)
            && FlatPosition(v, -108_653) == 69_999
            && Gives(Fetch(v, FlatPosition(v, -108_653)), scale * data[69_999])
  {
    var v := View(data, scale, 1, 70_000, true);
    assert FromEnd(v, -108_653) == -38_653;
    assert Wrap(-38_653) == 4_294_928_643;
    assert Remapped(4_294_928_643, 1, 70_000) == 69_999;
  }
}
