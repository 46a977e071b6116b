/** The offset arithmetic shared by the CSR and CSC sparse prediction outputs: several matrices in one pair of
    flat buffers, each matrix a sequence of lines (rows or columns) of known sizes. */
module SparseLayout {
  import opened Blocks

  datatype PtrType = Int32Ptr | Int64Ptr | UnknownPtr
  datatype DataType = Float32Data | Float64Data | UnknownData
  datatype Status = Ok | UnknownPtrType | UnknownDataType | IndexMinusOne | PointerSizeOverflow

  /** `z[m][j]` is the number of entries of line `j` of matrix `m`. */
  type Sizes = seq<seq<nat>>

  function PrefixSum(s: seq<nat>, k: nat): nat
    requires k <= |s|
  {
    if k == 0 then 0 else PrefixSum(s, k - 1) + s[k - 1]
  }

  /** The first element of matrix `m`. */
  function MatrixStart(z: Sizes, m: nat): nat
    requires m <= |z|
  {
    if m == 0 then 0 else MatrixStart(z, m - 1) + PrefixSum(z[m - 1], |z[m - 1]|)
  }

  /** The first element of line `j` of a matrix that begins at `start`; `j` may be one past the last line. */
  ghost function LineStart(s: seq<nat>, start: nat, j: nat): nat
    requires j <= |s|
  {
    start + PrefixSum(s, j)
  }

  ghost predicate IsSlot(z: Sizes, m: nat, j: nat, k: nat) {
    m < |z| && j < |z[m]| && k < z[m][j]
  }

  /** The position of entry `k` of line `j` of matrix `m`. */
  ghost function Slot(z: Sizes, m: nat, j: nat, k: nat): nat
    requires IsSlot(z, m, j, k)
  {
    MatrixStart(z, m) + PrefixSum(z[m], j) + k
  }

  lemma {:induction false} SumMonotone(s: seq<nat>, k: nat, l: nat)
    requires k <= l <= |s|
    ensures PrefixSum(s, k) <= PrefixSum(s, l)
    decreases l
  {
    if k < l {
      SumMonotone(s, k, l - 1);
    }
  }

  lemma {:induction false} MatrixStartMonotone(z: Sizes, m: nat, n: nat)
    requires m <= n <= |z|
    ensures MatrixStart(z, m) <= MatrixStart(z, n)
    decreases n
  {
    if m < n {
      MatrixStartMonotone(z, m, n - 1);
    }
  }

  /** Line `j` of matrix `m` lies inside the matrix's region, which lies inside the buffer. */
  lemma LineInMatrix(z: Sizes, m: nat, j: nat)
    requires m < |z| && j < |z[m]|
    ensures MatrixStart(z, m) + PrefixSum(z[m], j + 1) <= MatrixStart(z, m + 1) <= MatrixStart(z, |z|)
    ensures PrefixSum(z[m], j + 1) == PrefixSum(z[m], j) + z[m][j]
  {
    SumMonotone(z[m], j + 1, |z[m]|);
    MatrixStartMonotone(z, m + 1, |z|);
  }

  /** Different lines of a matrix do not overlap, and stay inside it. */
  lemma LinesApart(s: seq<nat>, start: nat, j: nat, l: nat)
    requires j < l < |s|
    ensures LineStart(s, start, j) + s[j] <= LineStart(s, start, l)
  {
    SumMonotone(s, j + 1, l);
  }

  lemma LineInside(s: seq<nat>, start: nat, j: nat)
    requires j < |s|
    ensures start <= LineStart(s, start, j) <= LineStart(s, start, j) + s[j] == LineStart(s, start, j + 1)
            <= LineStart(s, start, |s|)
  {
    SumMonotone(s, j + 1, |s|);
  }

  lemma SlotInMatrix(z: Sizes, m: nat, j: nat, k: nat)
    requires IsSlot(z, m, j, k)
    ensures MatrixStart(z, m) <= Slot(z, m, j, k) < MatrixStart(z, m + 1) <= MatrixStart(z, |z|)
  {
    LineInMatrix(z, m, j);
  }

  /** Slots are ordered by matrix, then line, then rank. */
  lemma SlotOrder(z: Sizes, m: nat, j: nat, k: nat, m': nat, j': nat, k': nat)
    requires IsSlot(z, m, j, k) && IsSlot(z, m', j', k')
    requires m < m' || (m == m' && (j < j' || (j == j' && k < k')))
    ensures Slot(z, m, j, k) < Slot(z, m', j', k')
  {
    LineInMatrix(z, m, j);
    if m < m' {
      MatrixStartMonotone(z, m + 1, m');
    } else if j < j' {
      SumMonotone(z[m], j + 1, j');
    }
  }

  lemma SlotInjective(z: Sizes, m: nat, j: nat, k: nat, m': nat, j': nat, k': nat)
    requires IsSlot(z, m, j, k) && IsSlot(z, m', j', k')
    ensures Slot(z, m, j, k) == Slot(z, m', j', k') ==> m == m' && j == j' && k == k'
  {
    if m < m' || (m == m' && (j < j' || (j == j' && k < k'))) {
      SlotOrder(z, m, j, k, m', j', k');
    } else if m' < m || j' < j || k' < k {
      SlotOrder(z, m', j', k', m, j, k);
    }
  }

  lemma FindSlot(z: Sizes, e: nat) returns (m: nat, j: nat, k: nat)
    requires e < MatrixStart(z, |z|)
    ensures IsSlot(z, m, j, k) && Slot(z, m, j, k) == e
  {
    m := |z| - 1;
    while e < MatrixStart(z, m)
      invariant m < |z| && e < MatrixStart(z, m + 1)
      decreases m
    {
      m := m - 1;
    }
    j := |z[m]| - 1;
    while e < MatrixStart(z, m) + PrefixSum(z[m], j)
      invariant j < |z[m]| && e < MatrixStart(z, m) + PrefixSum(z[m], j + 1)
      decreases j
    {
      j := j - 1;
    }
    k := e - MatrixStart(z, m) - PrefixSum(z[m], j);
  }

  /** The line ranges tile the buffer: every element is exactly one (matrix, line, rank). */
  lemma SlotsTile(z: Sizes, e: nat)
    requires e < MatrixStart(z, |z|)
    ensures exists m: nat, j: nat, k: nat :: IsSlot(z, m, j, k) && Slot(z, m, j, k) == e
    ensures forall m: nat, j: nat, k: nat, m': nat, j': nat, k': nat ::
              IsSlot(z, m, j, k) && IsSlot(z, m', j', k') && Slot(z, m, j, k) == e == Slot(z, m', j', k')
              ==> m == m' && j == j' && k == k'
  {
    var m, j, k := FindSlot(z, e);
    forall m: nat, j: nat, k: nat, m': nat, j': nat, k': nat |
      IsSlot(z, m, j, k) && IsSlot(z, m', j', k') && Slot(z, m, j, k) == e == Slot(z, m', j', k')
      ensures m == m' && j == j' && k == k'
    {
      SlotInjective(z, m, j, k, m', j', k');
    }
  }

  // ---------------------------------------------------------------- counting across matrices

  /** Entries of the first `n` lines of each of the first `m` matrices. */
  function CrossSum(z: Sizes, m: nat, n: nat): nat
    requires m <= |z| && forall i | 0 <= i < m :: n <= |z[i]|
  {
    if m == 0 then 0 else CrossSum(z, m - 1, n) + PrefixSum(z[m - 1], n)
  }

  /** Entries of line `i` of each of the first `m` matrices. */
  function LineSum(z: Sizes, m: nat, i: nat): nat
    requires m <= |z| && forall k | 0 <= k < m :: i < |z[k]|
  {
    if m == 0 then 0 else LineSum(z, m - 1, i) + z[m - 1][i]
  }

  lemma {:induction false} CrossSumNone(z: Sizes, m: nat)
    requires m <= |z|
    ensures CrossSum(z, m, 0) == 0
  {
    if m > 0 {
      CrossSumNone(z, m - 1);
    }
  }

  lemma {:induction false} CrossSumAddLine(z: Sizes, m: nat, n: nat)
    requires m <= |z| && forall i | 0 <= i < m :: n < |z[i]|
    ensures CrossSum(z, m, n + 1) == CrossSum(z, m, n) + LineSum(z, m, n)
  {
    if m > 0 {
      CrossSumAddLine(z, m - 1, n);
    }
  }

  /** Summing line by line across the matrices gives the total of summing matrix by matrix. */
  lemma {:induction false} CrossSumAll(z: Sizes, m: nat, n: nat)
    requires m <= |z| && forall i | 0 <= i < m :: |z[i]| == n
    ensures CrossSum(z, m, n) == MatrixStart(z, m)
  {
    if m > 0 {
      CrossSumAll(z, m - 1, n);
    }
  }

  // ---------------------------------------------------------------- pointers

  /** static_cast to the chosen pointer width. */
  function StorePtr(t: PtrType, v: int): int {
    if t == Int32Ptr then ToInt32(v) else v
  }

  function PtrCast(t: PtrType): int -> int {
    (v: int) => StorePtr(t, v)
  }

  /** The pointers of lines [0, n): offsets counted from the matrix's own first entry. */
  function Ptrs(s: seq<nat>, n: nat, ptr: int -> int): (p: seq<int>)
    requires n <= |s| + 1
    ensures |p| == n
  {
    if n == 0 then [] else Ptrs(s, n - 1, ptr) + [ptr(PrefixSum(s, n - 1))]
  }

  lemma {:induction false} PtrsAt(s: seq<nat>, n: nat, ptr: int -> int, j: nat)
    requires j < n <= |s| + 1
    ensures Ptrs(s, n, ptr)[j] == ptr(PrefixSum(s, j))
  {
    if j < n - 1 {
      PtrsAt(s, n - 1, ptr, j);
    }
  }

  /** The pointer array: one block of lines + 1 pointers per matrix. */
  function AllPtrs(z: Sizes, m: nat, ptr: int -> int): seq<int>
    requires m <= |z|
  {
    if m == 0 then [] else AllPtrs(z, m - 1, ptr) + Ptrs(z[m - 1], |z[m - 1]| + 1, ptr)
  }

  lemma AllPtrsNext(z: Sizes, m: nat, ptr: int -> int)
    requires m < |z|
    ensures AllPtrs(z, m + 1, ptr) == AllPtrs(z, m, ptr) + Ptrs(z[m], |z[m]| + 1, ptr)
  {
  }

  lemma {:induction false} AllPtrsAt(z: Sizes, n: nat, lines: nat, ptr: int -> int, m: nat, j: nat)
    requires m < n <= |z| && j <= lines && forall i | 0 <= i < n :: |z[i]| == lines
    ensures |AllPtrs(z, n, ptr)| == n * (lines + 1)
    ensures 0 <= m * (lines + 1) + j < |AllPtrs(z, n, ptr)|
    ensures AllPtrs(z, n, ptr)[m * (lines + 1) + j] == ptr(PrefixSum(z[m], j))
  {
    BlockIndexInRange(m, j, n, lines + 1);
    AllPtrsLength(z, n, lines, ptr);
    AllPtrsLength(z, n - 1, lines, ptr);
    if m == n - 1 {
      PtrsAt(z[m], lines + 1, ptr, j);
    } else {
      AllPtrsAt(z, n - 1, lines, ptr, m, j);
    }
  }

  lemma {:induction false} AllPtrsLength(z: Sizes, n: nat, lines: nat, ptr: int -> int)
    requires n <= |z| && forall i | 0 <= i < n :: |z[i]| == lines
    ensures |AllPtrs(z, n, ptr)| == n * (lines + 1)
  {
    if n > 0 {
      AllPtrsLength(z, n - 1, lines, ptr);
      MulStep(n - 1, lines + 1);
    }
  }

  /** Block `m` fits behind the first `m` blocks. */
  lemma PtrRoom(z: Sizes, m: nat, n: nat, lines: nat, ptr: int -> int)
    requires m < n <= |z| && Uniform(z, lines)
    ensures |AllPtrs(z, m, ptr)| + lines + 1 <= |AllPtrs(z, n, ptr)|
  {
  }

  lemma PrefixIsAll(rowPtr: array<int>, base: nat, whole: seq<int>)
    requires base <= rowPtr.Length == |whole| && rowPtr[..base] == whole
    ensures rowPtr[..] == whole
  {
  }

  lemma StorePtrExact(t: PtrType, v: nat)
    ensures StorePtr(t, v) == v <==> t != Int32Ptr || v <= INT32_MAX
  {
  }

  /** A matrix's pointers are the true offsets exactly when they are 64-bit or the matrix has at most INT32_MAX
      entries. */
  lemma PointersExactIff(s: seq<nat>, t: PtrType)
    ensures (forall j: nat | j <= |s| :: PtrCast(t)(PrefixSum(s, j)) == PrefixSum(s, j))
            <==> (t != Int32Ptr || PrefixSum(s, |s|) <= INT32_MAX)
  {
    StorePtrExact(t, PrefixSum(s, |s|));
    if t != Int32Ptr || PrefixSum(s, |s|) <= INT32_MAX {
      forall j: nat | j <= |s|
        ensures PtrCast(t)(PrefixSum(s, j)) == PrefixSum(s, j)
      {
        SumMonotone(s, j, |s|);
        StorePtrExact(t, PrefixSum(s, j));
      }
    }
  }

  // ---------------------------------------------------------------- reading the output back

  /** The pointer of line `j` of matrix `m`; 0 outside the pointer array. */
  function PtrAt(ptrs: seq<int>, lines: nat, m: nat, j: nat): int {
    var p := m * (lines + 1) + j;
    if 0 <= p < |ptrs| then ptrs[p] else 0
  }

  /** Where a reader places matrix `m`: behind the element counts that close the earlier pointer blocks. */
  function ReadBase(ptrs: seq<int>, lines: nat, m: nat): int {
    if m == 0 then 0 else ReadBase(ptrs, lines, m - 1) + PtrAt(ptrs, lines, m - 1, lines)
  }

  /** The value stored with index `key` in positions [lo, hi), if any. */
  function Find<W>(indices: seq<int>, data: seq<W>, lo: int, hi: int, key: int): (r: seq<W>)
    requires 0 <= lo && hi <= |indices| == |data|
    decreases hi - lo
  {
    if lo >= hi then [] else if indices[hi - 1] == key then [data[hi - 1]] else Find(indices, data, lo, hi - 1, key)
  }

  lemma {:induction false} FindIs<W>(indices: seq<int>, data: seq<W>, lo: int, hi: int, key: int, k: int)
    requires 0 <= lo <= k < hi <= |indices| == |data| && indices[k] == key
    requires forall l | lo <= l < hi && indices[l] == key :: l == k
    ensures Find(indices, data, lo, hi, key) == [data[k]]
    decreases hi - lo
  {
    if indices[hi - 1] != key {
      FindIs(indices, data, lo, hi - 1, key, k);
    }
  }

  lemma {:induction false} FindNone<W>(indices: seq<int>, data: seq<W>, lo: int, hi: int, key: int)
    requires 0 <= lo && hi <= |indices| == |data|
    requires forall l | lo <= l < hi :: indices[l] != key
    ensures Find(indices, data, lo, hi, key) == []
    decreases hi - lo
  {
    if lo < hi {
      FindNone(indices, data, lo, hi - 1, key);
    }
  }

  /** The element stored under `key` in line `j` of matrix `m`, found from the output arrays alone. */
  function Read<W>(ptrs: seq<int>, indices: seq<int>, data: seq<W>, lines: nat, m: nat, j: nat, key: int): seq<W> {
    var lo := ReadBase(ptrs, lines, m) + PtrAt(ptrs, lines, m, j);
    var hi := ReadBase(ptrs, lines, m) + PtrAt(ptrs, lines, m, j + 1);
    if 0 <= lo <= hi <= |indices| && |indices| == |data| then Find(indices, data, lo, hi, key) else []
  }

  lemma PtrAtIs(z: Sizes, lines: nat, ptr: int -> int, m: nat, j: nat)
    requires m < |z| && j <= lines && Uniform(z, lines)
    ensures PtrAt(AllPtrs(z, |z|, ptr), lines, m, j) == ptr(PrefixSum(z[m], j))
  {
    AllPtrsAt(z, |z|, lines, ptr, m, j);
  }

  /** With exact pointers the reader places every matrix where it starts. */
  lemma {:induction false} ReadBaseIs(z: Sizes, lines: nat, ptr: int -> int, m: nat)
    requires m <= |z| && Uniform(z, lines)
    requires forall i: nat {:trigger z[i]} | i < m :: ptr(PrefixSum(z[i], lines)) == PrefixSum(z[i], lines)
    ensures ReadBase(AllPtrs(z, |z|, ptr), lines, m) == MatrixStart(z, m)
  {
    if m > 0 {
      ReadBaseIs(z, lines, ptr, m - 1);
      PtrAtIs(z, lines, ptr, m - 1, lines);
    }
  }

  /** Nothing changed outside [lo, hi). */
  ghost predicate SameOutside<T>(lo: int, hi: int, before: seq<T>, after: seq<T>) {
    && |before| == |after|
    && forall e | 0 <= e < |before| && !(lo <= e < hi) :: after[e] == before[e]
  }
}
