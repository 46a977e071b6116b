/** The packed histogram reducers: a signed gradient lane above an unsigned hessian lane in one machine word, added as
    whole words. */
module HistogramReducer {
  import opened Blocks
  import opened Division
  import opened Unordered

  /** The 16-bit form packs two lanes in 32 bits, the 32-bit form in 64 bits. */
  datatype Width = W16 | W32

  function Base(w: Width): int {
    if w.W16? then 0x1_0000 else 0x1_0000_0000
  }

  function Modulus(w: Width): int {
    if w.W16? then 0x1_0000_0000 else 0x1_0000_0000_0000_0000
  }

  /** Two's complement: the signed word congruent to `x`. */
  function Wrap(w: Width, x: int): (r: int)
    ensures -Modulus(w) / 2 <= r < Modulus(w) / 2
    ensures (r - x) % Modulus(w) == 0
  {
    (x + Modulus(w) / 2) % Modulus(w) - Modulus(w) / 2
  }

  datatype Lanes = Lanes(hi: int, lo: int)

  ghost predicate LanesFit(w: Width, l: Lanes) {
    -Base(w) / 2 <= l.hi < Base(w) / 2 && 0 <= l.lo < Base(w)
  }

  function Pack(w: Width, l: Lanes): int {
    l.hi * Base(w) + l.lo
  }

  /** The lanes read back from a word: an arithmetic shift and a mask. */
  function Unpack(w: Width, word: int): Lanes {
    Lanes(word / Base(w), word % Base(w))
  }

  // ---------------------------------------------------------------- sums

  function Sum(s: seq<int>): int {
    if s == [] then 0 else Sum(s[..|s| - 1]) + s[|s| - 1]
  }

  lemma {:induction false} SumJoin(a: seq<int>, b: seq<int>)
    ensures Sum(a + b) == Sum(a) + Sum(b)
  {
    if b == [] {
      assert a + b == a;
    } else {
      SumJoin(a, b[..|b| - 1]);
      assert (a + b)[..|a + b| - 1] == a + b[..|b| - 1];
    }
  }

  lemma SumSnoc(s: seq<int>, x: int)
    ensures Sum(s + [x]) == Sum(s) + x
  {
  }

  function Removed<T>(s: seq<T>, i: nat): seq<T>
    requires i < |s|
  {
    s[..i] + s[i + 1..]
  }

  lemma RemovedSnoc(s: seq<int>, i: nat)
    requires i + 1 < |s|
    ensures Removed(s, i) == Removed(s[..|s| - 1], i) + [s[|s| - 1]]
  {
  }

  lemma {:induction false} SumRemoved(s: seq<int>, i: nat)
    requires i < |s|
    ensures Sum(s) == Sum(Removed(s, i)) + s[i]
  {
    if i == |s| - 1 {
      assert Removed(s, i) == s[..|s| - 1];
    } else {
      SumRemoved(s[..|s| - 1], i);
      RemovedSnoc(s, i);
      SumSnoc(Removed(s[..|s| - 1], i), s[|s| - 1]);
    }
  }

  lemma MultisetRemoved<T>(s: seq<T>, i: nat)
    requires i < |s|
    ensures multiset(Removed(s, i)) == multiset(s) - multiset{s[i]}
  {
    assert s == s[..i] + [s[i]] + s[i + 1..];
  }

  /** The last element of a sequence, found in a permutation of it. */
  lemma FindLast<T>(a: seq<T>, b: seq<T>) returns (j: nat)
    requires multiset(a) == multiset(b) && a != []
    ensures j < |b| && b[j] == a[|a| - 1] && multiset(a[..|a| - 1]) == multiset(Removed(b, j))
  {
    var last, init := a[|a| - 1], a[..|a| - 1];
    assert a == init + [last];
    assert last in multiset(b);
    j :| 0 <= j < |b| && b[j] == last;
    MultisetRemoved(b, j);
  }

  /** A sum does not depend on the order. */
  lemma {:induction false} SumPermuted(a: seq<int>, b: seq<int>)
    requires multiset(a) == multiset(b)
    ensures Sum(a) == Sum(b)
    decreases |a|
  {
    assert |multiset(a)| == |a| && |multiset(b)| == |b|;
    if a != [] {
      var j := FindLast(a, b);
      SumRemoved(b, j);
      SumPermuted(a[..|a| - 1], Removed(b, j));
    }
  }

  // ---------------------------------------------------------------- reduction trees

  /** Any way of combining words two at a time. */
  datatype Tree = Leaf(word: int) | Node(left: Tree, right: Tree)

  function Leaves(t: Tree): seq<int> {
    match t
    case Leaf(word) => [word]
    case Node(l, r) => Leaves(l) + Leaves(r)
  }

  function Reduce(w: Width, t: Tree): int {
    match t
    case Leaf(word) => Wrap(w, word)
    case Node(l, r) => Wrap(w, Reduce(w, l) + Reduce(w, r))
  }

  /** Wrapping subtracts a multiple of the modulus, which does not change what a later wrap gives. */
  lemma WrapAdd(w: Width, a: int, b: int)
    ensures Wrap(w, Wrap(w, a) + b) == Wrap(w, a + b)
  {
    var m := Modulus(w);
    var q := (a + m / 2) / m;
    DivMod(m, a + m / 2);
    assert -q * m == -(q * m);
    ModShift(m, a + b + m / 2, -q);
  }

  lemma WrapSum(w: Width, a: int, b: int)
    ensures Wrap(w, Wrap(w, a) + Wrap(w, b)) == Wrap(w, a + b)
  {
    WrapAdd(w, a, Wrap(w, b));
    WrapAdd(w, b, a);
  }

  /** Whatever the tree, the word is the wrapped sum of its leaves. */
  lemma {:induction false} ReduceIsSum(w: Width, t: Tree)
    ensures Reduce(w, t) == Wrap(w, Sum(Leaves(t)))
  {
    match t
    case Leaf(word) =>
      assert [word][..0] == [];
    case Node(l, r) =>
      ReduceIsSum(w, l);
      ReduceIsSum(w, r);
      SumJoin(Leaves(l), Leaves(r));
      WrapSum(w, Sum(Leaves(l)), Sum(Leaves(r)));
  }

  /** The result does not depend on the order or shape of the reduction. */
  lemma OrderIndependent(w: Width, t: Tree, u: Tree)
    requires multiset(Leaves(t)) == multiset(Leaves(u))
    ensures Reduce(w, t) == Reduce(w, u)
  {
    ReduceIsSum(w, t);
    ReduceIsSum(w, u);
    SumPermuted(Leaves(t), Leaves(u));
  }

  // ---------------------------------------------------------------- lanes

  function Highs(ls: seq<Lanes>): (s: seq<int>)
    ensures |s| == |ls|
  {
    if ls == [] then [] else Highs(ls[..|ls| - 1]) + [ls[|ls| - 1].hi]
  }

  function Lows(ls: seq<Lanes>): (s: seq<int>)
    ensures |s| == |ls|
  {
    if ls == [] then [] else Lows(ls[..|ls| - 1]) + [ls[|ls| - 1].lo]
  }

  function Packed(w: Width, ls: seq<Lanes>): (s: seq<int>)
    ensures |s| == |ls|
  {
    if ls == [] then [] else Packed(w, ls[..|ls| - 1]) + [Pack(w, ls[|ls| - 1])]
  }

  /** The totals of the two lanes. */
  function Totals(ls: seq<Lanes>): Lanes {
    Lanes(Sum(Highs(ls)), Sum(Lows(ls)))
  }

  lemma PackSum(w: Width, a: Lanes, b: Lanes)
    ensures Pack(w, a) + Pack(w, b) == Pack(w, Lanes(a.hi + b.hi, a.lo + b.lo))
  {
  }

  lemma PackedSnoc(w: Width, ls: seq<Lanes>, l: Lanes)
    ensures Sum(Packed(w, ls + [l])) == Sum(Packed(w, ls)) + Pack(w, l)
  {
  }

  lemma TotalsSnoc(ls: seq<Lanes>, l: Lanes)
    ensures Totals(ls + [l]) == Lanes(Totals(ls).hi + l.hi, Totals(ls).lo + l.lo)
  {
  }

  lemma {:induction false} PackedSum(w: Width, ls: seq<Lanes>)
    ensures Sum(Packed(w, ls)) == Pack(w, Totals(ls))
  {
    if ls != [] {
      var init, last := ls[..|ls| - 1], ls[|ls| - 1];
      assert ls == init + [last];
      PackedSum(w, init);
      PackedSnoc(w, init, last);
      TotalsSnoc(init, last);
      PackSum(w, Totals(init), last);
    }
  }

  lemma HalfModulus(w: Width)
    ensures Modulus(w) / 2 == Base(w) / 2 * Base(w) && -Modulus(w) / 2 == -Base(w) / 2 * Base(w)
    ensures -Modulus(w) / 2 == -(Modulus(w) / 2) && Base(w) > 0
  {
  }

  /** A word in range is its own two's complement. */
  lemma WrapSmall(w: Width, x: int)
    requires -Modulus(w) / 2 <= x < Modulus(w) / 2
    ensures Wrap(w, x) == x
  {
    DivUnique(Modulus(w), x + Modulus(w) / 2, 0, x + Modulus(w) / 2);
  }

  lemma PackSmall(w: Width, l: Lanes)
    requires LanesFit(w, l)
    ensures -Modulus(w) / 2 <= Pack(w, l) < Modulus(w) / 2
  {
    HalfModulus(w);
    MulOrder(-Base(w) / 2, l.hi, Base(w));
    MulOrder(l.hi + 1, Base(w) / 2, Base(w));
    MulNext(l.hi, Base(w));
  }

  /** A wrapped word shows the totals exactly when both fit their lane. */
  lemma LanesExactIff(w: Width, total: Lanes)
    ensures Unpack(w, Wrap(w, Pack(w, total))) == total <==> LanesFit(w, total)
  {
    var word := Wrap(w, Pack(w, total));
    HalfModulus(w);
    DivMod(Base(w), word);
    DivBetween(Base(w), word, -Base(w) / 2, Base(w) / 2);
    if LanesFit(w, total) {
      PackSmall(w, total);
      WrapSmall(w, Pack(w, total));
      DivUnique(Base(w), word, total.hi, total.lo);
    }
  }

  /** Reducing any number of packed histogram entries, in any order and shape, adds the two lanes separately exactly
      when the lane totals fit; intermediate totals need not. */
  lemma ReduceAddsLanesIff(w: Width, ls: seq<Lanes>, t: Tree)
    requires multiset(Leaves(t)) == multiset(Packed(w, ls))
    ensures Unpack(w, Reduce(w, t)) == Totals(ls) <==> LanesFit(w, Totals(ls))
  {
    ReduceIsSum(w, t);
    SumPermuted(Leaves(t), Packed(w, ls));
    PackedSum(w, ls);
    LanesExactIff(w, Totals(ls));
  }

  // ---------------------------------------------------------------- the reducers

  /** Bytes of one lane. */
  function TypeSize(w: Width): nat {
    if w.W16? then 2 else 4
  }

  /** A lane is 2 or 4 bytes of 8 bits, and a word two lanes. */
  lemma LaneBytes(w: Width)
    ensures TypeSize(w) == (match w case W16 => 2 case W32 => 4)
    ensures Base(w) == Pow256(TypeSize(w)) && Modulus(w) == Pow256(2 * TypeSize(w))
  {
    assert Pow256(1) == 0x100 && Pow256(2) == 0x1_0000 && Pow256(3) == 0x100_0000 && Pow256(4) == 0x1_0000_0000;
    assert Pow256(5) == 0x100_0000_0000 && Pow256(6) == 0x1_0000_0000_0000 && Pow256(7) == 0x100_0000_0000_0000;
  }

  ghost function Pow256(k: nat): int {
    if k == 0 then 1 else 256 * Pow256(k - 1)
  }

  /** The words the reducers add for `len` bytes of lanes of the declared size. */
  function Steps(typeSize: nat, len: nat): (steps: nat)
    requires typeSize > 0
    ensures len <= steps * (2 * typeSize) < len + 2 * typeSize
  {
    RoundUp(2 * typeSize, len);
    (len + typeSize * 2 - 1) / (typeSize * 2)
  }

  /** The rounding up is done in 32 bits. */
  predicate StepsOverflow(typeSize: nat, len: nat) {
    len + 2 * typeSize > INT32_MAX
  }

  lemma StepsIs(typeSize: nat, len: nat, steps: nat)
    requires typeSize > 0 && len <= steps * (2 * typeSize) < len + 2 * typeSize
    ensures Steps(typeSize, len) == steps
  {
    var m := 2 * typeSize;
    DivUnique(m, len + m - 1, steps, len + m - 1 - steps * m);
  }

  lemma OneByteMore(smaller: nat, larger: nat)
    requires 0 < smaller < larger
    ensures Steps(smaller, 2 * smaller + 1) != Steps(larger, 2 * smaller + 1)
  {
    StepsIs(smaller, 2 * smaller + 1, 2);
    StepsIs(larger, 2 * smaller + 1, 1);
  }

  /** Every length reaches exactly the words it has bytes in, if and only if the declared size is that of a lane. */
  lemma StepsExactIff(w: Width, typeSize: nat)
    requires typeSize > 0
    ensures (forall len: nat :: Steps(typeSize, len) == Steps(TypeSize(w), len)) <==> typeSize == TypeSize(w)
  {
    if typeSize < TypeSize(w) {
      OneByteMore(typeSize, TypeSize(w));
    } else if typeSize > TypeSize(w) {
      OneByteMore(TypeSize(w), typeSize);
    }
  }

  /** `+=` on packed words. */
  function AddWords(w: Width): (int, int) -> int {
    (x, y) => Wrap(w, x + y)
  }

  /** The first `n` words of two buffers added. */
  function Added(add: (int, int) -> int, a: seq<int>, b: seq<int>, n: nat): (s: seq<int>)
    requires n <= |a| && n <= |b|
    ensures |s| == |a|
    ensures forall i {:trigger s[i]} | 0 <= i < |a| :: s[i] == if i < n then add(a[i], b[i]) else a[i]
  {
    if n == 0 then a else Added(add, a, b, n - 1)[n - 1 := add(a[n - 1], b[n - 1])]
  }

  /** The loop of both reducers on `len` bytes of packed words. The iterations of the parallel loop run in any order. */
  method SumReducer(add: (int, int) -> int, src: array<int>, dst: array<int>, typeSize: nat, len: nat)
    returns (overflow: bool)
    requires src != dst && typeSize > 0
    requires !StepsOverflow(typeSize, len) ==> Steps(typeSize, len) <= src.Length && Steps(typeSize, len) <= dst.Length
    modifies dst
    ensures overflow <==> len + 2 * typeSize > INT32_MAX
    ensures !overflow ==> dst[..] == Added(add, old(dst[..]), src[..], Steps(typeSize, len))
  {
    overflow := StepsOverflow(typeSize, len);
    if !overflow {
      AddAll(add, src, dst, Steps(typeSize, len));
    }
  }

  method AddAll(add: (int, int) -> int, src: array<int>, dst: array<int>, steps: nat)
    requires src != dst && steps <= src.Length && steps <= dst.Length
    modifies dst
    ensures dst[..] == Added(add, old(dst[..]), src[..], steps)
  {
    ghost var before, target := dst[..], Added(add, dst[..], src[..], steps);
    var pending := Below(steps);
    while pending != {}
      invariant pending <= Below(steps)
      invariant forall i {:trigger dst[i]} | 0 <= i < dst.Length ::
                  dst[i] == if i < steps && i !in pending then target[i] else before[i]
      decreases |pending|
    {
      var i, rest := TakeAny(pending);
      assert target[i] == add(before[i], src[i]);
      dst[i] := add(dst[i], src[i]);
      pending := rest;
    }
    assert forall i {:trigger target[i]} | steps <= i < dst.Length :: target[i] == before[i];
  }

  method Int32HistogramSumReducer(src: array<int>, dst: array<int>, typeSize: nat, len: nat) returns (overflow: bool)
    requires src != dst && typeSize > 0
    requires !StepsOverflow(typeSize, len) ==> Steps(typeSize, len) <= src.Length && Steps(typeSize, len) <= dst.Length
    modifies dst
    ensures overflow <==> len + 2 * typeSize > INT32_MAX
    ensures !overflow ==> dst[..] == Added(AddWords(W32), old(dst[..]), src[..], Steps(typeSize, len))
  {
    overflow := SumReducer(AddWords(W32), src, dst, typeSize, len);
  }

  method Int16HistogramSumReducer(src: array<int>, dst: array<int>, typeSize: nat, len: nat) returns (overflow: bool)
    requires src != dst && typeSize > 0
    requires !StepsOverflow(typeSize, len) ==> Steps(typeSize, len) <= src.Length && Steps(typeSize, len) <= dst.Length
    modifies dst
    ensures overflow <==> len + 2 * typeSize > INT32_MAX
    ensures !overflow ==> dst[..] == Added(AddWords(W16), old(dst[..]), src[..], Steps(typeSize, len))
  {
    overflow := SumReducer(AddWords(W16), src, dst, typeSize, len);
  }

  // ---------------------------------------------------------------- folding whole histograms

  /** Entry `i` of the histograms, in the given order. */
  function EntryColumn(hists: seq<seq<int>>, order: seq<nat>, i: nat): (s: seq<int>)
    requires Picks(hists, order, i)
    ensures |s| == |order| && forall k {:trigger s[k]} | 0 <= k < |s| :: s[k] == hists[order[k]][i]
  {
    if order == [] then [] else EntryColumn(hists, order[..|order| - 1], i) + [hists[order[|order| - 1]][i]]
  }

  ghost predicate Foldable(hists: seq<seq<int>>, order: seq<nat>, n: nat) {
    forall k {:trigger order[k]} | 0 <= k < |order| :: order[k] < |hists| && n == |hists[order[k]]|
  }

  /** What folding the listed histograms makes of the words `start`. */
  function Folded(add: (int, int) -> int, start: seq<int>, hists: seq<seq<int>>, order: seq<nat>): (s: seq<int>)
    requires Foldable(hists, order, |start|)
    ensures |s| == |start|
  {
    if order == [] then start
    else Added(add, Folded(add, start, hists, order[..|order| - 1]), hists[order[|order| - 1]], |start|)
  }

  /** The bytes of a histogram of `n` words. */
  function Bytes(w: Width, n: nat): nat {
    n * (2 * TypeSize(w))
  }

  /** One reducer call over a whole histogram. */
  method AddHistogram(w: Width, add: (int, int) -> int, h: seq<int>, dst: array<int>) returns (overflow: bool)
    requires |h| == dst.Length
    modifies dst
    ensures overflow <==> (|h| + 1) * (2 * TypeSize(w)) > INT32_MAX
    ensures !overflow ==> dst[..] == Added(add, old(dst[..]), h, |h|)
  {
    var src := new int[|h|](i requires 0 <= i < |h| => h[i]);
    assert src[..] == h;
    StepsIs(TypeSize(w), Bytes(w, |h|), |h|);
    MulNext(|h|, 2 * TypeSize(w));
    overflow := SumReducer(add, src, dst, TypeSize(w), Bytes(w, |h|));
  }

  /** Folds the listed histograms into `dst`, one reducer call each, up to an overflow. */
  method Fold(w: Width, add: (int, int) -> int, hists: seq<seq<int>>, order: seq<nat>, dst: array<int>)
    returns (overflow: bool)
    requires Foldable(hists, order, dst.Length)
    modifies dst
    ensures overflow <==> order != [] && (dst.Length + 1) * (2 * TypeSize(w)) > INT32_MAX
    ensures !overflow ==> dst[..] == Folded(add, old(dst[..]), hists, order)
  {
    overflow := false;
    ghost var target := dst[..];
    for k := 0 to |order|
      invariant target == Folded(add, old(dst[..]), hists, order[..k])
      invariant dst[..] == target && (k > 0 ==> (dst.Length + 1) * (2 * TypeSize(w)) <= INT32_MAX)
    {
      var h := hists[order[k]];
      assert order[..k + 1][..k] == order[..k];
      target := Added(add, target, h, |h|);
      overflow := AddHistogram(w, add, h, dst);
      if overflow {
        return;
      }
    }
    assert order[..|order|] == order;
  }

  /** One word after another. */
  function FoldWords(add: (int, int) -> int, x: int, s: seq<int>): int {
    if s == [] then x else add(FoldWords(add, x, s[..|s| - 1]), s[|s| - 1])
  }

  /** Every folded word is the fold of its column. */
  lemma {:induction false} FoldedIs(add: (int, int) -> int, start: seq<int>, hists: seq<seq<int>>, order: seq<nat>,
                                    i: nat)
    requires Foldable(hists, order, |start|) && i < |start|
    ensures Folded(add, start, hists, order)[i] == FoldWords(add, start[i], EntryColumn(hists, order, i))
  {
    if order != [] {
      FoldedIs(add, start, hists, order[..|order| - 1], i);
    }
  }

  lemma {:induction false} FoldWordsIs(w: Width, x: int, s: seq<int>)
    requires s != []
    ensures FoldWords(AddWords(w), x, s) == Wrap(w, x + Sum(s))
  {
    var init, last := s[..|s| - 1], s[|s| - 1];
    if init != [] {
      FoldWordsIs(w, x, init);
      WrapAdd(w, x + Sum(init), last);
    }
  }

  ghost predicate Picks(hists: seq<seq<int>>, order: seq<nat>, i: nat) {
    forall k {:trigger order[k]} | 0 <= k < |order| :: order[k] < |hists| && i < |hists[order[k]]|
  }

  lemma ColumnRemoved(hists: seq<seq<int>>, order: seq<nat>, i: nat, j: nat)
    requires Picks(hists, order, i) && j < |order|
    ensures Picks(hists, Removed(order, j), i)
    ensures EntryColumn(hists, Removed(order, j), i) == Removed(EntryColumn(hists, order, i), j)
  {
  }

  /** Folding in another order gives the same sums. */
  lemma {:induction false} ColumnPermuted(hists: seq<seq<int>>, order: seq<nat>, other: seq<nat>, i: nat)
    requires multiset(order) == multiset(other) && Picks(hists, order, i) && Picks(hists, other, i)
    ensures Sum(EntryColumn(hists, order, i)) == Sum(EntryColumn(hists, other, i)) && |order| == |other|
    decreases |order|
  {
    assert |multiset(order)| == |order| && |multiset(other)| == |other|;
    if order != [] {
      var j := FindLast(order, other);
      ColumnRemoved(hists, other, i, j);
      SumRemoved(EntryColumn(hists, other, i), j);
      ColumnPermuted(hists, order[..|order| - 1], Removed(other, j), i);
    }
  }

  /** Folding whole histograms gives the same words in every order. */
  lemma FoldOrderFree(w: Width, start: seq<int>, hists: seq<seq<int>>, order: seq<nat>, other: seq<nat>)
    requires multiset(order) == multiset(other) && Foldable(hists, order, |start|) && Foldable(hists, other, |start|)
    ensures Folded(AddWords(w), start, hists, order) == Folded(AddWords(w), start, hists, other)
  {
    var a, b := Folded(AddWords(w), start, hists, order), Folded(AddWords(w), start, hists, other);
    forall i | 0 <= i < |start|
      ensures a[i] == b[i]
    {
      FoldedIs(AddWords(w), start, hists, order, i);
      FoldedIs(AddWords(w), start, hists, other, i);
      ColumnPermuted(hists, order, other, i);
      SameSumSameFold(w, start[i], EntryColumn(hists, order, i), EntryColumn(hists, other, i));
    }
  }

  lemma SameSumSameFold(w: Width, x: int, s: seq<int>, t: seq<int>)
    requires |s| == |t| && Sum(s) == Sum(t)
    ensures FoldWords(AddWords(w), x, s) == FoldWords(AddWords(w), x, t)
  {
    if s != [] {
      FoldWordsIs(w, x, s);
      FoldWordsIs(w, x, t);
    }
  }

  /** An entry folded from packed lanes shows the two lane totals exactly when both fit their lane. */
  lemma FoldAddsLanesIff(w: Width, first: Lanes, rest: seq<Lanes>)
    requires rest != []
    ensures var total := Lanes(first.hi + Totals(rest).hi, first.lo + Totals(rest).lo);
            Unpack(w, FoldWords(AddWords(w), Pack(w, first), Packed(w, rest))) == total <==> LanesFit(w, total)
  {
    FoldWordsIs(w, Pack(w, first), Packed(w, rest));
    PackedSum(w, rest);
    PackSum(w, first, Totals(rest));
    LanesExactIff(w, Lanes(first.hi + Totals(rest).hi, first.lo + Totals(rest).lo));
  }
}
