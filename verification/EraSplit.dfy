/** The numerai split: rows with a target, the last eras held out behind an embargo gap, and the surviving rows
    streamed into the cache in batches. */
module EraSplit {
  import opened Numpy
  import opened Options

  const TEST_ERAS: nat := 200
  const EMBARGO_ERAS: nat := 10

  /** The roles in file order: trained on, dropped between the two, tested on. */
  datatype Role = Train | Embargo | Test

  ghost predicate Sorted(era: seq<int>) {
    forall i, j {:trigger era[i], era[j]} | 0 <= i < j < |era| :: era[i] <= era[j]
  }

  // ---------------------------------------------------------------- masks

  /** s[mask] on the first `n` rows. */
  function Masked<T>(s: seq<T>, mask: seq<bool>, n: nat): (r: seq<T>)
    requires n <= |s| && n <= |mask|
    ensures |r| <= n
  {
    if n == 0 then [] else Masked(s, mask, n - 1) + if mask[n - 1] then [s[n - 1]] else []
  }

  /** Every masked row is one of the rows under the mask. */
  lemma {:induction false} MaskedFrom<T>(s: seq<T>, mask: seq<bool>, n: nat, k: nat) returns (i: nat)
    requires n <= |s| && n <= |mask| && k < |Masked(s, mask, n)|
    ensures i < n && mask[i] && Masked(s, mask, n)[k] == s[i]
  {
    if k < |Masked(s, mask, n - 1)| {
      i := MaskedFrom(s, mask, n - 1, k);
    } else {
      i := n - 1;
    }
  }

  /** Masking keeps exactly the rows under the mask, in order. */
  lemma {:induction false} MaskedIs<T>(s: seq<T>, mask: seq<bool>, n: nat) returns (at: seq<nat>)
    requires n <= |s| && n <= |mask|
    ensures |at| == |Masked(s, mask, n)|
    ensures forall k {:trigger at[k]} | 0 <= k < |at| :: at[k] < n && Masked(s, mask, n)[k] == s[at[k]]
    ensures forall k, l {:trigger at[k], at[l]} | 0 <= k < l < |at| :: at[k] < at[l]
    ensures forall i: nat | i < n :: mask[i] <==> i in at
  {
    at := [];
    if n > 0 {
      at := MaskedIs(s, mask, n - 1);
      if mask[n - 1] {
        at := at + [n - 1];
      }
    }
  }

  /** A batch contributes its own masked rows. */
  lemma {:induction false} MaskedBatch<T>(s: seq<T>, mask: seq<bool>, a: nat, n: nat)
    requires a + n <= |s| && a + n <= |mask|
    ensures Masked(s, mask, a + n) == Masked(s, mask, a) + Masked(s[a..a + n], mask[a..a + n], n)
  {
    if n > 0 {
      MaskedBatch(s, mask, a, n - 1);
      MaskedPrefix(s[a..a + n], s[a..a + n - 1], mask[a..a + n], mask[a..a + n - 1], n - 1);
      var before, batch := Masked(s, mask, a), Masked(s[a..a + n], mask[a..a + n], n - 1);
      var last := if mask[a + n - 1] then [s[a + n - 1]] else [];
      assert before + batch + last == before + (batch + last);
    }
  }

  lemma {:induction false} MaskedPrefix<T>(s: seq<T>, t: seq<T>, mask: seq<bool>, other: seq<bool>, n: nat)
    requires n <= |s| && n <= |t| && n <= |mask| && n <= |other|
    requires forall k {:trigger s[k]} | 0 <= k < n :: s[k] == t[k] && mask[k] == other[k]
    ensures Masked(s, mask, n) == Masked(t, other, n)
  {
    if n > 0 {
      MaskedPrefix(s, t, mask, other, n - 1);
      assert s[n - 1] == t[n - 1];
    }
  }

  // ---------------------------------------------------------------- roles of eras

  /** Where the slice of the last `k` begins. */
  function Last(n: nat, k: nat): nat {
    if n < k then 0 else n - k
  }

  function TestEras(uniq: seq<int>): seq<int> {
    uniq[Last(|uniq|, TEST_ERAS)..]
  }

  function EmbargoEras(uniq: seq<int>): seq<int> {
    uniq[Last(|uniq|, TEST_ERAS + EMBARGO_ERAS)..Last(|uniq|, TEST_ERAS)]
  }

  function RoleOf(uniq: seq<int>, e: int): Role {
    if e in TestEras(uniq) then Test else if e in EmbargoEras(uniq) then Embargo else Train
  }

  /** Later eras never have an earlier role: every embargo era lies strictly between all training and all test eras. */
  lemma RolesInOrder(uniq: seq<int>, d: int, e: int)
    requires Ascending(uniq) && d in uniq && e in uniq
    ensures RoleOf(uniq, d) == Train && RoleOf(uniq, e) != Train ==> d < e
    ensures RoleOf(uniq, d) != Test && RoleOf(uniq, e) == Test ==> d < e
  {
  }

  /** The role of an era is decided by its place: tested among the last 200, in the embargo among the 10 before. */
  lemma RoleByPlace(uniq: seq<int>, k: nat)
    requires Ascending(uniq) && k < |uniq|
    ensures RoleOf(uniq, uniq[k]) == if k >= |uniq| - 200 then Test else if k >= |uniq| - 210 then Embargo else Train
  {
  }

  /** The held-out eras are the last 200, the embargo the 10 before them, as far as there are that many. */
  lemma RoleSizes(uniq: seq<int>)
    ensures |TestEras(uniq)| == if |uniq| < 200 then |uniq| else 200
    ensures |EmbargoEras(uniq)| == if |uniq| < 200 then 0 else if |uniq| < 210 then |uniq| - 200 else 10
  {
  }

  // ---------------------------------------------------------------- the surviving rows

  /** The eras of the kept rows outside the embargo. */
  function Surviving(uniq: seq<int>, kept: seq<int>): (s: seq<int>)
    ensures |s| <= |kept|
  {
    if kept == [] then []
    else
      var e := kept[|kept| - 1];
      Surviving(uniq, kept[..|kept| - 1]) + if RoleOf(uniq, e) == Embargo then [] else [e]
  }

  function CountTrain(uniq: seq<int>, kept: seq<int>): (n: nat)
    ensures n <= |Surviving(uniq, kept)|
  {
    if kept == [] then 0
    else CountTrain(uniq, kept[..|kept| - 1]) + if RoleOf(uniq, kept[|kept| - 1]) == Train then 1 else 0
  }

  lemma {:induction false} SurvivingFrom(uniq: seq<int>, kept: seq<int>, k: nat) returns (i: nat)
    requires k < |Surviving(uniq, kept)|
    ensures i < |kept| && kept[i] == Surviving(uniq, kept)[k]
  {
    if k < |Surviving(uniq, kept[..|kept| - 1])| {
      i := SurvivingFrom(uniq, kept[..|kept| - 1], k);
    } else {
      i := |kept| - 1;
    }
  }

  /** Rows below `t` are training rows, the others test rows. */
  ghost predicate SplitAt(uniq: seq<int>, s: seq<int>, t: nat) {
    t <= |s| && forall k {:trigger s[k]} | 0 <= k < |s| :: RoleOf(uniq, s[k]) == if k < t then Train else Test
  }

  /** For rows sorted by era, the survivors are all training rows followed by all test rows. */
  lemma {:induction false} TrainThenTest(uniq: seq<int>, kept: seq<int>)
    requires Ascending(uniq) && Sorted(kept) && ValuesOf(kept) <= ValuesOf(uniq)
    ensures SplitAt(uniq, Surviving(uniq, kept), CountTrain(uniq, kept))
  {
    if kept != [] {
      var init, e := kept[..|kept| - 1], kept[|kept| - 1];
      assert forall v :: v in init ==> v in kept;
      TrainThenTest(uniq, init);
      if RoleOf(uniq, e) == Train {
        NoTestBefore(uniq, kept);
      }
    }
  }

  /** Behind a test row there is no training row. */
  lemma NoTrainAfter(uniq: seq<int>, kept: seq<int>)
    requires Ascending(uniq) && Sorted(kept) && ValuesOf(kept) <= ValuesOf(uniq) && kept != []
    requires SplitAt(uniq, Surviving(uniq, kept[..|kept| - 1]), CountTrain(uniq, kept[..|kept| - 1]))
    requires CountTrain(uniq, kept[..|kept| - 1]) < |Surviving(uniq, kept[..|kept| - 1])|
    ensures RoleOf(uniq, kept[|kept| - 1]) != Train
  {
    var init, e := kept[..|kept| - 1], kept[|kept| - 1];
    var i := SurvivingFrom(uniq, init, CountTrain(uniq, init));
    assert kept[i] in ValuesOf(kept) && e in ValuesOf(kept);
    RolesInOrder(uniq, e, kept[i]);
  }

  /** Before a training row there is no test row. */
  lemma NoTestBefore(uniq: seq<int>, kept: seq<int>)
    requires Ascending(uniq) && Sorted(kept) && ValuesOf(kept) <= ValuesOf(uniq) && kept != []
    requires RoleOf(uniq, kept[|kept| - 1]) == Train
    requires SplitAt(uniq, Surviving(uniq, kept[..|kept| - 1]), CountTrain(uniq, kept[..|kept| - 1]))
    ensures CountTrain(uniq, kept[..|kept| - 1]) == |Surviving(uniq, kept[..|kept| - 1])|
  {
    if CountTrain(uniq, kept[..|kept| - 1]) < |Surviving(uniq, kept[..|kept| - 1])| {
      NoTrainAfter(uniq, kept);
    }
  }

  /** The row filter over the whole file selects exactly the survivors. */
  lemma {:induction false} FilterIsSurviving(uniq: seq<int>, era: seq<int>, keep: seq<bool>, keepAll: seq<bool>, n: nat)
    requires n <= |era| == |keep| == |keepAll|
    requires forall i {:trigger keepAll[i]} | 0 <= i < n :: keepAll[i] == (keep[i] && RoleOf(uniq, era[i]) != Embargo)
    ensures Masked(era, keepAll, n) == Surviving(uniq, Masked(era, keep, n))
  {
    if n > 0 {
      FilterIsSurviving(uniq, era, keep, keepAll, n - 1);
      var init := Masked(era, keep, n - 1);
      assert init + [] == init && (init + [era[n - 1]])[..|init|] == init;
      assert Surviving(uniq, init) + [] == Surviving(uniq, init);
    }
  }

  lemma {:induction false} MaskedSorted(era: seq<int>, keep: seq<bool>, n: nat)
    requires Sorted(era) && n <= |era| && n <= |keep|
    ensures Sorted(Masked(era, keep, n))
  {
    if n > 0 {
      MaskedSorted(era, keep, n - 1);
      var s := Masked(era, keep, n - 1);
      forall k {:trigger s[k]} | 0 <= k < |s|
        ensures s[k] <= era[n - 1]
      {
        var i := MaskedFrom(era, keep, n - 1, k);
      }
    }
  }

  // ---------------------------------------------------------------- _numerai_roles

  datatype Split = Split(keepAll: seq<bool>, nRows: nat, trainEnd: nat)

  /** The eras that the roles are decided by: those of the rows with a target. */
  ghost predicate ErasOf(uniq: seq<int>, era: seq<int>, keep: seq<bool>)
    requires |era| == |keep|
  {
    Ascending(uniq) && ValuesOf(uniq) == ValuesOf(Masked(era, keep, |era|))
  }

  /** role[isin(kept, eras)] = r. */
  method MarkRole(role: array<Role>, kept: seq<int>, eras: seq<int>, r: Role)
    requires role.Length == |kept|
    modifies role
    ensures forall i {:trigger role[i]} | 0 <= i < |kept| :: role[i] == if kept[i] in eras then r else old(role[i])
  {
    for i := 0 to |kept|
      invariant forall j {:trigger role[j]} | 0 <= j < |kept| ::
                  role[j] == if j < i && kept[j] in eras then r else old(role[j])
    {
      if kept[i] in eras {
        role[i] := r;
      }
    }
  }

  /** keep_all[keep] = role != 0, with the counts of surviving and of training rows. */
  method FilterRows(uniq: seq<int>, era: seq<int>, keep: seq<bool>, role: array<Role>) returns (split: Split)
    requires |era| == |keep| && role.Length == |Masked(era, keep, |era|)|
    requires forall i {:trigger role[i]} | 0 <= i < role.Length :: role[i] == RoleOf(uniq, Masked(era, keep, |era|)[i])
    ensures |split.keepAll| == |era|
    ensures forall i {:trigger split.keepAll[i]} | 0 <= i < |era| ::
              split.keepAll[i] == (keep[i] && RoleOf(uniq, era[i]) != Embargo)
    ensures split.nRows == |Surviving(uniq, Masked(era, keep, |era|))|
    ensures split.trainEnd == CountTrain(uniq, Masked(era, keep, |era|))
  {
    var keepAll := [];
    var pos: nat := 0;
    for i := 0 to |era|
      invariant |keepAll| == i && pos == |Masked(era, keep, i)|
      invariant forall j {:trigger keepAll[j]} | 0 <= j < i ::
                  keepAll[j] == (keep[j] && RoleOf(uniq, era[j]) != Embargo)
    {
      MaskedGrows(era, keep, i);
      if keep[i] {
        keepAll := keepAll + [role[pos] != Embargo];
        pos := pos + 1;
      } else {
        keepAll := keepAll + [false];
      }
    }
    ghost var kept := Masked(era, keep, |era|);
    var nRows, trainEnd: nat := 0, 0;
    for i := 0 to role.Length
      invariant nRows == |Surviving(uniq, kept[..i])| && trainEnd == CountTrain(uniq, kept[..i])
    {
      assert kept[..i + 1][..i] == kept[..i];
      nRows := nRows + if role[i] != Embargo then 1 else 0;
      trainEnd := trainEnd + if role[i] == Train then 1 else 0;
    }
    assert kept[..|kept|] == kept;
    split := Split(keepAll, nRows, trainEnd);
  }

  /** The masked rows so far begin the masked rows of the whole. */
  lemma {:induction false} MaskedGrows<T>(s: seq<T>, mask: seq<bool>, i: nat)
    requires i < |s| == |mask|
    ensures mask[i] ==>
              |Masked(s, mask, i)| < |Masked(s, mask, |s|)| && Masked(s, mask, |s|)[|Masked(s, mask, i)|] == s[i]
  {
    MaskedBatch(s, mask, i + 1, |s| - i - 1);
  }

  /** Nothing if the file is not sorted by era; otherwise the filter, and the surviving rows split at trainEnd. */
  method NumeraiRoles(era: seq<int>, keep: seq<bool>) returns (r: Option<Split>, ghost uniq: seq<int>)
    requires |era| == |keep|
    ensures r.None? <==> !Sorted(era)
    ensures r.Some? ==>
              && ErasOf(uniq, era, keep) && |r.value.keepAll| == |era|
              && (forall i {:trigger r.value.keepAll[i]} | 0 <= i < |era| ::
                    r.value.keepAll[i] == (keep[i] && RoleOf(uniq, era[i]) != Embargo))
              && r.value.nRows == |Masked(era, r.value.keepAll, |era|)|
              && SplitAt(uniq, Masked(era, r.value.keepAll, |era|), r.value.trainEnd)
              && r.value.trainEnd == CountTrain(uniq, Masked(era, keep, |era|))
  {
    uniq := [];
    var i: nat := 1;
    while i < |era|
      invariant forall j, k {:trigger era[j], era[k]} | 0 <= j < k < i && k < |era| :: era[j] <= era[k]
    {
      if era[i] - era[i - 1] < 0 {
        return None, [];
      }
      i := i + 1;
    }
    var kept := Masked(era, keep, |era|);
    var eras := Unique(kept);
    uniq := eras;
    var role := new Role[|kept|](_ => Train);
    MarkRole(role, kept, EmbargoEras(eras), Embargo);
    MarkRole(role, kept, TestEras(eras), Test);
    var split := FilterRows(eras, era, keep, role);
    MaskedSorted(era, keep, |era|);
    TrainThenTest(eras, kept);
    FilterIsSurviving(eras, era, keep, split.keepAll, |era|);
    r := Some(split);
  }

  // ---------------------------------------------------------------- streaming

  function Total(sizes: seq<nat>): nat {
    if sizes == [] then 0 else Total(sizes[..|sizes| - 1]) + sizes[|sizes| - 1]
  }

  /** prep_numerai's second pass, on one of the parallel outputs: batches of any sizes, each contributing its masked
      rows at the write position. */
  method Stream<T(0)>(rows: seq<T>, keepAll: seq<bool>, sizes: seq<nat>, nRows: nat) returns (x: array<T>)
    requires |keepAll| == |rows| == Total(sizes) && nRows == |Masked(rows, keepAll, |rows|)|
    ensures x[..] == Masked(rows, keepAll, |rows|)
  {
    x := new T[nRows];
    var rowAbs, rowOut: nat := 0, 0;
    for b := 0 to |sizes|
      invariant rowAbs == Total(sizes[..b]) <= |rows|
      invariant rowOut == |Masked(rows, keepAll, rowAbs)| <= nRows && x[..rowOut] == Masked(rows, keepAll, rowAbs)
    {
      var nb := sizes[b];
      BatchFits(sizes, b);
      BatchRoom(rows, keepAll, rowAbs, nb);
      var sel := Masked(rows[rowAbs..rowAbs + nb], keepAll[rowAbs..rowAbs + nb], nb);
      WriteAt(x, rowOut, sel);
      rowOut := rowOut + |sel|;
      rowAbs := rowAbs + nb;
    }
    assert sizes[..|sizes|] == sizes;
    assert rowOut == nRows;
  }

  /** A batch's masked rows follow those before it, and fit. */
  lemma BatchRoom<T>(rows: seq<T>, keepAll: seq<bool>, a: nat, n: nat)
    requires a + n <= |rows| == |keepAll|
    ensures Masked(rows, keepAll, a + n) == Masked(rows, keepAll, a) + Masked(rows[a..a + n], keepAll[a..a + n], n)
    ensures |Masked(rows, keepAll, a + n)| <= |Masked(rows, keepAll, |rows|)|
  {
    MaskedBatch(rows, keepAll, a, n);
    MaskedBatch(rows, keepAll, a + n, |rows| - a - n);
  }

  /** x[at : at + len(sel)] = sel. */
  method WriteAt<T>(x: array<T>, at: nat, sel: seq<T>)
    requires at + |sel| <= x.Length
    modifies x
    ensures x[..at + |sel|] == old(x[..at]) + sel
  {
    for k := 0 to |sel|
      invariant x[..at + k] == old(x[..at]) + sel[..k]
    {
      x[at + k] := sel[k];
      assert x[..at + k + 1] == x[..at + k] + [sel[k]];
    }
  }

  lemma {:induction false} BatchFits(sizes: seq<nat>, b: nat)
    requires b < |sizes|
    ensures Total(sizes[..b + 1]) == Total(sizes[..b]) + sizes[b] <= Total(sizes)
    decreases |sizes|
  {
    assert sizes[..b + 1][..b] == sizes[..b];
    if b + 1 < |sizes| {
      BatchFits(sizes[..|sizes| - 1], b);
      assert sizes[..|sizes| - 1][..b + 1] == sizes[..b + 1] && sizes[..|sizes| - 1][..b] == sizes[..b];
    } else {
      assert sizes[..b + 1] == sizes;
    }
  }

  // ---------------------------------------------------------------- prep_numerai

  /** Row `i` has a target and its era has the role. */
  predicate HasRole(uniq: seq<int>, era: seq<int>, keep: seq<bool>, role: Role, i: nat)
    requires i < |era| == |keep|
  {
    keep[i] && RoleOf(uniq, era[i]) == role
  }

  /** The rows below `n` with the role, in file order. */
  function RowsWith<T>(rows: seq<T>, uniq: seq<int>, era: seq<int>, keep: seq<bool>, role: Role, n: nat): seq<T>
    requires n <= |rows| == |era| == |keep|
  {
    if n == 0 then []
    else RowsWith(rows, uniq, era, keep, role, n - 1)
         + if HasRole(uniq, era, keep, role, n - 1) then [rows[n - 1]] else []
  }

  lemma {:induction false} NoRowsWith<T>(rows: seq<T>, uniq: seq<int>, era: seq<int>, keep: seq<bool>, role: Role,
                                         n: nat)
    requires n <= |rows| == |era| == |keep|
    requires forall i | 0 <= i < n :: !HasRole(uniq, era, keep, role, i)
    ensures RowsWith(rows, uniq, era, keep, role, n) == []
  {
    if n > 0 {
      assert !HasRole(uniq, era, keep, role, n - 1);
      NoRowsWith(rows, uniq, era, keep, role, n - 1);
    }
  }

  /** There are as many training rows as training eras among the kept ones. */
  lemma {:induction false} TrainRowsCounted<T>(rows: seq<T>, uniq: seq<int>, era: seq<int>, keep: seq<bool>, n: nat)
    requires n <= |rows| == |era| == |keep|
    ensures |RowsWith(rows, uniq, era, keep, Train, n)| == CountTrain(uniq, Masked(era, keep, n))
  {
    if n > 0 {
      TrainRowsCounted(rows, uniq, era, keep, n - 1);
      var init := Masked(era, keep, n - 1);
      if keep[n - 1] {
        CountTrainSnoc(uniq, init, era[n - 1]);
      } else {
        assert init + [] == init;
      }
    }
  }

  lemma CountTrainSnoc(uniq: seq<int>, kept: seq<int>, e: int)
    ensures CountTrain(uniq, kept + [e]) == CountTrain(uniq, kept) + if RoleOf(uniq, e) == Train then 1 else 0
  {
  }

  /** In a sorted file no test row comes before a training row. */
  lemma NoTestRowsBefore<T>(rows: seq<T>, uniq: seq<int>, era: seq<int>, keep: seq<bool>, n: nat)
    requires n < |rows| == |era| == |keep| && Sorted(era) && ErasOf(uniq, era, keep)
    requires HasRole(uniq, era, keep, Train, n)
    ensures RowsWith(rows, uniq, era, keep, Test, n) == []
  {
    KeptEra(uniq, era, keep, n);
    forall i | 0 <= i < n
      ensures !HasRole(uniq, era, keep, Test, i)
    {
      if keep[i] {
        KeptEra(uniq, era, keep, i);
        RolesInOrder(uniq, era[i], era[n]);
      }
    }
    NoRowsWith(rows, uniq, era, keep, Test, n);
  }

  lemma KeptEra(uniq: seq<int>, era: seq<int>, keep: seq<bool>, i: nat)
    requires i < |era| == |keep| && keep[i] && ErasOf(uniq, era, keep)
    ensures era[i] in uniq
  {
    MaskedGrows(era, keep, i);
    assert era[i] in ValuesOf(Masked(era, keep, |era|));
  }

  /** What the filter lets through is the training rows followed by the test rows. */
  /** One more row, of one role or of none. */
  lemma SplitNext<T>(masked: seq<T>, train: seq<T>, test: seq<T>, row: T, trains: bool, tests: bool)
    requires masked == train + test && !(trains && tests) && (trains ==> test == [])
    ensures masked + (if trains || tests then [row] else [])
            == (train + if trains then [row] else []) + (test + if tests then [row] else [])
  {
  }

  lemma {:induction false} MaskedSplits<T>(rows: seq<T>, uniq: seq<int>, era: seq<int>, keep: seq<bool>,
                                           keepAll: seq<bool>, n: nat)
    requires n <= |rows| == |era| == |keep| == |keepAll| && Sorted(era) && ErasOf(uniq, era, keep)
    requires forall i {:trigger keepAll[i]} | 0 <= i < |era| ::
               keepAll[i] == (keep[i] && RoleOf(uniq, era[i]) != Embargo)
    ensures Masked(rows, keepAll, n)
            == RowsWith(rows, uniq, era, keep, Train, n) + RowsWith(rows, uniq, era, keep, Test, n)
  {
    if n > 0 {
      MaskedSplits(rows, uniq, era, keep, keepAll, n - 1);
      var train, test := RowsWith(rows, uniq, era, keep, Train, n - 1), RowsWith(rows, uniq, era, keep, Test, n - 1);
      var trains, tests := HasRole(uniq, era, keep, Train, n - 1), HasRole(uniq, era, keep, Test, n - 1);
      if trains {
        NoTestRowsBefore(rows, uniq, era, keep, n - 1);
      }
      assert keepAll[n - 1] <==> trains || tests;
      SplitNext(Masked(rows, keepAll, n - 1), train, test, rows[n - 1], trains, tests);
    }
  }

  /** Both passes, on the feature rows: the cache holds the training rows up to trainEnd and the test rows from there,
      each in file order, for every batch size. */
  method PrepNumerai<T(0)>(era: seq<int>, keep: seq<bool>, rows: seq<T>, sizes: seq<nat>)
    returns (r: Option<Split>, x: array<T>, ghost uniq: seq<int>)
    requires |era| == |keep| == |rows| == Total(sizes)
    ensures r.None? <==> !Sorted(era)
    ensures r.Some? ==>
              && ErasOf(uniq, era, keep) && r.value.trainEnd <= x.Length == r.value.nRows
              && x[..r.value.trainEnd] == RowsWith(rows, uniq, era, keep, Train, |rows|)
              && x[r.value.trainEnd..] == RowsWith(rows, uniq, era, keep, Test, |rows|)
  {
    r, uniq := NumeraiRoles(era, keep);
    if r.None? {
      x := new T[0];
      return;
    }
    MaskedLength(era, rows, r.value.keepAll, |rows|);
    x := Stream(rows, r.value.keepAll, sizes, r.value.nRows);
    MaskedSplits(rows, uniq, era, keep, r.value.keepAll, |rows|);
    TrainRowsCounted(rows, uniq, era, keep, |rows|);
  }

  lemma {:induction false} MaskedLength<S, T>(s: seq<S>, t: seq<T>, mask: seq<bool>, n: nat)
    requires n <= |s| == |t| == |mask|
    ensures |Masked(s, mask, n)| == |Masked(t, mask, n)|
  {
    if n > 0 {
      MaskedLength(s, t, mask, n - 1);
    }
  }
}
