/** The benchmark results log: an append-only list of records, one per finished cell. Appends are atomic. */
module BenchLog {

  /** Library, dataset and regime names, told apart by number. */
  type Name = nat

  datatype Kind = Warmup | Timed(n: nat) | Curve
  datatype Cell = Cell(library: Name, dataset: Name, regime: Name, kind: Kind)
  datatype Status = Ok | Insane | BadCurve | Failed | Timeout | SkippedWarmupFailed
  datatype Record = Record(cell: Cell, status: Status)
  datatype Pair = Pair(library: Name, dataset: Name)

  type Log = seq<Record>

  function PairOf(c: Cell): Pair {
    Pair(c.library, c.dataset)
  }

  function WarmupOf(c: Cell): Cell {
    c.(kind := Warmup)
  }

  ghost function Recorded(log: Log): set<Cell> {
    set r | r in log :: r.cell
  }

  /** No cell has two records. */
  ghost predicate NoDuplicates(log: Log) {
    log == [] || (NoDuplicates(log[..|log| - 1]) && log[|log| - 1].cell !in Recorded(log[..|log| - 1]))
  }

  /** The dictionary a reader of the log builds: the last record of a cell wins. */
  function Done(log: Log): (m: map<Cell, Status>)
    ensures m.Keys == Recorded(log)
  {
    if log == [] then map[] else Done(log[..|log| - 1])[log[|log| - 1].cell := log[|log| - 1].status]
  }

  /** The same dictionary restricted to the records of one pair, as the child reads it. */
  function DoneFor(log: Log, p: Pair): (m: map<Cell, Status>)
    ensures forall c :: c in m <==> c in Done(log) && PairOf(c) == p
    ensures forall c :: c in m ==> m[c] == Done(log)[c]
  {
    if log == [] then map[]
    else
      var m, last := DoneFor(log[..|log| - 1], p), log[|log| - 1];
      if PairOf(last.cell) == p then m[last.cell := last.status] else m
  }

  /** Without duplicates every record of a cell carries its status. */
  lemma {:induction false} DoneStatus(log: Log, i: nat)
    requires NoDuplicates(log) && i < |log|
    ensures log[i].cell in Done(log) && Done(log)[log[i].cell] == log[i].status
  {
    if i < |log| - 1 {
      var init := log[..|log| - 1];
      DoneStatus(init, i);
      assert init[i] == log[i];
    }
  }

  lemma {:induction false} NoDuplicatesPrefix(log: Log, n: nat)
    requires NoDuplicates(log) && n <= |log|
    ensures NoDuplicates(log[..n])
  {
    if n < |log| {
      NoDuplicatesPrefix(log[..|log| - 1], n);
      assert log[..|log| - 1][..n] == log[..n];
    } else {
      assert log[..n] == log;
    }
  }

  lemma RecordedAppend(log: Log, r: Record)
    ensures Recorded(log + [r]) == Recorded(log) + {r.cell}
  {
  }

  /** Appending the record of an unrecorded cell is safe. */
  lemma AppendRecord(log: Log, r: Record)
    ensures Done(log + [r]) == Done(log)[r.cell := r.status]
    ensures NoDuplicates(log + [r]) <==> NoDuplicates(log) && r.cell !in Recorded(log)
    ensures Recorded(log + [r]) == Recorded(log) + {r.cell}
  {
  }

  /** Record `i` is the last one of its cell. */
  ghost predicate LastOfCell(log: Log, i: int) {
    0 <= i < |log| && forall k {:trigger log[k]} | i < k < |log| :: log[k].cell != log[i].cell
  }

  /** A cell of its regime other than the warmup, and the last record of the regime's warmup says failed. */
  ghost predicate WarmupFailed(c: Cell, log: Log) {
    && c.kind != Warmup
    && exists i {:trigger LastOfCell(log, i)} ::
         LastOfCell(log, i) && log[i] == Record(Cell(c.library, c.dataset, c.regime, Warmup), Failed)
  }

  /** A record of another cell at the end makes no difference. */
  lemma LastKept(log: Log, init: Log, i: nat)
    requires log != [] && init == log[..|log| - 1] && i < |init| && log[|log| - 1].cell != log[i].cell
    ensures LastOfCell(log, i) <==> LastOfCell(init, i)
  {
    assert forall k {:trigger log[k]} {:trigger init[k]} | 0 <= k < |init| :: init[k] == log[k];
  }

  /** The dictionary shows the last record of a cell. */
  lemma {:induction false} DoneIsLast(log: Log, c: Cell, s: Status)
    ensures c in Done(log) && Done(log)[c] == s <==>
              exists i {:trigger LastOfCell(log, i)} :: LastOfCell(log, i) && log[i] == Record(c, s)
  {
    if log != [] {
      var init, last := log[..|log| - 1], log[|log| - 1];
      DoneIsLast(init, c, s);
      if last.cell == c {
        assert LastOfCell(log, |log| - 1);
      } else if i :| LastOfCell(init, i) && init[i] == Record(c, s) {
        LastKept(log, init, i);
        assert log[i] == Record(c, s);
      } else if i :| LastOfCell(log, i) && log[i] == Record(c, s) {
        LastKept(log, init, i);
        assert false;
      }
    }
  }

  /** What the child looks up is whether the warmup of the cell's regime failed. */
  lemma WarmupLookup(c: Cell, log: Log)
    ensures WarmupFailed(c, log) <==> c.kind != Warmup && WarmupOf(c) in Done(log) && Done(log)[WarmupOf(c)] == Failed
  {
    DoneIsLast(log, WarmupOf(c), Failed);
  }

  /** Without duplicates every record is the last of its cell. */
  lemma {:induction false} NoDuplicatesLast(log: Log, i: nat)
    requires NoDuplicates(log) && i < |log|
    ensures LastOfCell(log, i)
  {
    if i < |log| - 1 {
      var init := log[..|log| - 1];
      NoDuplicatesLast(init, i);
      assert init[i] == log[i] && log[i] in init;
      forall k {:trigger log[k]} | i < k < |log|
        ensures log[k].cell != log[i].cell
      {
        if k < |init| {
          assert init[k] == log[k];
        }
      }
    }
  }

  /** From position `from` on, a record says skipped exactly when its regime's warmup had failed by then. */
  ghost predicate SkipsRight(log: Log, from: nat) {
    forall i {:trigger log[i]} | from <= i < |log| ::
      log[i].status == SkippedWarmupFailed <==> WarmupFailed(log[i].cell, log[..i])
  }

  lemma SkipsRightAppend(log: Log, from: nat, r: Record)
    requires SkipsRight(log, from) && (r.status == SkippedWarmupFailed <==> WarmupFailed(r.cell, log))
    ensures SkipsRight(log + [r], from)
  {
    var more := log + [r];
    forall i {:trigger more[i]} | from <= i < |more|
      ensures more[i].status == SkippedWarmupFailed <==> WarmupFailed(more[i].cell, more[..i])
    {
      if i < |log| {
        assert more[i] == log[i] && more[..i] == log[..i];
      } else {
        assert more[..i] == log;
      }
    }
  }

  // ---------------------------------------------------------------- lists of cells

  ghost function Cells(s: seq<Cell>): set<Cell> {
    set c | c in s
  }

  ghost predicate Distinct(cells: seq<Cell>) {
    cells == [] || (Distinct(cells[..|cells| - 1]) && cells[|cells| - 1] !in cells[..|cells| - 1])
  }

  /** The cells not in the dictionary, in order. */
  function Unrecorded(cells: seq<Cell>, done: map<Cell, Status>): seq<Cell> {
    if cells == [] then []
    else
      var last := cells[|cells| - 1];
      Unrecorded(cells[..|cells| - 1], done) + if last in done then [] else [last]
  }

  /** The cells of one (library, dataset) pair, in order. */
  function OfPair(cells: seq<Cell>, p: Pair): seq<Cell> {
    if cells == [] then []
    else
      var last := cells[|cells| - 1];
      OfPair(cells[..|cells| - 1], p) + if PairOf(last) == p then [last] else []
  }

  lemma {:induction false} UnrecordedHas(cells: seq<Cell>, done: map<Cell, Status>, c: Cell)
    ensures c in Unrecorded(cells, done) <==> c in cells && c !in done
  {
    if cells != [] {
      UnrecordedHas(cells[..|cells| - 1], done, c);
      assert cells == cells[..|cells| - 1] + [cells[|cells| - 1]];
    }
  }

  /** `part` is `all` without some elements, in the same order. */
  ghost predicate KeepsOrder<T>(part: seq<T>, all: seq<T>, at: seq<nat>) {
    && |at| == |part|
    && (forall k {:trigger at[k]} | 0 <= k < |at| :: at[k] < |all| && all[at[k]] == part[k])
    && (forall k, l {:trigger at[k], at[l]} | 0 <= k < l < |at| :: at[k] < at[l])
  }

  /** The cells to do keep their order. */
  lemma {:induction false} UnrecordedInOrder(cells: seq<Cell>, done: map<Cell, Status>) returns (at: seq<nat>)
    ensures KeepsOrder(Unrecorded(cells, done), cells, at)
  {
    at := [];
    if cells != [] {
      at := UnrecordedInOrder(cells[..|cells| - 1], done);
      if cells[|cells| - 1] !in done {
        at := at + [|cells| - 1];
      }
    }
  }

  /** A pair's cells keep their order. */
  lemma {:induction false} OfPairInOrder(cells: seq<Cell>, p: Pair) returns (at: seq<nat>)
    ensures KeepsOrder(OfPair(cells, p), cells, at)
  {
    at := [];
    if cells != [] {
      at := OfPairInOrder(cells[..|cells| - 1], p);
      if PairOf(cells[|cells| - 1]) == p {
        at := at + [|cells| - 1];
      }
    }
  }

  /** Every cell to do is one of the cells, and has no record. */
  lemma UnrecordedAt(cells: seq<Cell>, done: map<Cell, Status>, i: nat)
    requires i < |Unrecorded(cells, done)|
    ensures Unrecorded(cells, done)[i] in cells && Unrecorded(cells, done)[i] !in done
  {
  }

  ghost predicate AllOf(cells: seq<Cell>, p: Pair) {
    forall i {:trigger cells[i]} | 0 <= i < |cells| :: PairOf(cells[i]) == p
  }

  lemma {:induction false} UnrecordedAllOf(cells: seq<Cell>, done: map<Cell, Status>, p: Pair)
    requires AllOf(cells, p)
    ensures AllOf(Unrecorded(cells, done), p)
  {
    if cells != [] {
      UnrecordedAllOf(cells[..|cells| - 1], done, p);
    }
  }

  lemma {:induction false} OfPairAllOf(cells: seq<Cell>, p: Pair)
    ensures AllOf(OfPair(cells, p), p)
  {
    if cells != [] {
      OfPairAllOf(cells[..|cells| - 1], p);
    }
  }

  lemma {:induction false} OfPairHas(cells: seq<Cell>, p: Pair, c: Cell)
    ensures c in OfPair(cells, p) <==> c in cells && c.library == p.library && c.dataset == p.dataset
  {
    if cells != [] {
      OfPairHas(cells[..|cells| - 1], p, c);
      assert cells == cells[..|cells| - 1] + [cells[|cells| - 1]];
    }
  }

  lemma DistinctAppend(cells: seq<Cell>, c: Cell)
    ensures Distinct(cells + [c]) <==> Distinct(cells) && c !in cells
  {
  }

  lemma {:induction false} UnrecordedDistinct(cells: seq<Cell>, done: map<Cell, Status>)
    requires Distinct(cells)
    ensures Distinct(Unrecorded(cells, done))
  {
    if cells != [] {
      var init, last := cells[..|cells| - 1], cells[|cells| - 1];
      UnrecordedDistinct(init, done);
      UnrecordedHas(init, done, last);
      DistinctAppend(Unrecorded(init, done), last);
      assert Unrecorded(init, done) + [] == Unrecorded(init, done);
    }
  }

  /** The cells of a pair: the restricted dictionary serves as well as the whole one. */
  lemma {:induction false} UnrecordedFor(cells: seq<Cell>, log: Log, p: Pair)
    requires AllOf(cells, p)
    ensures Unrecorded(cells, DoneFor(log, p)) == Unrecorded(cells, Done(log))
  {
    if cells != [] {
      UnrecordedFor(cells[..|cells| - 1], log, p);
    }
  }

  lemma {:induction false} OfPairDistinct(cells: seq<Cell>, p: Pair)
    requires Distinct(cells)
    ensures Distinct(OfPair(cells, p))
  {
    if cells != [] {
      var init, last := cells[..|cells| - 1], cells[|cells| - 1];
      OfPairDistinct(init, p);
      OfPairHas(init, p, last);
      DistinctAppend(OfPair(init, p), last);
      assert OfPair(init, p) + [] == OfPair(init, p);
    }
  }

  /** The requested cells without a record. */
  ghost function Missing(cells: seq<Cell>, log: Log): set<Cell> {
    set c | c in cells && c !in Recorded(log)
  }

  lemma MissingShrinks(cells: seq<Cell>, log: Log, log': Log)
    requires log <= log'
    ensures Missing(cells, log') <= Missing(cells, log) && Recorded(log) <= Recorded(log')
  {
  }

  lemma {:induction false} DistinctPrefix(cells: seq<Cell>, i: nat)
    requires Distinct(cells) && i <= |cells|
    ensures Distinct(cells[..i])
  {
    if i < |cells| {
      DistinctPrefix(cells[..|cells| - 1], i);
      assert cells[..|cells| - 1][..i] == cells[..i];
    } else {
      assert cells[..i] == cells;
    }
  }

  /** Filtering by an earlier state of the log first makes no difference. */
  lemma {:induction false} UnrecordedTwice(cells: seq<Cell>, before: map<Cell, Status>, after: map<Cell, Status>)
    requires before.Keys <= after.Keys
    ensures Unrecorded(Unrecorded(cells, before), after) == Unrecorded(cells, after)
  {
    if cells != [] {
      var init, last := cells[..|cells| - 1], cells[|cells| - 1];
      UnrecordedTwice(init, before, after);
      var part := Unrecorded(init, before);
      assert part + [] == part && (part + [last])[..|part|] == part;
    }
  }

  lemma OfPairStep(cells: seq<Cell>, i: nat, p: Pair)
    requires i < |cells|
    ensures OfPair(cells[..i + 1], p) == OfPair(cells[..i], p) + if PairOf(cells[i]) == p then [cells[i]] else []
  {
    assert cells[..i + 1][..i] == cells[..i];
  }
}
