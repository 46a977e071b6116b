/** The resumable benchmark runner: orchestrate.py starts one bench.py process per (library, dataset) pair. Processes
    may die and the parent may be interrupted at any point; an interrupted parent takes its child with it. */
module BenchRunner {
  import opened BenchLog
  import opened FiniteSets

  /** How a child ends, as its parent sees it. */
  datatype Exit = Clean | Crashed | TimedOut

  /** One execution of a cell, with the length of the log when it began. */
  datatype Run = Run(cell: Cell, at: nat)

  class Results {
    var log: Log
    /** The cells executed so far. */
    ghost var runs: seq<Run>

    /** No timed cell was executed after its regime's warmup was recorded as failed. */
    ghost predicate Valid()
      reads this
    {
      forall e {:trigger e in runs} | e in runs :: e.at <= |log| && Allowed(e.cell, log[..e.at])
    }

    constructor (log: Log)
      ensures Valid() && this.log == log && runs == []
    {
      this.log, runs := log, [];
    }

    // ---------------------------------------------------------------- the child

    /** An execution that ends in a record: ok, insane, with a bad curve, or failed. */
    method RunCell() returns (s: Status)
      ensures s.Ok? || s.Insane? || s.BadCurve? || s.Failed?
    {
      if
      case true => s := Ok;
      case true => s := Insane;
      case true => s := BadCurve;
      case true => s := Failed;
    }

    method Killed() returns (e: Exit)
      ensures e != Clean
    {
      if * {
        e := Crashed;
      } else {
        e := TimedOut;
      }
    }

    /** One cell: skipped, executed, or fatal to the process before its record is written. */
    method RunOne(c: Cell, done: map<Cell, Status>, p: Pair) returns (written: bool, status: Status)
      requires Valid() && PairOf(c) == p && done == DoneFor(log, p)
      modifies this
      ensures Valid()
      ensures if written then log == old(log) + [Record(c, status)] else log == old(log)
      ensures written ==> (status == SkippedWarmupFailed <==> WarmupFailed(c, old(log)))
    {
      status := SkippedWarmupFailed;
      WarmupLookup(c, log);
      if !(c.kind != Warmup && WarmupOf(c) in done && done[WarmupOf(c)] == Failed) {
        runs := runs + [Run(c, |log|)];
        assert log[..|log|] == log;
        if * {
          return false, Failed;
        }
        status := RunCell();
      }
      Append(Record(c, status));
      written := true;
    }

    method Append(r: Record)
      requires Valid()
      modifies this`log
      ensures Valid() && log == old(log) + [r]
    {
      log := log + [r];
      assert forall k | 0 <= k <= |old(log)| :: log[..k] == old(log)[..k];
    }

    /** What the child has recorded since `before`: the cells `reached`. */
    ghost predicate Reached(before: Log, reached: seq<Cell>)
      reads this
    {
      && Valid() && before <= log && SkipsRight(log, |before|)
      && Recorded(log) == Recorded(before) + Cells(reached)
      && (NoDuplicates(log) <==> Distinct(reached))
    }

    /** One cell to do: it gets its record, or the process dies before that. */
    method ChildStep(c: Cell, done: map<Cell, Status>, p: Pair, ghost before: Log, ghost reached: seq<Cell>)
      returns (written: bool, done': map<Cell, Status>)
      requires Reached(before, reached) && PairOf(c) == p && c !in Recorded(before) && done == DoneFor(log, p)
      modifies this
      ensures Reached(before, if written then reached + [c] else reached)
      ensures written ==> done' == DoneFor(log, p)
    {
      var status;
      written, status := RunOne(c, done, p);
      done' := done;
      if written {
        Recording(before, old(log), reached, Record(c, status), |before|, p);
        done' := done[c := status];
      }
    }

    /** The cells to do, in order, until the process ends or dies. */
    method ChildCells(p: Pair, todo: seq<Cell>, done: map<Cell, Status>) returns (exit: Exit, ghost reached: seq<Cell>)
      requires Valid() && NoDuplicates(log) && AllOf(todo, p) && done == DoneFor(log, p)
      requires forall i {:trigger todo[i]} | 0 <= i < |todo| :: todo[i] !in Recorded(log)
      modifies this
      ensures Reached(old(log), reached) && IsPrefix(reached, todo) && (exit == Clean ==> reached == todo)
    {
      reached := [];
      var known := done;
      for i := 0 to |todo|
        invariant Reached(old(log), reached) && reached == todo[..i] && known == DoneFor(log, p)
      {
        var written;
        written, known := ChildStep(todo[i], known, p, old(log), reached);
        if !written {
          exit := Killed();
          return;
        }
        PrefixStep(todo, i);
        reached := todo[..i + 1];
        if * {
          exit := Killed();
          return;
        }
      }
      exit := Clean;
    }

    /** bench.py on one pair's cells: it skips recorded cells, appends one record per cell, and may die anywhere.
        `reached` are the cells that got their record. */
    method Child(p: Pair, cells: seq<Cell>) returns (exit: Exit, ghost reached: seq<Cell>)
      requires Valid() && NoDuplicates(log) && AllOf(cells, p)
      modifies this
      ensures Valid() && old(log) <= log && SkipsRight(log, |old(log)|)
      // the new records are those of the first cells to do, in order, all of them after a clean exit
      ensures IsPrefix(reached, Unrecorded(cells, Done(old(log))))
      ensures Recorded(log) == Recorded(old(log)) + Cells(reached)
      ensures exit == Clean ==> reached == Unrecorded(cells, Done(old(log)))
      // a cell gets two records exactly when it is asked for twice and reached twice
      ensures NoDuplicates(log) <==> Distinct(reached)
    {
      reached := [];
      if * {
        exit := Killed();
        return;
      }
      var done := DoneFor(log, p);
      var todo := Unrecorded(cells, done);
      UnrecordedFor(cells, log, p);
      UnrecordedAllOf(cells, done, p);
      forall i {:trigger todo[i]} | 0 <= i < |todo|
        ensures todo[i] !in Recorded(log)
      {
        UnrecordedAt(cells, Done(log), i);
      }
      exit, reached := ChildCells(p, todo, done);
    }

    // ---------------------------------------------------------------- the parent

    /** After the child: if it left cells without a record, the first of them is recorded on its behalf. */
    method CloseGroup(pending: seq<Cell>, exit: Exit)
      requires Valid() && NoDuplicates(log)
      modifies this`log
      ensures Valid() && NoDuplicates(log)
      ensures log == Closed(old(log), Unrecorded(pending, Done(old(log))), exit)
    {
      var missing := Unrecorded(pending, Done(log));
      if missing != [] {
        UnrecordedAt(pending, Done(log), 0);
        AppendRecord(log, Record(missing[0], ParentStatus(exit)));
        Append(Record(missing[0], ParentStatus(exit)));
      }
    }

    /** The child on the pending cells of a group whose cells are requested once. */
    method ChildOf(p: Pair, ghost group: seq<Cell>, pending: seq<Cell>) returns (exit: Exit)
      requires Valid() && NoDuplicates(log) && Distinct(group) && AllOf(group, p)
      requires pending == Unrecorded(group, Done(log))
      modifies this
      ensures Valid() && NoDuplicates(log) && old(log) <= log && SkipsRight(log, |old(log)|)
      ensures Recorded(log) <= Recorded(old(log)) + Cells(group)
      ensures exit == Clean ==> Cells(group) <= Recorded(log)
      ensures Unrecorded(pending, Done(log)) == Unrecorded(group, Done(log))
    {
      UnrecordedDistinct(group, Done(log));
      UnrecordedAllOf(group, Done(log), p);
      UnrecordedTwice(group, Done(log), Done(log));
      ghost var before, reached := log, [];
      exit, reached := Child(p, pending);
      DistinctPrefix(pending, |reached|);
      MissingShrinks(group, before, log);
      UnrecordedTwice(group, Done(before), Done(log));
      PendingInGroup(group, before, pending, reached);
    }

    /** One group of orchestrate.py's main loop. An interruption leaves what is recorded. */
    method RunGroup(p: Pair, group: seq<Cell>, interruptible: bool)
      returns (finished: bool, exit: Exit, ghost child: Log)
      requires Valid() && NoDuplicates(log) && Distinct(group) && AllOf(group, p)
      modifies this
      ensures Valid() && NoDuplicates(log) && (!interruptible ==> finished)
      // `child` is the log the child left: it records only cells of the group, all of them if the child was well
      ensures old(log) <= child && Recorded(child) <= Recorded(old(log)) + Cells(group) && SkipsRight(child, |old(log)|)
      ensures exit == Clean ==> Cells(group) <= Recorded(child)
      // the parent adds a record for the first cell left out, and for no other
      ensures log == if finished then Closed(child, Unrecorded(group, Done(child)), exit) else child
      ensures finished && Unrecorded(group, Done(child)) != [] ==>
                log == child + [Record(Unrecorded(group, Done(child))[0],
                                       match exit case TimedOut => Timeout case _ => Failed)]
    {
      exit, finished, child := Clean, true, log;
      var pending := Unrecorded(group, Done(log));
      if pending == [] {
        PendingInGroup(group, log, [], []);
        return;
      }
      exit := ChildOf(p, group, pending);
      child := log;
      if interruptible {
        finished := *;
      }
      if finished {
        CloseGroup(pending, exit);
      }
    }

    /** orchestrate.py's main on a request of distinct cells. */
    method Launch(requested: seq<Cell>, interruptible: bool) returns (finished: bool)
      requires Valid() && NoDuplicates(log) && Distinct(requested)
      modifies this
      ensures Valid() && NoDuplicates(log) && old(log) <= log && (!interruptible ==> finished)
      ensures Recorded(log) <= Recorded(old(log)) + Cells(requested)
      // a launch that finishes makes progress on every pair with cells left
      ensures finished ==> EveryPairProgresses(requested, old(log), log)
    {
      ghost var before := log;
      var todo := Unrecorded(requested, Done(log));
      UnrecordedDistinct(requested, Done(log));
      var keys, groups := GroupByPair(todo);
      for k := 0 to |keys|
        invariant Valid() && NoDuplicates(log) && before <= log
        invariant Recorded(log) <= Recorded(before) + Cells(requested)
        invariant GroupsProgress(groups, k, before, log)
      {
        ghost var log1, child := log, log;
        var exit;
        GroupFacts(requested, before, todo, keys, groups, k);
        finished, exit, child := RunGroup(keys[k], groups[k], interruptible);
        if !finished {
          return;
        }
        GroupDone(groups[k], before, log1, child, exit, log);
        GroupsProgressStep(groups, k, before, log1, log);
      }
      PairsProgress(requested, before, todo, keys, groups, log);
      finished := true;
    }

    /** Relaunching without interruptions ends, after at most one launch per cell without a record. */
    method RelaunchUntilDone(requested: seq<Cell>) returns (launches: nat)
      requires Valid() && NoDuplicates(log) && Distinct(requested)
      modifies this
      ensures Valid() && NoDuplicates(log) && old(log) <= log && Cells(requested) <= Recorded(log)
      ensures launches <= |Missing(requested, old(log))|
    {
      launches := 0;
      while Unrecorded(requested, Done(log)) != []
        invariant Valid() && NoDuplicates(log) && old(log) <= log
        invariant launches + |Missing(requested, log)| <= |Missing(requested, old(log))|
        decreases |Missing(requested, log)|
      {
        UnrecordedAt(requested, Done(log), 0);
        ghost var log1 := log;
        ghost var p := PairOf(Unrecorded(requested, Done(log))[0]);
        OfPairHas(requested, p, Unrecorded(requested, Done(log))[0]);
        assert Unrecorded(requested, Done(log))[0] in Missing(OfPair(requested, p), log1);
        var finished := Launch(requested, false);
        PairCells(requested, p);
        GroupInRequest(requested, log1, OfPair(requested, p), log);
        ProperSubsetSize(Missing(requested, log), Missing(requested, log1));
        launches := launches + 1;
      }
      PendingInGroup(requested, log, [], []);
    }

    /** Any sequence of launches, with any requests, children dying and interruptions anywhere. */
    method Session(requests: seq<seq<Cell>>)
      requires Valid() && NoDuplicates(log) && forall i | 0 <= i < |requests| :: Distinct(requests[i])
      modifies this
      ensures Valid() && NoDuplicates(log) && old(log) <= log
    {
      for i := 0 to |requests|
        invariant Valid() && NoDuplicates(log) && old(log) <= log
      {
        var finished := Launch(requests[i], true);
      }
    }
  }

  // ---------------------------------------------------------------- grouping

  /** One entry per pair, each with the pair's cells in order. */
  ghost predicate Grouped(todo: seq<Cell>, keys: seq<Pair>, groups: seq<seq<Cell>>) {
    && |keys| == |groups|
    && (forall k {:trigger groups[k]} | 0 <= k < |groups| :: groups[k] == OfPair(todo, keys[k]) && groups[k] != [])
    && (forall c | c in todo :: PairOf(c) in keys)
  }

  /** The next cell joins its pair's list, or starts one. */
  lemma GroupStep(todo: seq<Cell>, i: nat, keys: seq<Pair>, groups: seq<seq<Cell>>, p: Pair, at: nat)
    requires i < |todo| && Grouped(todo[..i], keys, groups) && p == PairOf(todo[i]) && at <= |keys|
    requires forall k {:trigger keys[k]} | 0 <= k < |keys| :: keys[k] == p <==> k == at
    ensures at < |keys| ==> Grouped(todo[..i + 1], keys, groups[at := groups[at] + [todo[i]]])
    ensures at == |keys| ==> Grouped(todo[..i + 1], keys + [p], groups + [[todo[i]]])
  {
    forall q {:trigger OfPair(todo[..i + 1], q)}
      ensures OfPair(todo[..i + 1], q) == OfPair(todo[..i], q) + if p == q then [todo[i]] else []
    {
      OfPairStep(todo, i, q);
    }
    if at == |keys| {
      assert p !in keys;
      if OfPair(todo[..i], p) != [] {
        OfPairHas(todo[..i], p, OfPair(todo[..i], p)[0]);
        assert false;
      }
    }
  }

  /** The dictionary from pairs to cell lists, in the order the pairs first appear. */
  method GroupByPair(todo: seq<Cell>) returns (keys: seq<Pair>, groups: seq<seq<Cell>>)
    ensures Grouped(todo, keys, groups)
  {
    keys, groups := [], [];
    var index: map<Pair, nat> := map[];
    for i := 0 to |todo|
      invariant Grouped(todo[..i], keys, groups)
      invariant forall p :: p in index <==> p in keys
      invariant forall p | p in index :: index[p] < |keys| && keys[index[p]] == p
      invariant forall k {:trigger keys[k]} | 0 <= k < |keys| :: index[keys[k]] == k
    {
      var p := PairOf(todo[i]);
      GroupStep(todo, i, keys, groups, p, if p in index then index[p] else |keys|);
      if p in index {
        groups := groups[index[p] := groups[index[p]] + [todo[i]]];
      } else {
        index := index[p := |keys|];
        keys, groups := keys + [p], groups + [[todo[i]]];
      }
    }
    assert todo[..|todo|] == todo;
  }

  /** A group's cells are distinct, of its pair, and all without a record when the launch began. */
  lemma GroupFacts(requested: seq<Cell>, before: Log, todo: seq<Cell>, keys: seq<Pair>, groups: seq<seq<Cell>>, k: nat)
    requires todo == Unrecorded(requested, Done(before)) && Distinct(requested)
    requires Grouped(todo, keys, groups) && k < |keys|
    ensures groups[k] != [] && Distinct(groups[k]) && AllOf(groups[k], keys[k])
    ensures Cells(groups[k]) <= Missing(groups[k], before) && Cells(groups[k]) <= Cells(requested)
  {
    UnrecordedDistinct(requested, Done(before));
    OfPairDistinct(todo, keys[k]);
    OfPairAllOf(todo, keys[k]);
    forall c | c in groups[k]
      ensures c in requested && c !in Recorded(before)
    {
      OfPairHas(todo, keys[k], c);
      UnrecordedHas(requested, Done(before), c);
    }
  }

  /** What the parent adds belongs to the group. */
  lemma ClosedWithin(group: seq<Cell>, child: Log, exit: Exit)
    ensures child <= Closed(child, Unrecorded(group, Done(child)), exit)
    ensures Recorded(Closed(child, Unrecorded(group, Done(child)), exit)) <= Recorded(child) + Cells(group)
  {
    var missing := Unrecorded(group, Done(child));
    if missing != [] {
      UnrecordedAt(group, Done(child), 0);
      RecordedAppend(child, Record(missing[0], ParentStatus(exit)));
    }
  }

  /** Progress on a part of the request is progress on the request. */
  lemma GroupInRequest(requested: seq<Cell>, before: Log, group: seq<Cell>, log: Log)
    requires before <= log && Cells(group) <= Cells(requested) && Missing(group, log) < Missing(group, before)
    ensures Missing(requested, log) < Missing(requested, before)
  {
    MissingShrinks(requested, before, log);
    var c :| c in Missing(group, before) && c !in Missing(group, log);
    assert c in Cells(group);
    assert c in Missing(requested, before) && c !in Missing(requested, log);
  }

  /** A completed group run, whatever was recorded of the group in between. */
  lemma GroupDone(group: seq<Cell>, before: Log, log1: Log, child: Log, exit: Exit, log: Log)
    requires before <= log1 <= child && group != [] && Cells(group) <= Missing(group, before)
    requires log == Closed(child, Unrecorded(group, Done(child)), exit)
    ensures Missing(group, log) < Missing(group, before) && log1 <= log
    ensures Recorded(log) <= Recorded(child) + Cells(group)
  {
    ClosedWithin(group, child, exit);
    MissingShrinks(group, before, log1);
    MissingShrinks(group, log1, log);
    assert group[0] in Cells(group);
    if Missing(group, log1) != {} {
      GroupProgress(group, log1, child, exit);
    }
  }

  lemma PairCells(requested: seq<Cell>, p: Pair)
    ensures Cells(OfPair(requested, p)) <= Cells(requested)
  {
    forall c | c in OfPair(requested, p)
      ensures c in requested
    {
      OfPairHas(requested, p, c);
    }
  }

  /** The cells of a pair still missing are those of its group still missing. */
  lemma PairMissing(requested: seq<Cell>, before: Log, todo: seq<Cell>, p: Pair, log: Log)
    requires todo == Unrecorded(requested, Done(before)) && before <= log
    ensures Missing(OfPair(requested, p), log) == Missing(OfPair(todo, p), log)
  {
    MissingShrinks(requested, before, log);
    forall c | c !in Recorded(log)
      ensures c in OfPair(requested, p) <==> c in OfPair(todo, p)
    {
      OfPairHas(requested, p, c);
      OfPairHas(todo, p, c);
      UnrecordedHas(requested, Done(before), c);
    }
  }

  /** The first `k` groups have fewer cells left than before. */
  ghost predicate GroupsProgress(groups: seq<seq<Cell>>, k: nat, before: Log, log: Log) {
    k <= |groups| && forall i {:trigger groups[i]} | 0 <= i < k :: Missing(groups[i], log) < Missing(groups[i], before)
  }

  lemma GroupsProgressStep(groups: seq<seq<Cell>>, k: nat, before: Log, log1: Log, log: Log)
    requires k < |groups| && GroupsProgress(groups, k, before, log1) && log1 <= log
    requires Missing(groups[k], log) < Missing(groups[k], before)
    ensures GroupsProgress(groups, k + 1, before, log)
  {
  }

  /** Every pair with cells left has fewer of them. */
  ghost predicate EveryPairProgresses(requested: seq<Cell>, before: Log, log: Log) {
    forall p: Pair {:trigger OfPair(requested, p)} :: Missing(OfPair(requested, p), before) != {} ==>
      Missing(OfPair(requested, p), log) < Missing(OfPair(requested, p), before)
  }

  /** Progress on every group is progress on every pair. */
  lemma PairsProgress(requested: seq<Cell>, before: Log, todo: seq<Cell>, keys: seq<Pair>, groups: seq<seq<Cell>>,
                      log: Log)
    requires todo == Unrecorded(requested, Done(before)) && Grouped(todo, keys, groups) && before <= log
    requires GroupsProgress(groups, |groups|, before, log)
    ensures EveryPairProgresses(requested, before, log)
  {
    forall p: Pair {:trigger OfPair(requested, p)} | Missing(OfPair(requested, p), before) != {}
      ensures Missing(OfPair(requested, p), log) < Missing(OfPair(requested, p), before)
    {
      PairMissing(requested, before, todo, p, before);
      PairMissing(requested, before, todo, p, log);
      var c :| c in Missing(OfPair(todo, p), before);
      OfPairHas(todo, p, c);
      var k :| 0 <= k < |keys| && keys[k] == p;
      assert groups[k] == OfPair(todo, p);
    }
  }

  lemma PendingInGroup(group: seq<Cell>, log: Log, pending: seq<Cell>, reached: seq<Cell>)
    requires pending == Unrecorded(group, Done(log)) && IsPrefix(reached, pending)
    ensures Cells(reached) <= Cells(group)
    ensures reached == pending ==> Cells(group) <= Recorded(log) + Cells(reached)
  {
    forall c | c in reached
      ensures c in group
    {
      assert c in pending;
      UnrecordedHas(group, Done(log), c);
    }
    forall c | c in group && c !in Recorded(log)
      ensures c in pending
    {
      UnrecordedHas(group, Done(log), c);
    }
  }

  /** The status the parent writes for a cell whose process died. */
  function ParentStatus(exit: Exit): Status {
    if exit == TimedOut then Timeout else Failed
  }

  ghost function Closed(log: Log, missing: seq<Cell>, exit: Exit): Log {
    if missing == [] then log else log + [Record(missing[0], ParentStatus(exit))]
  }

  /** A completed group run with something to do leaves strictly fewer cells without a record. */
  lemma GroupProgress(group: seq<Cell>, before: Log, child: Log, exit: Exit)
    requires before <= child && Missing(group, before) != {}
    ensures Missing(group, Closed(child, Unrecorded(group, Done(child)), exit)) < Missing(group, before)
  {
    var missing := Unrecorded(group, Done(child));
    var log := Closed(child, missing, exit);
    MissingShrinks(group, before, child);
    MissingShrinks(group, child, log);
    if missing == [] {
      forall c | c in group
        ensures c in Recorded(log)
      {
        UnrecordedHas(group, Done(child), c);
      }
    } else {
      RecordedAppend(child, Record(missing[0], ParentStatus(exit)));
      UnrecordedHas(group, Done(child), missing[0]);
      assert missing[0] in Missing(group, before) && missing[0] !in Missing(group, log);
    }
  }

  /** The cell may be executed with this log. */
  ghost predicate Allowed(c: Cell, log: Log) {
    !WarmupFailed(c, log)
  }

  /** On every reachable log, no cell was executed after its regime's warmup was recorded as failed. */
  lemma NotRunAfterFailedWarmup(r: Results, e: Run, i: nat)
    requires r.Valid() && NoDuplicates(r.log) && e in r.runs && e.cell.kind != Warmup && i < e.at
    ensures var warmup := r.log[i];
            !(warmup.cell.library == e.cell.library && warmup.cell.dataset == e.cell.dataset
              && warmup.cell.regime == e.cell.regime && warmup.cell.kind == Warmup && warmup.status == Failed)
  {
    NoDuplicatesPrefix(r.log, e.at);
    NoDuplicatesLast(r.log[..e.at], i);
  }

  /** Asking for a cell twice (`--only d,d`, or a library named twice) records it twice if the child lives. */
  method TwiceAsked(c: Cell) returns (r: Results, exit: Exit)
    ensures exit == Clean ==> !NoDuplicates(r.log)
  {
    r := new Results([]);
    assert [c, c][..1] == [c] && [c][..0] == [];
    assert Unrecorded([c], Done([])) == [c] && Unrecorded([c, c], Done([])) == [c, c];
    ghost var reached;
    exit, reached := r.Child(PairOf(c), [c, c]);
    assert !Distinct([c, c]);
  }

  ghost predicate IsPrefix(a: seq<Cell>, b: seq<Cell>) {
    |a| <= |b| && a == b[..|a|]
  }

  lemma PrefixStep(cells: seq<Cell>, i: nat)
    requires i < |cells|
    ensures cells[..i + 1] == cells[..i] + [cells[i]]
  {
  }

  /** What one more record changes. */
  lemma Recording(before: Log, log: Log, reached: seq<Cell>, r: Record, from: nat, p: Pair)
    requires Recorded(log) == Recorded(before) + Cells(reached) && (NoDuplicates(log) <==> Distinct(reached))
    requires r.cell !in Recorded(before) && PairOf(r.cell) == p
    requires SkipsRight(log, from) && (r.status == SkippedWarmupFailed <==> WarmupFailed(r.cell, log))
    ensures Recorded(log + [r]) == Recorded(before) + Cells(reached + [r.cell])
    ensures NoDuplicates(log + [r]) <==> Distinct(reached + [r.cell])
    ensures DoneFor(log + [r], p) == DoneFor(log, p)[r.cell := r.status]
    ensures SkipsRight(log + [r], from)
  {
    AppendRecord(log, r);
    DistinctAppend(reached, r.cell);
    SkipsRightAppend(log, from, r);
    assert (log + [r])[..|log|] == log;
  }
}
