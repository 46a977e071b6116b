/** Frequency recoding of the categorical airline columns: training categories get codes by descending frequency, and
    everything beyond the kept ones shares a rare code. */
module CategoryRecoding {
  import opened FiniteSets
  import opened Numpy
  import opened Unordered

  /** AIRLINE_CAT_KEEP. */
  const KEEP: nat := 254

  function Count(s: seq<int>, v: int): (n: nat)
    ensures n == multiset(s)[v]
  {
    assert s != [] ==> s == s[..|s| - 1] + [s[|s| - 1]];
    if s == [] then 0 else Count(s[..|s| - 1], v) + if s[|s| - 1] == v then 1 else 0
  }

  /** Category `u` is listed before `v`: more frequent in training, or as frequent with a smaller value. */
  predicate Ahead(train: seq<int>, u: int, v: int) {
    Count(train, u) > Count(train, v) || (Count(train, u) == Count(train, v) && u < v)
  }

  // ---------------------------------------------------------------- what the recoding means

  /** The training categories ahead of `v`. */
  ghost function Preceding(train: seq<int>, v: int): set<int> {
    set u | u in train && Ahead(train, u, v)
  }

  /** The code shared by what is not kept. */
  ghost function Rare(train: seq<int>): nat {
    if |ValuesOf(train)| < KEEP then |ValuesOf(train)| else KEEP
  }

  /** The code of a value: how many training categories are ahead of it, up to the rare code. */
  ghost function CodeOf(train: seq<int>, v: int): nat {
    if v in train && |Preceding(train, v)| < Rare(train) then |Preceding(train, v)| else Rare(train)
  }

  /** A category ahead of another has fewer categories ahead of it. */
  lemma AheadFewer(train: seq<int>, u: int, v: int)
    requires u in train && Ahead(train, u, v)
    ensures |Preceding(train, u)| < |Preceding(train, v)|
  {
    assert u in Preceding(train, v) && u !in Preceding(train, u);
    ProperSubsetSize(Preceding(train, u), Preceding(train, v));
  }

  lemma PrecedingBound(train: seq<int>, v: int)
    requires v in train
    ensures |Preceding(train, v)| < |ValuesOf(train)|
  {
    assert v in ValuesOf(train) && v !in Preceding(train, v);
    ProperSubsetSize(Preceding(train, v), ValuesOf(train));
  }

  /** Codes lie in [0, rare], so there are at most 255 of them. */
  lemma CodeInRange(train: seq<int>, v: int)
    ensures CodeOf(train, v) <= Rare(train) <= 254
    ensures Rare(train) == if |set u | u in train| < 254 then |set u | u in train| else 254
  {
  }

  /** The more frequent category never gets the larger code. */
  lemma FrequentFirst(train: seq<int>, u: int, v: int)
    requires u in train && v in train && multiset(train)[u] > multiset(train)[v]
    ensures CodeOf(train, u) <= CodeOf(train, v)
  {
    AheadFewer(train, u, v);
  }

  /** Of two equally frequent categories the smaller one has fewer ahead of it, and never gets the larger code. */
  lemma TiesBySize(train: seq<int>, u: int, v: int)
    requires u in train && v in train && multiset(train)[u] == multiset(train)[v] && u < v
    ensures |Preceding(train, u)| < |Preceding(train, v)| && CodeOf(train, u) <= CodeOf(train, v)
  {
    AheadFewer(train, u, v);
  }

  /** Two training categories share a code exactly when both fell to the rare code. */
  lemma SharedCodeIff(train: seq<int>, u: int, v: int)
    requires u in train && v in train && u != v
    ensures CodeOf(train, u) == CodeOf(train, v) <==> CodeOf(train, u) == Rare(train) && CodeOf(train, v) == Rare(train)
  {
    if Ahead(train, u, v) {
      AheadFewer(train, u, v);
    } else {
      AheadFewer(train, v, u);
    }
  }

  /** A training category falls to the rare code exactly when at least 254 are ahead of it; a value absent from
      training always does. */
  lemma RareIff(train: seq<int>, v: int)
    ensures CodeOf(train, v) == Rare(train) <==> v !in train || |Preceding(train, v)| >= 254
  {
    if v in train {
      PrecedingBound(train, v);
    }
  }

  // ---------------------------------------------------------------- np.lexsort

  /** Positions of `codes` listed by frequency, each ahead of the next ones. */
  ghost predicate Listed(train: seq<int>, codes: seq<int>, order: seq<nat>) {
    && (forall k {:trigger order[k]} | 0 <= k < |order| :: order[k] < |codes|)
    && (forall k, l {:trigger order[k], order[l]} | 0 <= k < l < |order| ::
          Ahead(train, codes[order[k]], codes[order[l]]))
  }

  ghost function Positions(order: seq<nat>): set<int> {
    set i: int | i in order
  }

  /** np.lexsort((codes, -counts)): every position of `codes`, by descending frequency and then ascending code. */
  method LexSort(train: seq<int>, codes: seq<int>) returns (order: seq<nat>)
    requires Ascending(codes)
    ensures Listed(train, codes, order) && |order| == |codes| && Positions(order) == Below(|codes|)
  {
    order := [];
    for i := 0 to |codes|
      invariant Listed(train, codes, order) && |order| == i && Positions(order) == Below(i)
    {
      var at: nat := 0;
      while at < |order| && Ahead(train, codes[order[at]], codes[i])
        invariant at <= |order|
        invariant forall k {:trigger order[k]} | 0 <= k < at :: Ahead(train, codes[order[k]], codes[i])
      {
        at := at + 1;
      }
      InsertListed(train, codes, order, at, i);
      InsertPositions(order, at, i);
      order := order[..at] + [i] + order[at..];
    }
  }

  /** Inserting position `i` where the first position not ahead of it stands keeps the list in order. */
  lemma InsertListed(train: seq<int>, codes: seq<int>, order: seq<nat>, at: nat, i: nat)
    requires Ascending(codes) && Listed(train, codes, order) && i < |codes| && at <= |order|
    requires Positions(order) == Below(i)
    requires forall k {:trigger order[k]} | 0 <= k < at :: Ahead(train, codes[order[k]], codes[i])
    requires at < |order| ==> !Ahead(train, codes[order[at]], codes[i])
    ensures Listed(train, codes, order[..at] + [i] + order[at..])
  {
    forall k {:trigger order[k]} | at <= k < |order|
      ensures Ahead(train, codes[i], codes[order[k]])
    {
      assert order[at] in Positions(order);
      assert codes[order[at]] < codes[i];
    }
    InsertOrdered(train, codes, order, at, i, order[..at] + [i] + order[at..]);
  }

  lemma InsertOrdered(train: seq<int>, codes: seq<int>, order: seq<nat>, at: nat, i: nat, order': seq<nat>)
    requires Listed(train, codes, order) && i < |codes| && at <= |order|
    requires forall k {:trigger order[k]} | 0 <= k < at :: Ahead(train, codes[order[k]], codes[i])
    requires forall k {:trigger order[k]} | at <= k < |order| :: Ahead(train, codes[i], codes[order[k]])
    requires order' == order[..at] + [i] + order[at..]
    ensures Listed(train, codes, order')
  {
    forall k, l {:trigger order'[k], order'[l]} | 0 <= k < l < |order'|
      ensures order'[k] < |codes| && order'[l] < |codes| && Ahead(train, codes[order'[k]], codes[order'[l]])
    {
      InsertedAt(order, at, i, order', k);
      InsertedAt(order, at, i, order', l);
    }
    forall k {:trigger order'[k]} | 0 <= k < |order'|
      ensures order'[k] < |codes|
    {
      InsertedAt(order, at, i, order', k);
    }
  }

  lemma InsertedAt(order: seq<nat>, at: nat, i: nat, order': seq<nat>, k: nat)
    requires at <= |order| && order' == order[..at] + [i] + order[at..] && k < |order'|
    ensures order'[k] == if k < at then order[k] else if k == at then i else order[k - 1]
  {
  }

  lemma InsertPositions(order: seq<nat>, at: nat, i: nat)
    requires at <= |order| && Positions(order) == Below(i)
    ensures Positions(order[..at] + [i] + order[at..]) == Below(i + 1)
  {
  }

  // ---------------------------------------------------------------- ranks

  /** The categories in listed order. */
  ghost function Ranked(codes: seq<int>, order: seq<nat>): (s: seq<int>)
    requires forall k {:trigger order[k]} | 0 <= k < |order| :: order[k] < |codes|
    ensures |s| == |order| && forall k {:trigger s[k]} | 0 <= k < |s| :: s[k] == codes[order[k]]
  {
    if order == [] then [] else Ranked(codes, order[..|order| - 1]) + [codes[order[|order| - 1]]]
  }

  ghost predicate ByFrequency(train: seq<int>, ranked: seq<int>) {
    forall k, l {:trigger ranked[k], ranked[l]} | 0 <= k < l < |ranked| :: Ahead(train, ranked[k], ranked[l])
  }

  /** The categories listed before place `k` are exactly those ahead of the one at `k`. */
  lemma RankIsPreceding(train: seq<int>, ranked: seq<int>, k: nat)
    requires ByFrequency(train, ranked) && ValuesOf(ranked) == ValuesOf(train) && k < |ranked|
    ensures |Preceding(train, ranked[k])| == k
  {
    var before := ranked[..k];
    forall l {:trigger before[l]} | 0 <= l < k
      ensures before[l] in Preceding(train, ranked[k])
    {
      assert ranked[l] in ValuesOf(ranked);
    }
    forall u | u in Preceding(train, ranked[k])
      ensures u in before
    {
      assert u in ValuesOf(ranked);
      var l :| 0 <= l < |ranked| && ranked[l] == u;
      assert before[l] == u;
    }
    assert Preceding(train, ranked[k]) == ValuesOf(before);
    RankedSize(train, before);
  }

  lemma {:induction false} RankedSize(train: seq<int>, ranked: seq<int>)
    requires ByFrequency(train, ranked)
    ensures |ValuesOf(ranked)| == |ranked|
  {
    if ranked != [] {
      var last, init := ranked[|ranked| - 1], ranked[..|ranked| - 1];
      RankedSize(train, init);
      assert ranked == init + [last];
      assert ValuesOf(ranked) == ValuesOf(init) + {last};
      assert last !in init;
    }
  }

  lemma RankedAll(codes: seq<int>, order: seq<nat>, ranked: seq<int>)
    requires forall k {:trigger order[k]} | 0 <= k < |order| :: order[k] < |codes|
    requires Positions(order) == Below(|codes|)
    requires ranked == Ranked(codes, order)
    ensures ValuesOf(ranked) == ValuesOf(codes)
  {
    forall v | v in codes
      ensures v in ranked
    {
      var i :| 0 <= i < |codes| && codes[i] == v;
      assert i in Positions(order);
      var k :| 0 <= k < |order| && order[k] == i;
      assert ranked[k] == v;
    }
    forall v | v in ranked
      ensures v in codes
    {
      var k :| 0 <= k < |ranked| && ranked[k] == v;
      assert codes[order[k]] == v;
    }
  }

  /** rank[order] = arange(n): the inverse of the listing. */
  method Ranks(order: seq<nat>, n: nat, ghost train: seq<int>, ghost codes: seq<int>) returns (rank: array<nat>)
    requires Listed(train, codes, order) && |order| == |codes| == n
    ensures fresh(rank) && rank.Length == n
    ensures forall k {:trigger order[k]} | 0 <= k < |order| :: rank[order[k]] == k
  {
    rank := new nat[n];
    for k := 0 to |order|
      invariant forall l {:trigger order[l]} | 0 <= l < k :: rank[order[l]] == l
    {
      rank[order[k]] := k;
    }
  }

  /** The rank of a category is the number of categories ahead of it. */
  lemma RankGivesCode(train: seq<int>, codes: seq<int>, order: seq<nat>, rank: seq<nat>, i: nat)
    requires Listed(train, codes, order) && |rank| == |order| == |codes| && ValuesOf(codes) == ValuesOf(train)
    requires Positions(order) == Below(|codes|) && i < |codes|
    requires forall k {:trigger order[k]} | 0 <= k < |order| :: rank[order[k]] == k
    ensures codes[i] in train && |Preceding(train, codes[i])| == rank[i]
  {
    assert i in Positions(order) && codes[i] in ValuesOf(codes);
    var k :| 0 <= k < |order| && order[k] == i;
    RankedAll(codes, order, Ranked(codes, order));
    RankIsPreceding(train, Ranked(codes, order), k);
  }

  /** The ranks, cut off at the rare code. */
  method NewCodes(train: seq<int>, codes: seq<int>, order: seq<nat>, rare: nat) returns (newCode: array<nat>)
    requires Listed(train, codes, order) && |order| == |codes| && ValuesOf(codes) == ValuesOf(train)
    requires Positions(order) == Below(|codes|)
    requires rare == Rare(train)
    ensures fresh(newCode) && newCode.Length == |codes|
    ensures forall i {:trigger codes[i]} | 0 <= i < |codes| :: newCode[i] == CodeOf(train, codes[i])
  {
    var rank := Ranks(order, |codes|, train, codes);
    var ranks := rank[..];
    newCode := new nat[|codes|];
    for i := 0 to |codes|
      invariant forall j {:trigger codes[j]} | 0 <= j < i :: newCode[j] == CodeOf(train, codes[j])
    {
      RankGivesCode(train, codes, order, ranks, i);
      newCode[i] := if ranks[i] < rare then ranks[i] else rare;
    }
  }

  // ---------------------------------------------------------------- recoding a column

  /** A value is a training category exactly when the search lands on it. */
  lemma SearchFinds(codes: seq<int>, train: seq<int>, v: int)
    requires Ascending(codes) && ValuesOf(codes) == ValuesOf(train)
    ensures var idx := SearchSorted(codes, v); v in train <==> idx < |codes| && codes[idx] == v
    ensures SearchSorted(codes, v) >= |codes| > 0 ==> codes[|codes| - 1] != v
  {
    SearchSplits(codes, v);
    assert v in ValuesOf(codes) <==> v in ValuesOf(train);
    if v in codes {
      var i :| 0 <= i < |codes| && codes[i] == v;
      SearchAt(codes, i);
    }
  }

  /** One column in place: the clipped search finds the category, or misses it and gives the rare code. */
  method RecodeColumn(column: array<int>, ghost train: seq<int>, codes: seq<int>, newCode: array<nat>, rare: nat)
    requires Ascending(codes) && codes != [] && ValuesOf(codes) == ValuesOf(train) && rare == Rare(train)
    requires newCode.Length == |codes|
    requires forall i {:trigger codes[i]} | 0 <= i < |codes| :: newCode[i] == CodeOf(train, codes[i])
    modifies column
    ensures forall r {:trigger column[r]} | 0 <= r < column.Length :: column[r] == CodeOf(train, old(column[r]))
  {
    for r := 0 to column.Length
      invariant forall q {:trigger column[q]} | 0 <= q < column.Length ::
                  column[q] == if q < r then CodeOf(train, old(column[q])) else old(column[q])
      invariant forall i {:trigger codes[i]} | 0 <= i < |codes| :: newCode[i] == CodeOf(train, codes[i])
    {
      var v := column[r];
      var idx := SearchSorted(codes, v);
      SearchFinds(codes, train, v);
      idx := if idx < |codes| - 1 then idx else |codes| - 1;
      column[r] := if codes[idx] == v then newCode[idx] else rare;
    }
  }

  /** prep_airline_cat on one column of the two splits: only the training split decides the codes. */
  method RecodeSplits(train: array<int>, test: array<int>)
    requires train != test && (train.Length > 0 || test.Length == 0)
    modifies train, test
    ensures forall r {:trigger train[r]} | 0 <= r < train.Length :: train[r] == CodeOf(old(train[..]), old(train[r]))
    ensures forall r {:trigger test[r]} | 0 <= r < test.Length :: test[r] == CodeOf(old(train[..]), old(test[r]))
  {
    var values := train[..];
    var codes := Unique(values);
    if train.Length == 0 {
      return;
    }
    assert values[0] in ValuesOf(codes);
    ValuesSize(codes);
    var order := LexSort(values, codes);
    var rare := if |codes| < KEEP then |codes| else KEEP;
    var newCode := NewCodes(values, codes, order, rare);
    RecodeColumn(train, values, codes, newCode, rare);
    RecodeColumn(test, values, codes, newCode, rare);
  }
}
