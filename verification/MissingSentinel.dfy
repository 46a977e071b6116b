/** The declared missing-value sentinel of integer and half matrices (DenseMissingSentinel and
    ApplyMissingSentinelToSample). */
module MissingSentinel {
  import opened DenseMatrix
  import opened DenseSampling
  import opened Doubles

  datatype DType = IntType | HalfType | FloatType
  datatype Parsed = NotANumber | Number(value: Double)
  datatype SentinelConfig = SentinelConfig(text: string, parsed: Parsed, useMissing: bool, linearTree: bool)
  datatype Result = Ok(sentinel: Double) | Fatal(reason: Rejection)
  datatype Rejection = NotFinite | ZeroSentinel | MissingDisabled | LinearTree | FloatInput

  /** The accepted sentinel; NaN when none is declared. `parsed` is what the number parser made of `text`. */
  function DenseMissingSentinel(config: SentinelConfig, dtype: DType): (r: Result)
    ensures r.Ok? <==>
              || config.text == ""
              || (config.parsed.Number? && config.parsed.value.Finite? && config.parsed.value.v != 0.0
                  && config.useMissing && !config.linearTree && dtype != FloatType)
    ensures r.Ok? ==> r.sentinel == if config.text == "" then NaN else config.parsed.value
  {
    if config.text == "" then Ok(NaN)
    else if config.parsed.NotANumber? || !config.parsed.value.Finite? then Fatal(NotFinite)
    else if Eq(config.parsed.value, Finite(0.0)) then Fatal(ZeroSentinel)
    else if !config.useMissing then Fatal(MissingDisabled)
    else if config.linearTree then Fatal(LinearTree)
    else if dtype == FloatType then Fatal(FloatInput)
    else Ok(config.parsed.value)
  }

  /** `ys` is `xs` with the sentinel made NaN, and everything else as it was. */
  ghost predicate Rewritten(sentinel: Double, xs: seq<Double>, ys: seq<Double>) {
    && |ys| == |xs|
    && forall k {:trigger ys[k]} {:trigger xs[k]} | 0 <= k < |xs| :: ys[k] == if xs[k] == sentinel then NaN else xs[k]
  }

  lemma RewrittenUnique(sentinel: Double, xs: seq<Double>, ys: seq<Double>, zs: seq<Double>)
    requires Rewritten(sentinel, xs, ys) && Rewritten(sentinel, xs, zs)
    ensures ys == zs
  {
  }

  /** One column, value by value. */
  method RewriteColumn(sentinel: Double, values: seq<Double>) returns (col: seq<Double>)
    ensures Rewritten(sentinel, values, col)
  {
    col := [];
    for i := 0 to |values|
      invariant Rewritten(sentinel, values[..i], col)
    {
      if Eq(values[i], sentinel) {
        col := col + [NaN];
      } else {
        col := col + [values[i]];
      }
    }
    assert values[..|values|] == values;
  }

  /** Rewrites sampled values equal to the sentinel, column by column. */
  method ApplyMissingSentinelToSample(sentinel: Double, values: seq<seq<Double>>) returns (rewritten: seq<seq<Double>>)
    ensures |rewritten| == |values|
    ensures forall c {:trigger rewritten[c]} | 0 <= c < |values| :: |rewritten[c]| == |values[c]|
    ensures forall c, k {:trigger rewritten[c][k]} | 0 <= c < |values| && 0 <= k < |values[c]| ::
              rewritten[c][k] == if values[c][k] == sentinel then NaN else values[c][k]
  {
    rewritten := values;
    if sentinel.NaN? {
      return;
    }
    for c := 0 to |values|
      invariant |rewritten| == |values|
      invariant forall k {:trigger rewritten[k]} | 0 <= k < c :: Rewritten(sentinel, values[k], rewritten[k])
      invariant rewritten[c..] == values[c..]
    {
      var col := RewriteColumn(sentinel, rewritten[c]);
      rewritten := rewritten[c := col];
    }
  }

  // ---------------------------------------------------------------- rewriting the sample or the matrix

  /** The caller-side conversion the sentinel stands in for: every element as a double, the sentinel as NaN. */
  ghost predicate Converted(sentinel: Double, rows: Rows2D, converted: Rows2D) {
    && |converted| == |rows|
    && (forall i {:trigger converted[i]} | 0 <= i < |rows| :: |converted[i]| == |rows[i]|)
    && forall i, c {:trigger converted[i][c]} | 0 <= i < |rows| && 0 <= c < |rows[i]| ::
         converted[i][c] == if Decode(rows[i][c]) == sentinel then Float(NaN) else Float(Decode(rows[i][c]))
  }

  /** Rows of integers or halves. */
  ghost predicate SmallRows(rows: Rows2D) {
    ValidRows(rows) && forall i: int, c: int :: !CellAt(rows, i, c).Float?
  }

  /** The rewritten sample of column `c` is the sample of the converted rows. */
  ghost predicate Commutes(sentinel: Double, rows: Rows2D, converted: Rows2D, c: int, n: nat) {
    && Rewritten(sentinel, Values(rows, c, n), Values(converted, c, n))
    && Indices(rows, c, n) == Indices(converted, c, n)
  }

  /** The two cells add the same to their samples, up to the rewrite. */
  ghost predicate Alike(sentinel: Double, e: Elem, e': Elem) {
    Kept(e') == Kept(e) && (Kept(e) ==> Decode(e') == if Decode(e) == sentinel then NaN else Decode(e))
  }

  lemma FilteredIsZero(e: Elem)
    requires ValidElem(e) && !e.Float? && !Kept(e)
    ensures Decode(e) == Finite(0.0)
  {
    if e.Half? {
      assert (e.bits / 0x400) % 0x20 == 0 && e.bits % 0x400 == 0;
    }
  }

  lemma CellAlike(sentinel: Double, rows: Rows2D, converted: Rows2D, i: nat, c: int)
    requires SmallRows(rows) && sentinel != Finite(0.0) && i < |rows| && Converted(sentinel, rows, converted)
    ensures Alike(sentinel, CellAt(rows, i, c), CellAt(converted, i, c))
  {
    var e := CellAt(rows, i, c);
    if 0 <= c < |rows[i]| {
      assert rows[i][c] == e && converted[i][c] == CellAt(converted, i, c);
    }
    KeptIffPasses(e);
    if !Kept(e) {
      FilteredIsZero(e);
    }
  }

  ghost predicate RowsAlike(sentinel: Double, rows: Rows2D, converted: Rows2D, c: int, n: nat) {
    forall i: nat {:trigger CellAt(rows, i, c)} | i < n :: Alike(sentinel, CellAt(rows, i, c), CellAt(converted, i, c))
  }

  lemma {:induction false} SamplesAlike(sentinel: Double, rows: Rows2D, converted: Rows2D, c: int, n: nat)
    requires RowsAlike(sentinel, rows, converted, c, n)
    ensures Commutes(sentinel, rows, converted, c, n)
  {
    if n > 0 {
      SamplesAlike(sentinel, rows, converted, c, n - 1);
      assert Alike(sentinel, CellAt(rows, n - 1, c), CellAt(converted, n - 1, c));
    }
  }

  /** For an accepted sentinel, rewriting the sample of any prefix of the rows gives the sample of the rewritten
      rows. */
  lemma SampleOfConverted(sentinel: Double, rows: Rows2D, converted: Rows2D, c: int, n: nat)
    requires SmallRows(rows) && sentinel != Finite(0.0) && n <= |rows| && Converted(sentinel, rows, converted)
    ensures Commutes(sentinel, rows, converted, c, n)
  {
    forall i: nat {:trigger CellAt(rows, i, c)} | i < n
      ensures Alike(sentinel, CellAt(rows, i, c), CellAt(converted, i, c))
    {
      CellAlike(sentinel, rows, converted, i, c);
    }
    SamplesAlike(sentinel, rows, converted, c, n);
  }

  /** Rewriting after sampling equals rewriting first, on every integer or half matrix, exactly when the sentinel
      is not zero. */
  lemma SentinelCommutesIff(sentinel: Double)
    ensures (forall rows: Rows2D, converted: Rows2D, c: int | SmallRows(rows) && Converted(sentinel, rows, converted) ::
               Commutes(sentinel, rows, converted, c, |rows|))
            <==> sentinel != Finite(0.0)
  {
    if sentinel != Finite(0.0) {
      forall rows: Rows2D, converted: Rows2D, c: int | SmallRows(rows) && Converted(sentinel, rows, converted)
        ensures Commutes(sentinel, rows, converted, c, |rows|)
      {
        SampleOfConverted(sentinel, rows, converted, c, |rows|);
      }
    } else {
      ZeroSentinelFails();
    }
  }

  /** A zero sentinel on the one-row matrix [0]: sampling first drops the zero, rewriting first keeps a NaN. */
  lemma ZeroSentinelFails()
    ensures SmallRows([[SmallInt(0)]]) && Converted(Finite(0.0), [[SmallInt(0)]], [[Float(NaN)]])
    ensures !Commutes(Finite(0.0), [[SmallInt(0)]], [[Float(NaN)]], 0, 1)
  {
  }
}
