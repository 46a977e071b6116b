/** How a feature group stores a column of bins: the most frequent bin is not stored. */
module BinColumn {
  import opened BinMapper
  import opened Doubles

  /** Bin::kSkipBin, the largest 32-bit number. */
  const SKIP_BIN: nat := 0xFFFF_FFFF

  /** A feature's place in its group: its mapper, its most frequent bin, and where its bins start in the storage. */
  datatype Feature = Feature(mapper: Mapper, mostFreq: nat, offset: nat)

  ghost predicate ValidFeature(f: Feature) {
    Valid(f.mapper) && f.offset >= 1 && f.offset + |f.mapper.bounds| < SKIP_BIN
  }

  /** The stored form of a bin that is not the most frequent one. */
  function Encode(f: Feature, bin: nat): (stored: nat)
    requires bin != f.mostFreq && f.offset >= 1
    ensures stored >= f.offset && Decode(f, stored) == bin
  {
    (if f.mostFreq == 0 then bin - 1 else bin) + f.offset
  }

  /** The stored bins of a feature fill its range from the offset on, in order; bin 0 has no place of its own when it is
      the most frequent one. */
  lemma EncodePacks(f: Feature, bin: nat)
    requires bin != f.mostFreq && f.offset >= 1
    ensures bin == (if f.mostFreq == 0 then 1 else 0) ==> Encode(f, bin) == f.offset
    ensures bin + 1 != f.mostFreq ==> Encode(f, bin + 1) == Encode(f, bin) + 1
    ensures bin + 1 == f.mostFreq ==> Encode(f, bin + 2) == Encode(f, bin) + 2
  {
  }

  /** The bin of a stored value; untouched storage means the most frequent bin. */
  function Decode(f: Feature, stored: nat): nat {
    if stored < f.offset then f.mostFreq
    else (if f.mostFreq == 0 then stored - f.offset + 1 else stored - f.offset)
  }

  /** What one push of `value` makes of a stored cell. */
  function Pushed(f: Feature, stored: nat, value: Double): (r: nat)
    requires ValidFeature(f)
    ensures BinOf(f.mapper, value) != f.mostFreq ==> Decode(f, r) == BinOf(f.mapper, value)
    ensures BinOf(f.mapper, value) == f.mostFreq ==> r == stored
  {
    var bin := BinOf(f.mapper, value);
    if bin == f.mostFreq then stored else Encode(f, bin)
  }

  /** FeatureGroup::PushData. */
  method PushData(column: array<nat>, f: Feature, row: nat, value: Double)
    requires ValidFeature(f) && row < column.Length
    modifies column
    ensures column[..] == old(column[..])[row := Pushed(f, old(column[row]), value)]
  {
    var bin := ValueToBin(f.mapper, value);
    if bin == f.mostFreq {
      return;
    }
    column[row] := Encode(f, bin);
  }

  /** FeatureGroup::EncodeBinForPush. */
  function EncodeForPush(f: Feature, bin: nat): (r: nat)
    requires ValidFeature(f) && bin < |f.mapper.bounds|
    ensures r == 0xFFFF_FFFF <==> bin == f.mostFreq
    ensures bin != f.mostFreq ==> r == Encode(f, bin)
  {
    if bin == f.mostFreq then SKIP_BIN else Encode(f, bin)
  }

  /** Bin::PushBlock: pushing a block of pre-encoded bins is pushing the values one by one. */
  method PushBlock(column: array<nat>, f: Feature, start: nat, bins: seq<nat>, ghost values: seq<Double>)
    requires ValidFeature(f) && start + |bins| <= column.Length && |values| == |bins|
    requires forall i {:trigger bins[i]} | 0 <= i < |bins| :: bins[i] == EncodeForPush(f, BinOf(f.mapper, values[i]))
    modifies column
    ensures forall k {:trigger column[k]} | 0 <= k < column.Length ::
              column[k] == if start <= k < start + |bins| then Pushed(f, old(column[k]), values[k - start])
                           else old(column[k])
  {
    for i := 0 to |bins|
      invariant forall k {:trigger column[k]} | 0 <= k < column.Length ::
                  column[k] == if start <= k < start + i then Pushed(f, old(column[k]), values[k - start])
                               else old(column[k])
    {
      if bins[i] != SKIP_BIN {
        column[start + i] := bins[i];
      }
    }
  }
}
