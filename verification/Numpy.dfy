/** The numpy routines the data preparation relies on, modelled by what they return. */
module Numpy {

  ghost function ValuesOf(s: seq<int>): set<int> {
    set v | v in s
  }

  ghost predicate Ascending(s: seq<int>) {
    forall i, j {:trigger s[i], s[j]} | 0 <= i < j < |s| :: s[i] < s[j]
  }

  /** np.searchsorted(codes, v): how many of the ascending codes lie below `v`. */
  function SearchSorted(codes: seq<int>, v: int): (n: nat)
    ensures n <= |codes|
  {
    if codes == [] then 0 else SearchSorted(codes[..|codes| - 1], v) + if codes[|codes| - 1] < v then 1 else 0
  }

  /** In ascending codes the position splits the smaller codes from the others. */
  lemma {:induction false} SearchSplits(codes: seq<int>, v: int)
    requires Ascending(codes)
    ensures forall i {:trigger codes[i]} | 0 <= i < |codes| :: codes[i] < v <==> i < SearchSorted(codes, v)
  {
    if codes != [] {
      var init := codes[..|codes| - 1];
      SearchSplits(init, v);
      assert forall i | 0 <= i < |init| :: init[i] == codes[i];
      if |init| > 0 {
        assert init[|init| - 1] < codes[|codes| - 1];
      }
    }
  }

  lemma {:induction false} SearchAll(codes: seq<int>, v: int)
    requires forall i {:trigger codes[i]} | 0 <= i < |codes| :: codes[i] < v
    ensures SearchSorted(codes, v) == |codes|
  {
    if codes != [] {
      SearchAll(codes[..|codes| - 1], v);
    }
  }

  /** Searching for a code finds its place. */
  lemma {:induction false} SearchAt(codes: seq<int>, i: nat)
    requires Ascending(codes) && i < |codes|
    ensures SearchSorted(codes, codes[i]) == i
  {
    var init := codes[..|codes| - 1];
    if i < |init| {
      SearchAt(init, i);
    } else {
      SearchAll(init, codes[i]);
    }
  }

  lemma ValuesInsert(s: seq<int>, at: nat, x: int)
    requires at <= |s|
    ensures ValuesOf(s[..at] + [x] + s[at..]) == ValuesOf(s) + {x}
    ensures at == |s| ==> ValuesOf(s + [x]) == ValuesOf(s) + {x}
  {
  }

  /** np.unique: the distinct values in ascending order. */
  method Unique(s: seq<int>) returns (codes: seq<int>)
    ensures Ascending(codes) && ValuesOf(codes) == ValuesOf(s)
  {
    codes := [];
    for k := 0 to |s|
      invariant Ascending(codes) && ValuesOf(codes) == ValuesOf(s[..k])
    {
      var at := SearchSorted(codes, s[k]);
      SearchSplits(codes, s[k]);
      assert s[..k + 1] == s[..k] + [s[k]];
      ValuesInsert(s[..k], k, s[k]);
      if at == |codes| || codes[at] != s[k] {
        ValuesInsert(codes, at, s[k]);
        codes := codes[..at] + [s[k]] + codes[at..];
      }
    }
    assert s[..|s|] == s;
  }

  lemma {:induction false} ValuesSize(codes: seq<int>)
    requires Ascending(codes)
    ensures |ValuesOf(codes)| == |codes|
  {
    if codes != [] {
      var last, init := codes[|codes| - 1], codes[..|codes| - 1];
      ValuesSize(init);
      assert codes == init + [last];
      assert ValuesOf(codes) == ValuesOf(init) + {last};
      assert last !in init;
    }
  }
}
