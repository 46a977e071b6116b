/** Parameter alias resolution: KeyAliasTransform rewrites a parameter map in place, iterating hash maps whose order is
    unspecified. */
module ParameterAlias {
  import opened Unordered

  type Params = map<string, string>

  // ---------------------------------------------------------------- SortAlias

  /** std::string's `<`: the first differing character decides, and a prefix comes first. */
  predicate LexLess(x: string, y: string) {
    y != [] && (x == [] || x[0] < y[0] || (x[0] == y[0] && LexLess(x[1..], y[1..])))
  }

  /** Config::SortAlias: shorter first, then alphabetical. */
  predicate SortAlias(x: string, y: string) {
    |x| < |y| || (|x| == |y| && LexLess(x, y))
  }

  lemma {:induction false} LexIrreflexive(x: string)
    ensures !LexLess(x, x)
  {
    if x != [] {
      LexIrreflexive(x[1..]);
    }
  }

  lemma {:induction false} LexTransitive(x: string, y: string, z: string)
    requires LexLess(x, y) && LexLess(y, z)
    ensures LexLess(x, z)
  {
    if x != [] && x[0] == y[0] == z[0] {
      LexTransitive(x[1..], y[1..], z[1..]);
    }
  }

  lemma {:induction false} LexTotal(x: string, y: string)
    ensures LexLess(x, y) || x == y || LexLess(y, x)
  {
    if x != [] && y != [] && x[0] == y[0] {
      LexTotal(x[1..], y[1..]);
      assert x == [x[0]] + x[1..] && y == [y[0]] + y[1..];
    }
  }

  /** SortAlias is a strict total order, so every non-empty set of aliases has exactly one first element. */
  lemma SortAliasOrder(x: string, y: string, z: string)
    ensures !SortAlias(x, x)
    ensures SortAlias(x, y) && SortAlias(y, z) ==> SortAlias(x, z)
    ensures SortAlias(x, y) || x == y || SortAlias(y, x)
  {
    LexIrreflexive(x);
    LexTotal(x, y);
    if LexLess(x, y) && LexLess(y, z) {
      LexTransitive(x, y, z);
    }
  }

  /** The names agree before position `i`, where `x` has the smaller character. */
  ghost predicate SmallerAt(x: string, y: string, i: int) {
    0 <= i < |x| && i < |y| && x[..i] == y[..i] && x[i] < y[i]
  }

  /** Of two names of one length, the first differing character decides. */
  lemma {:induction false} LexLessIff(x: string, y: string)
    requires |x| == |y|
    ensures LexLess(x, y) <==> exists i {:trigger SmallerAt(x, y, i)} :: SmallerAt(x, y, i)
  {
    if x != [] && x[0] == y[0] {
      LexLessIff(x[1..], y[1..]);
      if i :| SmallerAt(x[1..], y[1..], i) {
        assert x[..i + 1] == [x[0]] + x[1..][..i] && y[..i + 1] == [y[0]] + y[1..][..i];
        assert SmallerAt(x, y, i + 1);
      }
      if i :| SmallerAt(x, y, i) {
        assert i > 0 && x[1..][..i - 1] == x[..i][1..] && y[1..][..i - 1] == y[..i][1..];
        assert SmallerAt(x[1..], y[1..], i - 1);
      }
    } else if x != [] {
      if x[0] < y[0] {
        assert SmallerAt(x, y, 0);
      }
    }
  }

  // ---------------------------------------------------------------- what the transform computes

  /** The alias table maps aliases to canonical names; no canonical name is itself an alias. */
  ghost predicate ValidTable(table: Params) {
    forall a | a in table :: table[a] !in table
  }

  ghost predicate AliasOf(table: Params, a: string, c: string) {
    a in table && table[a] == c
  }

  /** Among the names `keys`, `a` is the first alias of `c`. */
  ghost predicate First(table: Params, keys: set<string>, c: string, a: string) {
    && a in keys && AliasOf(table, a, c)
    && forall b | b in keys && AliasOf(table, b, c) :: b == a || SortAlias(a, b)
  }

  lemma FirstUnique(table: Params, keys: set<string>, c: string, a: string, b: string)
    requires First(table, keys, c, a) && First(table, keys, c, b)
    ensures a == b
  {
    if a != b {
      SortAliasOrder(a, b, a);
    }
  }

  /** The alias gives its value to a canonical name that was not given explicitly. */
  ghost predicate Moves(table: Params, params: Params, a: string, c: string) {
    c !in params && First(table, params.Keys, c, a)
  }

  /** The resolved map: a canonical name keeps its explicit value, or takes that of its first alias, which disappears;
      everything else stays. */
  ghost predicate Resolved(table: Params, params: Params, r: Params) {
    && (forall k | k in params && !(k in table && Moves(table, params, k, table[k])) :: k in r && r[k] == params[k])
    && (forall a | a in params && a in table && Moves(table, params, a, table[a]) ::
          table[a] in r && r[table[a]] == params[a])
    && (forall k | k in r ::
          || (k in params && !(k in table && Moves(table, params, k, table[k])))
          || exists a :: a in params && AliasOf(table, a, k) && Moves(table, params, a, k))
  }

  /** The result depends on the parameters alone, not on any iteration order. */
  lemma ResolvedUnique(table: Params, params: Params, r: Params, s: Params)
    requires Resolved(table, params, r) && Resolved(table, params, s)
    ensures r == s
  {
    ResolvedWithin(table, params, r, s);
    ResolvedWithin(table, params, s, r);
  }

  lemma ResolvedWithin(table: Params, params: Params, r: Params, s: Params)
    requires Resolved(table, params, r) && Resolved(table, params, s)
    ensures forall k | k in r :: k in s && s[k] == r[k]
  {
  }

  /** An explicitly given canonical name is never overridden. */
  lemma CanonicalKept(table: Params, params: Params, r: Params, c: string)
    requires ValidTable(table) && Resolved(table, params, r) && c in params && c !in table
    ensures c in r && r[c] == params[c]
  {
  }

  /** An alias in the resolved map was given. */
  lemma AliasWasGiven(table: Params, params: Params, r: Params, k: string)
    requires ValidTable(table) && Resolved(table, params, r) && k in r && k in table
    ensures k in params
  {
  }

  /** A map in which no alias moves resolves to itself. */
  lemma NothingMoves(table: Params, r: Params, s: Params)
    requires Resolved(table, r, s) && forall k | k in r && k in table :: !Moves(table, r, k, table[k])
    ensures s == r
  {
    assert forall a, k | a in r && AliasOf(table, a, k) :: !Moves(table, r, a, k);
  }

  /** Resolving a resolved map changes nothing. */
  lemma Idempotent(table: Params, params: Params, r: Params, s: Params)
    requires ValidTable(table) && Resolved(table, params, r) && Resolved(table, r, s)
    ensures s == r
  {
    forall k | k in r && k in table
      ensures !Moves(table, r, k, table[k])
    {
      AliasWasGiven(table, params, r, k);
      AliasTakesEffect(table, params, r, k);
    }
    NothingMoves(table, r, s);
  }

  /** Whenever an alias is given, its canonical name is in the resolved map. */
  lemma AliasTakesEffect(table: Params, params: Params, r: Params, k: string)
    requires Resolved(table, params, r) && ValidTable(table) && k in params && k in table
    ensures table[k] in r
  {
    var c := table[k];
    if c !in params {
      var a := FirstExists(table, params.Keys, c, k);
      assert Moves(table, params, a, c);
    }
  }

  /** A canonical name that was not given takes the value of the given alias that is shortest and, among the shortest,
      alphabetically first; that alias disappears. */
  lemma WinnerGivesValue(table: Params, params: Params, r: Params, k: string) returns (a: string)
    requires ValidTable(table) && Resolved(table, params, r) && k in params && k in table && table[k] !in params
    ensures a in params && a in table && table[a] == table[k]
    ensures table[k] in r && r[table[k]] == params[a] && a !in r
    ensures forall b | b in params && b in table && table[b] == table[k] :: |a| <= |b|
    ensures forall b | b in params && b in table && table[b] == table[k] && b != a && |b| == |a| ::
              exists i {:trigger SmallerAt(a, b, i)} :: SmallerAt(a, b, i)
  {
    a := FirstExists(table, params.Keys, table[k], k);
    assert Moves(table, params, a, table[k]);
    forall b | b in params && b in table && table[b] == table[k] && b != a && |b| == |a|
      ensures exists i {:trigger SmallerAt(a, b, i)} :: SmallerAt(a, b, i)
    {
      assert AliasOf(table, b, table[k]) && SortAlias(a, b);
      LexLessIff(a, b);
    }
  }

  /** Some alias comes first. */
  lemma {:induction false} FirstExists(table: Params, keys: set<string>, c: string, k: string) returns (a: string)
    requires k in keys && AliasOf(table, k, c)
    ensures First(table, keys, c, a)
    decreases keys
  {
    if b :| b in keys && AliasOf(table, b, c) && b != k && !SortAlias(k, b) {
      SortAliasOrder(k, b, k);
      a := FirstExists(table, keys - {k}, c, b);
      SortAliasOrder(a, b, k);
    } else {
      a := k;
    }
  }

  // ---------------------------------------------------------------- the transform

  /** The first loop: for every canonical name its first alias among the parameters. */
  method FirstAliases(table: Params, params: Params) returns (first: Params)
    ensures forall c | c in first :: First(table, params.Keys, c, first[c])
    ensures forall a | a in params && a in table :: table[a] in first
  {
    first := map[];
    var pending := params.Keys;
    while pending != {}
      invariant pending <= params.Keys
      invariant forall c | c in first :: First(table, params.Keys - pending, c, first[c])
      invariant forall a | a in params && a in table && a !in pending :: table[a] in first
      decreases |pending|
    {
      var key, rest := TakeAny(pending);
      if key in table {
        var c := table[key];
        if c in first {
          FirstExtends(table, params.Keys - pending, c, first[c], key);
          if !SortAlias(first[c], key) {
            first := first[c := key];
          }
        } else {
          first := first[c := key];
        }
      }
      assert params.Keys - rest == params.Keys - pending + {key};
      pending := rest;
    }
    assert params.Keys - {} == params.Keys;
  }

  /** One more name: it comes first exactly when the first so far does not beat it. */
  lemma FirstExtends(table: Params, keys: set<string>, c: string, a: string, key: string)
    requires First(table, keys, c, a) && AliasOf(table, key, c) && key !in keys
    ensures First(table, keys + {key}, c, if SortAlias(a, key) then a else key)
  {
    SortAliasOrder(a, key, a);
    if !SortAlias(a, key) {
      forall b | b in keys && AliasOf(table, b, c)
        ensures SortAlias(key, b)
      {
        SortAliasOrder(key, a, b);
      }
    }
  }

  /** The map while the canonical names `moved` have been dealt with. */
  ghost predicate Partly(table: Params, params: Params, moved: set<string>, cur: Params) {
    && (forall k | k in params && !(k in table && Moves(table, params, k, table[k]) && table[k] in moved) ::
          k in cur && cur[k] == params[k])
    && (forall a | a in params && a in table && Moves(table, params, a, table[a]) && table[a] in moved ::
          table[a] in cur && cur[table[a]] == params[a])
    && (forall k | k in cur ::
          || (k in params && !(k in table && Moves(table, params, k, table[k]) && table[k] in moved))
          || (k in moved && exists a :: a in params && AliasOf(table, a, k) && Moves(table, params, a, k)))
  }

  lemma MovedOver<T>(done: set<T>, pending: set<T>, all: set<T>, x: T)
    requires done + pending == all && done !! pending && x in pending
    ensures (done + {x}) + (pending - {x}) == all && done + {x} !! pending - {x}
  {
  }

  /** The second loop, over the canonical names that have an alias. */
  method MoveAll(ghost table: Params, params: Params, first: Params) returns (r: Params)
    requires ValidTable(table) && forall c | c in first :: First(table, params.Keys, c, first[c])
    ensures Partly(table, params, first.Keys, r)
  {
    r := params;
    var pending := first.Keys;
    ghost var moved: set<string> := {};
    while pending != {}
      invariant moved + pending == first.Keys && moved !! pending
      invariant Partly(table, params, moved, r)
      decreases |pending|
    {
      var c, rest := TakeAny(pending);
      r := Move(table, params, moved, r, c, first[c]);
      MovedOver(moved, pending, first.Keys, c);
      moved, pending := moved + {c}, rest;
    }
    assert moved == first.Keys;
  }

  /** ParameterAlias::KeyAliasTransform. */
  method KeyAliasTransform(table: Params, params: Params) returns (r: Params)
    requires ValidTable(table)
    ensures Resolved(table, params, r)
  {
    var first := FirstAliases(table, params);
    r := MoveAll(table, params, first);
    AllMoved(table, params, first, first.Keys, r);
  }

  /** One canonical name of the second loop. */
  method Move(ghost table: Params, ghost params: Params, ghost moved: set<string>, cur: Params, c: string, a: string)
    returns (r: Params)
    requires ValidTable(table) && Partly(table, params, moved, cur) && First(table, params.Keys, c, a) && c !in moved
    ensures Partly(table, params, moved + {c}, r)
  {
    MoveStep(table, params, moved, cur, c, a);
    r := if c in cur then cur else cur[c := cur[a]] - {a};
  }

  lemma AllMoved(table: Params, params: Params, first: Params, moved: set<string>, r: Params)
    requires forall a | a in params && a in table :: table[a] in first
    requires moved == first.Keys && Partly(table, params, moved, r)
    ensures Resolved(table, params, r)
  {
  }

  /** Only the first alias of a canonical name that was not given moves. */
  lemma OnlyFirstMoves(table: Params, params: Params, c: string, a: string)
    requires First(table, params.Keys, c, a)
    ensures forall k | k in params && k in table && Moves(table, params, k, table[k]) && table[k] == c :: k == a
    ensures c in params ==> forall k | k in params && k in table && Moves(table, params, k, table[k]) :: table[k] != c
  {
    forall k | k in params && k in table && Moves(table, params, k, table[k]) && table[k] == c
      ensures k == a
    {
      FirstUnique(table, params.Keys, c, a, k);
    }
  }

  /** A canonical name that is still to be dealt with is in the map exactly if it was given. */
  lemma StillThere(table: Params, params: Params, moved: set<string>, cur: Params, c: string, a: string)
    requires ValidTable(table) && Partly(table, params, moved, cur) && First(table, params.Keys, c, a) && c !in moved
    ensures (c in cur <==> c in params) && a in cur && cur[a] == params[a] && c !in table
  {
  }

  lemma MoveKept(table: Params, params: Params, moved: set<string>, cur: Params, c: string, a: string)
    requires Partly(table, params, moved, cur) && First(table, params.Keys, c, a) && c in params
    ensures Partly(table, params, moved + {c}, cur)
  {
  }

  lemma MoveDone(table: Params, params: Params, moved: set<string>, cur: Params, c: string, a: string)
    requires ValidTable(table) && Partly(table, params, moved, cur) && First(table, params.Keys, c, a)
    requires c !in moved && c !in params && c !in table && a in cur && cur[a] == params[a]
    ensures Partly(table, params, moved + {c}, cur[c := cur[a]] - {a})
  {
    OnlyFirstMoves(table, params, c, a);
  }

  /** Dealing with one canonical name whose first alias is `a`. */
  lemma MoveStep(table: Params, params: Params, moved: set<string>, cur: Params, c: string, a: string)
    requires ValidTable(table) && Partly(table, params, moved, cur) && First(table, params.Keys, c, a) && c !in moved
    ensures c in cur <==> c in params
    ensures c in cur ==> Partly(table, params, moved + {c}, cur)
    ensures c !in cur ==> a in cur && Partly(table, params, moved + {c}, cur[c := cur[a]] - {a})
  {
    StillThere(table, params, moved, cur, c, a);
    if c in params {
      MoveKept(table, params, moved, cur, c, a);
    } else {
      MoveDone(table, params, moved, cur, c, a);
    }
  }
}
