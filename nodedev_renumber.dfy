/**
  Third pass of `nodedev_parse`: the groups are visited in sorted key
  order; each group of more than one port is moved to the integer key
  `n` (the next free sequence number) and each of its ports is renamed
  from `eth<p>` to `nic<n>_eth<p>`. Single-port groups stay where they are.
 */
module NodedevRenumber {
  import opened Strings
  import opened Ordering
  import opened NodedevGroup

  /** The key order after `sorted_nics.pop(k)`: `k` is gone, the others
      keep their order. */
  function Without(order: seq<Key>, k: Key): (r: seq<Key>)
    ensures forall x :: x in r <==> x in order && x != k
    ensures Distinct(order) ==> Distinct(r)
    decreases |order|
  {
    if |order| == 0 then []
    else
      var rest := Without(order[1..], k);
      assert Distinct(order) ==> Distinct(order[1..]) && order[0] !in order[1..];
      (if order[0] == k then [] else [order[0]]) + rest
  }

  /** `sorted_nics.pop(k)`, its value dropped. */
  function Pop(inv: Inventory, k: Key): Inventory
  {
    Inventory(Without(inv.order, k), inv.groups - {k})
  }

  /** `sorted_nics[k] = g`: a new key goes last, an existing one keeps its place. */
  function Assign(inv: Inventory, k: Key, g: seq<Port>): Inventory
  {
    if k in inv.groups then Inventory(inv.order, inv.groups[k := g])
    else Inventory(inv.order + [k], inv.groups[k := g])
  }

  /** The group with every port's new name given the prefix `nic<n>_`. */
  function Prefixed(g: seq<Port>, n: nat): seq<Port>
  {
    seq(|g|, j requires 0 <= j < |g| => g[j].(newName := "nic" + Dec(n) + "_" + g[j].newName))
  }

  /** One turn of the loop on the state (sorted_nics, n). */
  function RenumberStep(st: (Inventory, nat), name: string): (Inventory, nat)
    requires Str(name) in st.0.groups
  {
    var (inv, n) := st;
    var g := inv.groups[Str(name)];
    if |g| > 1 then (Assign(Pop(inv, Str(name)), Idx(n), Prefixed(g, n)), n + 1)
    else st
  }

  /** What the loop may assume of its input: every name is a distinct
      group key, and no group is keyed by a number yet. */
  ghost predicate RenumberReady(inv: Inventory, names: seq<string>)
  {
    InventoryOk(inv) && Distinct(names) &&
    (forall i | 0 <= i < |names| :: Str(names[i]) in inv.groups) &&
    (forall k | k in inv.groups :: k.Str?)
  }

  lemma ReadyPrefix(inv: Inventory, names: seq<string>, m: nat)
    requires RenumberReady(inv, names) && m <= |names|
    ensures RenumberReady(inv, names[..m])
    ensures m < |names| ==> names[m] !in names[..m]
  {
    if m < |names| {
      forall i | 0 <= i < m ensures names[..m][i] != names[m] {
        assert names[..m][i] == names[i];
      }
    }
  }

  /** The loop over the first `m` of `names` (the sorted keys), n starting
      at 0. The groups of the names not visited yet are still there. */
  function Renumber(inv: Inventory, names: seq<string>, m: nat): (st: (Inventory, nat))
    requires RenumberReady(inv, names) && m <= |names|
    ensures forall j | m <= j < |names| :: Str(names[j]) in st.0.groups
    decreases m
  {
    if m == 0 then (inv, 0)
    else RenumberStep(Renumber(inv, names, m - 1), names[m - 1])
  }

  /** The names whose groups have more than one port, in the order of `names`. */
  function Multi(inv: Inventory, names: seq<string>): (m: seq<string>)
    requires forall i | 0 <= i < |names| :: Str(names[i]) in inv.groups
    ensures forall s :: s in m <==> s in names && |inv.groups[Str(s)]| > 1
    decreases |names|
  {
    if |names| == 0 then []
    else
      var prev := names[..|names| - 1];
      var last := names[|names| - 1];
      assert names == prev + [last];
      Multi(inv, prev) + (if |inv.groups[Str(last)]| > 1 then [last] else [])
  }

  // ---------------------------------------------------------------------
  // The inventory after renumbering

  /** The inventory after the loop has seen `names`, `multi` being the
      names of the groups with more than one port: the m-th of those is
      now keyed `m` and renamed, the others are where they were. */
  ghost predicate Renumbered(inv: Inventory, multi: seq<string>, st: (Inventory, nat))
  {
    var (r, n) := st;
    n == |multi| && InventoryOk(r) &&
    (forall k | k in r.groups && k.Idx? :: k.n < n) &&
    (forall m | 0 <= m < n :: Idx(m) in r.groups && Str(multi[m]) in inv.groups &&
                             r.groups[Idx(m)] == Prefixed(inv.groups[Str(multi[m])], m)) &&
    (forall k | k in r.groups && k.Str? :: k in inv.groups && k.name !in multi && r.groups[k] == inv.groups[k]) &&
    (forall k | k in inv.groups && k.Str? && k.name !in multi :: k in r.groups)
  }

  /** Moving group `k` to the new key `i` keeps the keys distinct and in
      step with the map; the moved key goes last. */
  lemma MoveOk(r: Inventory, k: Key, i: Key, g: seq<Port>)
    requires InventoryOk(r) && k in r.groups && i !in r.groups
    ensures Assign(Pop(r, k), i, g) == Inventory(Without(r.order, k) + [i], (r.groups - {k})[i := g])
    ensures InventoryOk(Assign(Pop(r, k), i, g))
  {
    assert i !in Without(r.order, k);
  }

  /** One step of the loop keeps the closed form. */
  lemma RenumberStepKeeps(inv: Inventory, multi: seq<string>, st: (Inventory, nat), name: string)
    requires Renumbered(inv, multi, st) && Str(name) in inv.groups && name !in multi
    requires Str(name) in st.0.groups && st.0.groups[Str(name)] == inv.groups[Str(name)]
    ensures var g := inv.groups[Str(name)];
      Renumbered(inv, multi + (if |g| > 1 then [name] else []), RenumberStep(st, name))
  {
    if |inv.groups[Str(name)]| > 1 {
      RenumberMoves(inv, multi, st, name);
    }
  }

  lemma RenumberMoves(inv: Inventory, multi: seq<string>, st: (Inventory, nat), name: string)
    requires Renumbered(inv, multi, st) && Str(name) in inv.groups && name !in multi
    requires Str(name) in st.0.groups && st.0.groups[Str(name)] == inv.groups[Str(name)]
    requires |inv.groups[Str(name)]| > 1
    ensures Renumbered(inv, multi + [name], RenumberStep(st, name))
  {
    var (r, n) := st;
    var g := inv.groups[Str(name)];
    var multi' := multi + [name];
    MoveOk(r, Str(name), Idx(n), Prefixed(g, n));
    var groups' := (r.groups - {Str(name)})[Idx(n) := Prefixed(g, n)];
    forall m | 0 <= m < n + 1
      ensures Idx(m) in groups' && Str(multi'[m]) in inv.groups && groups'[Idx(m)] == Prefixed(inv.groups[Str(multi'[m])], m)
    {
      if m < n {
        assert multi'[m] == multi[m];
      }
    }
    forall k | k in groups' && k.Str?
      ensures k in inv.groups && k.name !in multi' && groups'[k] == inv.groups[k]
    {
      assert k in r.groups && k != Str(name);
    }
  }

  /** The loop as a whole: the groups of more than one port, in the order of
      `names`, are re-keyed 0, 1, ... and renamed; every other group is
      unchanged; nothing else is there. */
  lemma {:induction false} RenumberResult(inv: Inventory, names: seq<string>, m: nat)
    requires RenumberReady(inv, names) && m <= |names|
    ensures Renumbered(inv, Multi(inv, names[..m]), Renumber(inv, names, m))
    decreases m
  {
    if m == 0 {
    } else {
      var prev := names[..m - 1];
      ReadyPrefix(inv, names, m - 1);
      ReadyPrefix(inv, names, m);
      assert names[..m][..m - 1] == prev && names[..m][m - 1] == names[m - 1];
      RenumberResult(inv, names, m - 1);
      RenumberStepKeeps(inv, Multi(inv, prev), Renumber(inv, names, m - 1), names[m - 1]);
    }
  }

  predicate StrictlySorted(s: seq<string>)
  {
    forall i, j | 0 <= i < j < |s| :: LexLt(s[i], s[j])
  }

  /** The groups are re-keyed in ascending order of their old keys. */
  lemma {:induction false} MultiSorted(inv: Inventory, names: seq<string>)
    requires forall i | 0 <= i < |names| :: Str(names[i]) in inv.groups
    requires StrictlySorted(names)
    ensures StrictlySorted(Multi(inv, names))
    decreases |names|
  {
    if |names| > 0 {
      var prev := names[..|names| - 1];
      var last := names[|names| - 1];
      MultiSorted(inv, prev);
      var m := Multi(inv, prev);
      forall i | 0 <= i < |m| ensures LexLt(m[i], last) {
        assert m[i] in prev;
        var t :| 0 <= t < |prev| && prev[t] == m[i];
      }
    }
  }

  /** A sorted list of distinct strings is strictly sorted. */
  lemma SortedDistinct(s: seq<string>)
    requires Sorted(s) && Distinct(s)
    ensures StrictlySorted(s)
  {
  }

  /** `sorted()` of distinct keys has distinct elements. */
  lemma SortKeepsDistinct(s: seq<string>)
    requires Distinct(s)
    ensures Distinct(Sort(s))
  {
    var r := Sort(s);
    forall i, j | 0 <= i < j < |r| ensures r[i] != r[j] {
      RepeatCounts(r, i, j);
      DistinctCount(s, r[i]);
    }
  }

  lemma RepeatCounts(r: seq<string>, i: nat, j: nat)
    requires i < j < |r|
    ensures r[i] == r[j] ==> multiset(r)[r[i]] >= 2
  {
    assert r == r[..i] + [r[i]] + r[i + 1..j] + [r[j]] + r[j + 1..];
  }

  lemma {:induction false} DistinctCount(s: seq<string>, x: string)
    requires Distinct(s)
    ensures multiset(s)[x] <= 1
    decreases |s|
  {
    if |s| > 0 {
      assert s == [s[0]] + s[1..];
      assert Distinct(s[1..]);
      DistinctCount(s[1..], x);
      if x == s[0] {
        assert x !in s[1..];
      }
    }
  }

  /** The names given to renumbered ports, `nic<n>_eth<p>`, are all
      different: different (n, p) give different names. */
  lemma {:induction false} NicNameInjective(n1: nat, p1: nat, n2: nat, p2: nat)
    requires (n1, p1) != (n2, p2)
    ensures "nic" + Dec(n1) + "_" + ("eth" + Dec(p1)) != "nic" + Dec(n2) + "_" + ("eth" + Dec(p2))
  {
    NicNameParts(Dec(n1), Dec(p1), Dec(n2), Dec(p2));
    if n1 != n2 {
      DecInjective(n1, n2);
    } else {
      DecInjective(p1, p2);
    }
  }

  /** `nic<d>_eth<e>` determines the digit run `d` and the rest `e`. */
  lemma NicNameParts(d1: string, e1: string, d2: string, e2: string)
    requires forall i | 0 <= i < |d1| :: IsDigit(d1[i])
    requires forall i | 0 <= i < |d2| :: IsDigit(d2[i])
    ensures "nic" + d1 + "_" + ("eth" + e1) == "nic" + d2 + "_" + ("eth" + e2) ==> d1 == d2 && e1 == e2
  {
    var t1 := "eth" + e1;
    var t2 := "eth" + e2;
    var u1 := d1 + "_" + t1;
    var u2 := d2 + "_" + t2;
    assert "nic" + d1 + "_" + t1 == "nic" + u1;
    assert "nic" + d2 + "_" + t2 == "nic" + u2;
    DigitsThenUnderscore(d1, t1, d2, t2);
    if u1 != u2 {
      PrefixKeepsDifference("nic", u1, u2);
    }
    if e1 != e2 {
      PrefixKeepsDifference("eth", e1, e2);
    }
  }

  lemma PrefixKeepsDifference(p: string, x: string, y: string)
    requires x != y
    ensures p + x != p + y
  {
    assert (p + x)[|p|..] == x && (p + y)[|p|..] == y;
  }

  /** A run of digits followed by '_' is determined by the string. */
  lemma DigitsThenUnderscore(d1: string, t1: string, d2: string, t2: string)
    requires forall i | 0 <= i < |d1| :: IsDigit(d1[i])
    requires forall i | 0 <= i < |d2| :: IsDigit(d2[i])
    ensures d1 + "_" + t1 == d2 + "_" + t2 ==> d1 == d2 && t1 == t2
  {
    var s1 := d1 + "_" + t1;
    var s2 := d2 + "_" + t2;
    assert s1[|d1|] == '_' && s2[|d2|] == '_';
    assert forall i | 0 <= i < |d1| :: s1[i] == d1[i];
    assert forall i | 0 <= i < |d2| :: s2[i] == d2[i];
    if s1 == s2 {
      assert |d1| == |d2|;
      assert d1 == s1[..|d1|] && d2 == s2[..|d2|];
      assert t1 == s1[|d1| + 1..] && t2 == s2[|d2| + 1..];
    }
  }

  // ---------------------------------------------------------------------
  // The loop itself

  /** The keys of an inventory keyed by strings only, as strings. */
  function KeyNames(order: seq<Key>): (names: seq<string>)
    requires forall i | 0 <= i < |order| :: order[i].Str?
    ensures |names| == |order| && forall i | 0 <= i < |order| :: order[i] == Str(names[i])
  {
    seq(|order|, i requires 0 <= i < |order| => order[i].name)
  }

  /** `sorted(sorted_nics)` before the loop: distinct, strictly ascending,
      and each one a group key. */
  lemma SortedKeysReady(inv: Inventory)
    requires InventoryOk(inv) && forall k | k in inv.groups :: k.Str?
    ensures RenumberReady(inv, Sort(KeyNames(inv.order)))
    ensures StrictlySorted(Sort(KeyNames(inv.order)))
    ensures forall k | k in inv.groups :: k.name in Sort(KeyNames(inv.order))
  {
    var keys := KeyNames(inv.order);
    var names := Sort(keys);
    assert Distinct(keys) by {
      forall i, j | 0 <= i < j < |keys| ensures keys[i] != keys[j] {
        assert inv.order[i] != inv.order[j];
      }
    }
    SortKeepsDistinct(keys);
    forall i | 0 <= i < |names| ensures Str(names[i]) in inv.groups {
      assert names[i] in multiset(keys);
      var t :| 0 <= t < |keys| && keys[t] == names[i];
      assert inv.order[t] in inv.order;
    }
    SortedDistinct(names);
    forall k | k in inv.groups ensures k.name in names {
      var t :| 0 <= t < |inv.order| && inv.order[t] == k;
      assert keys[t] in multiset(names);
    }
  }

  /** The inner loop: every port of the group gets the prefix `nic<n>_`. */
  method PrefixNames(g: seq<Port>, n: nat) returns (renamed: seq<Port>)
    ensures renamed == Prefixed(g, n)
  {
    renamed := g;
    var j := 0;
    while j < |renamed|
      invariant 0 <= j <= |g| == |renamed|
      invariant forall k | 0 <= k < |g| :: renamed[k] == if k < j then Prefixed(g, n)[k] else g[k]
    {
      renamed := renamed[j := renamed[j].(newName := "nic" + Dec(n) + "_" + renamed[j].newName)];
      j := j + 1;
    }
  }

  /** One turn of the third loop: a group of more than one port moves to
      key `n` with its ports renamed, and `n` counts it. */
  method RenumberOne(sortedNics: Inventory, n: nat, nic: string) returns (r: Inventory, n': nat)
    requires Str(nic) in sortedNics.groups
    ensures (r, n') == RenumberStep((sortedNics, n), nic)
  {
    r, n' := sortedNics, n;
    var g := sortedNics.groups[Str(nic)];
    if |g| > 1 {
      r := Pop(r, Str(nic));
      var renamed := PrefixNames(g, n);
      r := Assign(r, Idx(n), renamed);
      n' := n + 1;
    }
  }

  /** The third loop of `nodedev_parse` over the sorted keys `names`. */
  method RenumberInOrder(sortedNics: Inventory, names: seq<string>) returns (r: Inventory)
    requires RenumberReady(sortedNics, names)
    ensures r == Renumber(sortedNics, names, |names|).0
  {
    r := sortedNics;
    var n := 0;
    var i := 0;
    while i < |names|
      invariant 0 <= i <= |names|
      invariant Renumber(sortedNics, names, i) == (r, n)
    {
      r, n := RenumberOne(r, n, names[i]);
      i := i + 1;
    }
  }

  /** The third pass: the keys are sorted, then visited in that order. */
  method RenumberGroups(sortedNics: Inventory) returns (r: Inventory)
    requires InventoryOk(sortedNics) && forall k | k in sortedNics.groups :: k.Str?
    ensures RenumberReady(sortedNics, Sort(KeyNames(sortedNics.order)))
    ensures r == Renumber(sortedNics, Sort(KeyNames(sortedNics.order)), |sortedNics.order|).0
  {
    SortedKeysReady(sortedNics);
    var names := Sort(KeyNames(sortedNics.order));
    r := RenumberInOrder(sortedNics, names);
  }
}
