/**
  `nodedev_parse` as a whole: the device-tree listing in, the inventory of
  network ports out (or the exception that ends the run). The result maps
  each retained adapter group to its ports, keyed by the group's sequence
  number when it has more than one port and by its label prefix otherwise.
 */
module Nodedev {
  import opened Strings
  import opened Ordering
  import opened NodedevExtract
  import opened NodedevGroup
  import opened NodedevRenumber

  /** What `nodedev_parse(output)` returns, or the exception it raises. */
  function NodedevResult(output: seq<string>): Result<Inventory>
  {
    var nics := Extract(output, |output|);
    match GroupAll(nics, LabelText(nics), nics.keys)
    case Err(e) => Err(e)
    case Ok(grouped) =>
      GroupAllOk(nics, LabelText(nics), nics.keys);
      SortedKeysReady(grouped);
      Ok(Renumber(grouped, Sort(KeyNames(grouped.order)), |grouped.order|).0)
  }

  /** `nodedev_parse`: the three loops in turn. */
  method NodedevParse(output: seq<string>) returns (r: Result<Inventory>)
    ensures r == NodedevResult(output)
  {
    var nics := ExtractNics(output);
    var grouped := GroupPorts(nics);
    if grouped.Err? {
      return Err(grouped.error);
    }
    GroupAllOk(nics, LabelText(nics), nics.keys);
    var renumbered := RenumberGroups(grouped.value);
    r := Ok(renumbered);
  }

  // ---------------------------------------------------------------------
  // The stages of a successful run

  ghost function Nics(output: seq<string>): Table
  {
    Extract(output, |output|)
  }

  ghost predicate Groups(output: seq<string>)
  {
    GroupAll(Nics(output), LabelText(Nics(output)), Nics(output).keys).Ok?
  }

  ghost function Grouped(output: seq<string>): (inv: Inventory)
    requires Groups(output)
    ensures GroupedOk(Nics(output), LabelText(Nics(output)), inv)
  {
    GroupAllOk(Nics(output), LabelText(Nics(output)), Nics(output).keys);
    GroupAll(Nics(output), LabelText(Nics(output)), Nics(output).keys).value
  }

  /** The keys of the groups that get a sequence number, in that order. */
  ghost function Numbered(output: seq<string>): seq<string>
    requires Groups(output)
  {
    var grouped := Grouped(output);
    SortedKeysReady(grouped);
    Multi(grouped, Sort(KeyNames(grouped.order)))
  }

  /** The stages of a successful run, related: `grouped` is what the second
      pass left, `multi` the prefixes of its groups of more than one port
      in ascending order, and `inv` the renumbered result. */
  ghost predicate Outcome(nics: Table, grouped: Inventory, multi: seq<string>, inv: Inventory)
  {
    GroupedOk(nics, LabelText(nics), grouped) &&
    Renumbered(grouped, multi, (inv, |multi|)) &&
    StrictlySorted(multi) &&
    (forall s | s in multi :: Str(s) in grouped.groups && |grouped.groups[Str(s)]| > 1) &&
    (forall k | k in grouped.groups && |grouped.groups[k]| > 1 :: k.Str? && k.name in multi)
  }

  lemma Stages(output: seq<string>)
    requires NodedevResult(output).Ok?
    ensures Groups(output)
    ensures Outcome(Nics(output), Grouped(output), Numbered(output), NodedevResult(output).value)
  {
    var grouped := Grouped(output);
    var names := Sort(KeyNames(grouped.order));
    SortedKeysReady(grouped);
    RenumberResult(grouped, names, |names|);
    assert names[..|names|] == names;
    MultiSorted(grouped, names);
  }

  /** The label prefix shared by the ports of a group. */
  function KeyOf(g: seq<Port>): string
  {
    if |g| == 0 then "" else DropLast2(g[0].adapter)
  }

  /** `port`, as entry `j` of the group with label prefix `key`, is what the
      source builds from the recorded port line of its label, apart from
      its new name. */
  ghost predicate EntryOf(nics: Table, key: string, port: Port, j: nat)
  {
    MemberOk(nics, key, port.(newName := "eth" + Dec(j)), j)
  }

  /** Group number `m`: more than one port, strictly ascending labels,
      port `j` named `nic<m>_eth<j>` and built from its label's port line,
      and every label its prefix matches present. */
  ghost predicate NumberedGroupOk(nics: Table, m: nat, g: seq<Port>)
  {
    |g| > 1 && StrictlyAscending(g) &&
    (forall j | 0 <= j < |g| ::
      g[j].newName == "nic" + Dec(m) + "_" + ("eth" + Dec(j)) && EntryOf(nics, KeyOf(g), g[j], j)) &&
    (forall x | x in FindAll(LabelText(nics), KeyOf(g)) :: HasLabel(g, x))
  }

  /** A group of more than one port, renumbered as group `m`. */
  lemma PrefixedGroupOk(nics: Table, key: string, g0: seq<Port>, m: nat)
    requires GroupOk(nics, LabelText(nics), key, g0) && |g0| > 1
    ensures NumberedGroupOk(nics, m, Prefixed(g0, m)) && KeyOf(Prefixed(g0, m)) == key
  {
    var text := LabelText(nics);
    var g := Prefixed(g0, m);
    assert MemberOk(nics, key, g0[0], 0);
    assert KeyOf(g) == key;
    forall j | 0 <= j < |g|
      ensures g[j].newName == "nic" + Dec(m) + "_" + ("eth" + Dec(j)) && EntryOf(nics, key, g[j], j)
    {
      PrefixedPort(nics, key, g0, m, j);
    }
    forall j, k | 0 <= j < k < |g| ensures LexLt(g[j].adapter, g[k].adapter) {
      assert g[j].adapter == g0[j].adapter && g[k].adapter == g0[k].adapter;
    }
    forall x | x in FindAll(text, key) ensures HasLabel(g, x) {
      var j :| 0 <= j < |g0| && g0[j].adapter == x;
      assert g[j].adapter == x;
    }
  }

  lemma PrefixedPort(nics: Table, key: string, g0: seq<Port>, m: nat, j: nat)
    requires j < |g0| && MemberOk(nics, key, g0[j], j)
    ensures Prefixed(g0, m)[j].newName == "nic" + Dec(m) + "_" + ("eth" + Dec(j))
    ensures EntryOf(nics, key, Prefixed(g0, m)[j], j)
  {
    MakePortFields(g0[j].adapter, nics.values[g0[j].adapter], j);
    assert Prefixed(g0, m)[j].(newName := "eth" + Dec(j)) == g0[j];
  }

  lemma NumberedGroupFrom(nics: Table, grouped: Inventory, multi: seq<string>, inv: Inventory, m: nat)
    requires Outcome(nics, grouped, multi, inv) && m < |multi|
    ensures Idx(m) in inv.groups
    ensures NumberedGroupOk(nics, m, inv.groups[Idx(m)]) && KeyOf(inv.groups[Idx(m)]) == multi[m]
  {
    var key := multi[m];
    assert key in multi;
    assert Str(key) in grouped.groups && |grouped.groups[Str(key)]| > 1;
    assert inv.groups[Idx(m)] == Prefixed(grouped.groups[Str(key)], m);
    assert GroupOk(nics, LabelText(nics), key, grouped.groups[Str(key)]);
    PrefixedGroupOk(nics, key, grouped.groups[Str(key)], m);
  }

  // ---------------------------------------------------------------------
  // What `nodedev_parse` promises

  /** The groups of more than one port are numbered 0, 1, ... without
      gaps, in ascending order of their label prefixes; each holds every
      recorded label its prefix matches, in strictly ascending order, port
      `j` of group `m` being named `nic<m>_eth<j>` and built from its
      label's port line. */
  lemma NumberedGroups(output: seq<string>)
    requires NodedevResult(output).Ok?
    ensures InventoryOk(NodedevResult(output).value)
    ensures forall m: nat, m': nat | Idx(m) in NodedevResult(output).value.groups && m' < m ::
      Idx(m') in NodedevResult(output).value.groups
    ensures forall m: nat | Idx(m) in NodedevResult(output).value.groups ::
      NumberedGroupOk(Nics(output), m, NodedevResult(output).value.groups[Idx(m)])
    ensures forall m1: nat, m2: nat | Idx(m1) in NodedevResult(output).value.groups && Idx(m2) in NodedevResult(output).value.groups && m1 < m2 ::
      LexLt(KeyOf(NodedevResult(output).value.groups[Idx(m1)]), KeyOf(NodedevResult(output).value.groups[Idx(m2)]))
  {
    Stages(output);
    NumberedGroupsFrom(Nics(output), Grouped(output), Numbered(output), NodedevResult(output).value);
  }

  lemma NumberedGroupsFrom(nics: Table, grouped: Inventory, multi: seq<string>, inv: Inventory)
    requires Outcome(nics, grouped, multi, inv)
    ensures InventoryOk(inv)
    ensures forall m: nat, m': nat | Idx(m) in inv.groups && m' < m :: Idx(m') in inv.groups
    ensures forall m: nat | Idx(m) in inv.groups :: NumberedGroupOk(nics, m, inv.groups[Idx(m)])
    ensures forall m1: nat, m2: nat | Idx(m1) in inv.groups && Idx(m2) in inv.groups && m1 < m2 ::
      LexLt(KeyOf(inv.groups[Idx(m1)]), KeyOf(inv.groups[Idx(m2)]))
  {
    forall m: nat | Idx(m) in inv.groups
      ensures NumberedGroupOk(nics, m, inv.groups[Idx(m)]) && KeyOf(inv.groups[Idx(m)]) == multi[m]
    {
      NumberedGroupFrom(nics, grouped, multi, inv, m);
    }
  }

  /** The groups keyed by a label prefix are the single-port groups: the
      port is named eth0, is built from its label's port line, and is the
      only label the prefix matches (it matched more than once). */
  lemma SinglePortGroups(output: seq<string>)
    requires NodedevResult(output).Ok?
    ensures forall k | k in NodedevResult(output).value.groups && k.Str? ::
      SinglePortOk(Nics(output), k.name, NodedevResult(output).value.groups[k])
  {
    Stages(output);
    SinglePortGroupsFrom(Nics(output), Grouped(output), Numbered(output), NodedevResult(output).value);
  }

  ghost predicate SinglePortOk(nics: Table, key: string, g: seq<Port>)
  {
    |g| == 1 && g[0].newName == "eth0" && EntryOf(nics, key, g[0], 0) &&
    |FindAll(LabelText(nics), key)| > 1 &&
    (forall x | x in FindAll(LabelText(nics), key) :: x == g[0].adapter)
  }

  lemma SinglePortGroupsFrom(nics: Table, grouped: Inventory, multi: seq<string>, inv: Inventory)
    requires Outcome(nics, grouped, multi, inv)
    ensures forall k | k in inv.groups && k.Str? :: SinglePortOk(nics, k.name, inv.groups[k])
  {
    forall k | k in inv.groups && k.Str? ensures SinglePortOk(nics, k.name, inv.groups[k]) {
      assert k in grouped.groups && k.name !in multi && inv.groups[k] == grouped.groups[k];
      assert |grouped.groups[k]| <= 1;
      SinglePortGroup(nics, k.name, grouped.groups[k]);
    }
  }

  lemma EthZero()
    ensures "eth" + Dec(0) == "eth0"
  {
    assert Dec(0) == [DigitChar(0)];
  }

  /** An entry as the second pass builds it is named `eth<j>`. */
  lemma PortName(nics: Table, key: string, port: Port, j: nat)
    requires MemberOk(nics, key, port, j)
    ensures port.newName == "eth" + Dec(j) && EntryOf(nics, key, port, j)
  {
    MakePortFields(port.adapter, nics.values[port.adapter], j);
    assert port.(newName := "eth" + Dec(j)) == port;
  }

  lemma SinglePortGroup(nics: Table, key: string, g: seq<Port>)
    requires GroupOk(nics, LabelText(nics), key, g) && |g| <= 1
    ensures SinglePortOk(nics, key, g)
  {
    assert MemberOk(nics, key, g[0], 0);
    PortName(nics, key, g[0], 0);
    EthZero();
    forall x | x in FindAll(LabelText(nics), key) ensures x == g[0].adapter {
      assert HasLabel(g, x);
    }
  }

  /** The group of the second pass that a result group came from. */
  function Source(multi: seq<string>, k: Key): Key
  {
    if k.Idx? && k.n < |multi| then Str(multi[k.n]) else k
  }

  lemma SourceGroup(nics: Table, grouped: Inventory, multi: seq<string>, inv: Inventory, k: Key)
    requires Outcome(nics, grouped, multi, inv) && k in inv.groups
    ensures Source(multi, k) in grouped.groups
    ensures |inv.groups[k]| == |grouped.groups[Source(multi, k)]|
    ensures forall i | 0 <= i < |inv.groups[k]| :: inv.groups[k][i].adapter == grouped.groups[Source(multi, k)][i].adapter
  {
    if k.Idx? {
      assert k.n < |multi|;
      assert multi[k.n] in multi;
    }
  }

  lemma SourceInjective(nics: Table, grouped: Inventory, multi: seq<string>, inv: Inventory, k1: Key, k2: Key)
    requires Outcome(nics, grouped, multi, inv) && k1 in inv.groups && k2 in inv.groups
    ensures Source(multi, k1) == Source(multi, k2) ==> k1 == k2
  {
    if k1.Idx? {
      assert k1.n < |multi|;
    }
    if k2.Idx? {
      assert k2.n < |multi|;
    }
    if k1.Idx? && k2.Idx? && k1.n != k2.n {
      assert multi[k1.n] != multi[k2.n] by {
        if k1.n < k2.n {
          assert LexLt(multi[k1.n], multi[k2.n]);
        } else {
          assert LexLt(multi[k2.n], multi[k1.n]);
        }
      }
    }
    if k1.Idx? && k2.Str? {
      assert multi[k1.n] in multi;
    }
    if k1.Str? && k2.Idx? {
      assert multi[k2.n] in multi;
    }
  }

  /** No label appears twice in the result: not in two groups, not twice
      in one group. */
  lemma LabelsUnique(output: seq<string>)
    requires NodedevResult(output).Ok?
    ensures var inv := NodedevResult(output).value;
      forall k1, k2, i, j | k1 in inv.groups && k2 in inv.groups && 0 <= i < |inv.groups[k1]| && 0 <= j < |inv.groups[k2]| ::
        inv.groups[k1][i].adapter == inv.groups[k2][j].adapter ==> k1 == k2 && i == j
  {
    Stages(output);
    LabelsUniqueFrom(Nics(output), Grouped(output), Numbered(output), NodedevResult(output).value);
  }

  lemma LabelsUniqueFrom(nics: Table, grouped: Inventory, multi: seq<string>, inv: Inventory)
    requires Outcome(nics, grouped, multi, inv)
    ensures forall k1, k2, i, j | k1 in inv.groups && k2 in inv.groups && 0 <= i < |inv.groups[k1]| && 0 <= j < |inv.groups[k2]| ::
      inv.groups[k1][i].adapter == inv.groups[k2][j].adapter ==> k1 == k2 && i == j
  {
    GroupedLabelsUnique(nics, LabelText(nics), grouped);
    forall k1, k2, i, j | k1 in inv.groups && k2 in inv.groups && 0 <= i < |inv.groups[k1]| && 0 <= j < |inv.groups[k2]|
      ensures inv.groups[k1][i].adapter == inv.groups[k2][j].adapter ==> k1 == k2 && i == j
    {
      SourceGroup(nics, grouped, multi, inv, k1);
      SourceGroup(nics, grouped, multi, inv, k2);
      SourceInjective(nics, grouped, multi, inv, k1, k2);
    }
  }

  /** The names `nic<m>_eth<j>` given to the ports of numbered groups are
      all different. */
  lemma NumberedNamesUnique(output: seq<string>)
    requires NodedevResult(output).Ok?
    ensures var inv := NodedevResult(output).value;
      forall m1: nat, m2: nat, i, j | Idx(m1) in inv.groups && Idx(m2) in inv.groups &&
        0 <= i < |inv.groups[Idx(m1)]| && 0 <= j < |inv.groups[Idx(m2)]| && (m1, i) != (m2, j) ::
        inv.groups[Idx(m1)][i].newName != inv.groups[Idx(m2)][j].newName
  {
    NumberedGroups(output);
    var inv := NodedevResult(output).value;
    forall m1: nat, m2: nat, i, j | Idx(m1) in inv.groups && Idx(m2) in inv.groups &&
      0 <= i < |inv.groups[Idx(m1)]| && 0 <= j < |inv.groups[Idx(m2)]| && (m1, i) != (m2, j)
      ensures inv.groups[Idx(m1)][i].newName != inv.groups[Idx(m2)][j].newName
    {
      assert NumberedGroupOk(Nics(output), m1, inv.groups[Idx(m1)]);
      assert NumberedGroupOk(Nics(output), m2, inv.groups[Idx(m2)]);
      NicNameInjective(m1, i, m2, j);
    }
  }

  /** `nodedev_parse` raises exactly when one of the labels its grouping
      looks up is not a recorded label (KeyError) or has fewer than five
      fields (IndexError), and the exception names such a label. */
  lemma NodedevFails(output: seq<string>)
    ensures NodedevResult(output).Err? <==>
      exists x :: Looked(LabelText(Nics(output)), Nics(output).keys, x) && Unusable(Nics(output), x)
    ensures NodedevResult(output).Err? ==>
      ErrorCause(Nics(output), LabelText(Nics(output)), Nics(output).keys, NodedevResult(output).error)
  {
    GroupAllFails(Nics(output), LabelText(Nics(output)), Nics(output).keys);
  }
}
