/**
  Second pass of `nodedev_parse`: for each recorded adapter label, the
  labels of the form `<label minus its last two characters>_<digit>` are
  looked up among all recorded labels; when there are at least two, they
  are taken in sorted order, each one not yet placed in a group is
  decomposed into a port entry named `eth<p>`, and appended to the group
  of that key.
 */
module NodedevGroup {
  import opened Strings
  import opened Ordering
  import opened NodedevExtract

  /** A key of `sorted_nics`: a group key (an adapter label without its
      last two characters) until the third pass re-keys the retained groups
      by their sequence number. */
  datatype Key = Str(name: string) | Idx(n: nat)

  /** One port's entry: the adapter label it is stored under and the fields
      of its dictionary. */
  datatype Port = Port(
    adapter: string,
    currentName: string,
    newName: string,
    mac: string,
    domain: string,
    bus: string,
    slot: string,
    pciFunction: string)

  /** `sorted_nics`: its keys in insertion order beside the map; each group
      lists its ports in insertion order. */
  datatype Inventory = Inventory(order: seq<Key>, groups: map<Key, seq<Port>>)

  /** The two exceptions the grouping pass does not catch: a grouped label
      that is not a recorded adapter label (KeyError on `nics[port]`), and
      a label with fewer than five underscore-separated fields (IndexError
      on `pci_name[4]`). Either one aborts the whole run. */
  datatype ParseError = MissingKey(adapter: string) | MissingField(adapter: string)

  datatype Result<T> = Ok(value: T) | Err(error: ParseError)

  const EMPTY: Inventory := Inventory([], map[])

  ghost predicate InventoryOk(inv: Inventory)
  {
    Distinct(inv.order) && forall k :: k in inv.groups <==> k in inv.order
  }

  /** `x in group`: the group has an entry for label `x`. */
  predicate HasLabel(g: seq<Port>, x: string)
  {
    exists j | 0 <= j < |g| :: g[j].adapter == x
  }

  /** `any(port in sorted_nics[k] for k in sorted_nics)`. */
  predicate Claimed(groups: map<Key, seq<Port>>, x: string)
  {
    exists k | k in groups :: HasLabel(groups[k], x)
  }

  /** The entry for adapter label `adapter` whose recorded port line is
      `portLine`, as port number `p` of its group: the port line without
      "net_" is split on '_'; its last six fields joined by ':' are the MAC,
      the fields before them joined by '_' the current interface name
      (Python's slice `[0:len - 6]`, which for fewer than six fields counts
      from the end); fields 1 to 4 of the label are the PCI domain, bus,
      slot and function. */
  function MakePort(adapter: string, portLine: string, p: nat): Result<Port>
  {
    var details := Split(RemoveAll(portLine, "net_"), '_');
    var pciName := Split(adapter, '_');
    if |pciName| < 5 then Err(MissingField(adapter))
    else Ok(Port(adapter,
                 JoinWith("_", DropLastPy(details, 6)),
                 "eth" + Dec(p),
                 JoinWith(":", LastPy(details, 6)),
                 pciName[1], pciName[2], pciName[3], pciName[4]))
  }

  /** How a port entry is decomposed: it fails exactly when the adapter label
      has fewer than five fields; otherwise it keeps the label, names the
      port `eth<p>`, takes PCI fields 1 to 4 of the label in order, and,
      when the port line has at least six fields, splits those fields
      without losing any: all but the last six form the current name, the
      last six the MAC. */
  lemma MakePortFields(adapter: string, portLine: string, p: nat)
    ensures MakePort(adapter, portLine, p).Ok? <==> |Split(adapter, '_')| >= 5
    ensures MakePort(adapter, portLine, p).Ok? ==>
      var port := MakePort(adapter, portLine, p).value;
      port.adapter == adapter && port.newName == "eth" + Dec(p) &&
      [port.domain, port.bus, port.slot, port.pciFunction] == Split(adapter, '_')[1..5]
    ensures MakePort(adapter, portLine, p).Ok? ==>
      var port := MakePort(adapter, portLine, p).value;
      var details := Split(RemoveAll(portLine, "net_"), '_');
      JoinWith("_", details) == RemoveAll(portLine, "net_") &&
      (|details| >= 6 ==>
        port.currentName == JoinWith("_", details[..|details| - 6]) &&
        port.mac == JoinWith(":", details[|details| - 6..]))
  {
    JoinSplit(RemoveAll(portLine, "net_"), '_');
  }

  /** The entry made for a label is stored under that label. */
  lemma MakePortLabel(adapter: string, portLine: string, p: nat)
    ensures MakePort(adapter, portLine, p).Ok? ==> MakePort(adapter, portLine, p).value.adapter == adapter
  {
  }

  /** `sorted_nics[key][rec.adapter] = rec`, creating the group when it is new. */
  function AppendPort(inv: Inventory, key: string, rec: Port): Inventory
  {
    if Str(key) in inv.groups then Inventory(inv.order, inv.groups[Str(key) := inv.groups[Str(key)] + [rec]])
    else Inventory(inv.order + [Str(key)], inv.groups[Str(key) := [rec]])
  }

  /** One turn of the inner loop, on the state (sorted_nics, p): a claimed
      port is skipped, any other one is appended as `eth<p>` and p counts it. */
  function AddPort(nics: Table, st: (Inventory, nat), key: string, port: string): Result<(Inventory, nat)>
  {
    var (inv, p) := st;
    if Claimed(inv.groups, port) then Ok(st)
    else if port !in nics.values then Err(MissingKey(port))
    else
      match MakePort(port, nics.values[port], p)
      case Err(e) => Err(e)
      case Ok(rec) => Ok((AppendPort(inv, key, rec), p + 1))
  }

  /** The inner loop over `ports` (already sorted), p starting at 0. */
  function AddPorts(nics: Table, inv: Inventory, key: string, ports: seq<string>): Result<(Inventory, nat)>
    decreases |ports|
  {
    if |ports| == 0 then Ok((inv, 0))
    else
      match AddPorts(nics, inv, key, ports[..|ports| - 1])
      case Err(e) => Err(e)
      case Ok(st) => AddPort(nics, st, key, ports[|ports| - 1])
  }

  /** One turn of the outer loop, for adapter label `nic`; `text` is the
      recorded labels joined by spaces. */
  function GroupNic(nics: Table, text: string, inv: Inventory, nic: string): Result<Inventory>
  {
    var key := DropLast2(nic);
    var ports := FindAll(text, key);
    if |ports| > 1 then
      match AddPorts(nics, inv, key, Sort(ports))
      case Err(e) => Err(e)
      case Ok(st) => Ok(st.0)
    else Ok(inv)
  }

  /** The outer loop over the recorded labels `nicKeys`, in order. */
  function GroupAll(nics: Table, text: string, nicKeys: seq<string>): Result<Inventory>
    decreases |nicKeys|
  {
    if |nicKeys| == 0 then Ok(EMPTY)
    else
      match GroupAll(nics, text, nicKeys[..|nicKeys| - 1])
      case Err(e) => Err(e)
      case Ok(inv) => GroupNic(nics, text, inv, nicKeys[|nicKeys| - 1])
  }

  /** The text the grouping pattern is searched in: `' '.join(nics.keys())`. */
  function LabelText(nics: Table): string
  {
    JoinWith(" ", nics.keys)
  }

  // ---------------------------------------------------------------------
  // What a finished group looks like

  /** Entry `j` of group `key` belongs there: its label is `key` `_` digit,
      is a recorded adapter label, and the entry is that label's port line
      decomposed as port number `j`. */
  ghost predicate MemberOk(nics: Table, key: string, port: Port, j: nat)
  {
    IsKeyDigit(port.adapter, key) && port.adapter in nics.values &&
    MakePort(port.adapter, nics.values[port.adapter], j) == Ok(port)
  }

  ghost predicate StrictlyAscending(g: seq<Port>)
  {
    forall i, j | 0 <= i < j < |g| :: LexLt(g[i].adapter, g[j].adapter)
  }

  /** A group as the second pass leaves it: not empty, made because the
      pattern matched at least twice, its entries numbered in strictly
      ascending label order, and holding every label the pattern matched. */
  ghost predicate GroupOk(nics: Table, text: string, key: string, g: seq<Port>)
  {
    |g| >= 1 && |FindAll(text, key)| > 1 &&
    (forall j | 0 <= j < |g| :: MemberOk(nics, key, g[j], j)) &&
    StrictlyAscending(g) &&
    (forall x | x in FindAll(text, key) :: HasLabel(g, x))
  }

  ghost predicate GroupedOk(nics: Table, text: string, inv: Inventory)
  {
    InventoryOk(inv) &&
    forall k | k in inv.groups :: k.Str? && GroupOk(nics, text, k.name, inv.groups[k])
  }

  ghost predicate LabelsPrefixed(groups: map<Key, seq<Port>>)
  {
    forall k | k in groups :: k.Str? && forall j | 0 <= j < |groups[k]| :: IsKeyDigit(groups[k][j].adapter, k.name)
  }

  /** A label of the form `key` `_` digit can only sit in group `key`. */
  lemma ClaimedByOwnGroup(groups: map<Key, seq<Port>>, key: string, x: string)
    requires LabelsPrefixed(groups) && IsKeyDigit(x, key)
    ensures Claimed(groups, x) <==> Str(key) in groups && HasLabel(groups[Str(key)], x)
  {
    if Claimed(groups, x) {
      var k :| k in groups && HasLabel(groups[k], x);
      var j :| 0 <= j < |groups[k]| && groups[k][j].adapter == x;
      assert IsKeyDigit(x, k.name);
      assert k.name == x[..|x| - 2] == key;
    }
  }

  /** In a grouped inventory no label appears twice: not in two groups, and
      not twice in one group. */
  lemma GroupedLabelsUnique(nics: Table, text: string, inv: Inventory)
    requires GroupedOk(nics, text, inv)
    ensures forall k1, k2, i, j | k1 in inv.groups && k2 in inv.groups && 0 <= i < |inv.groups[k1]| && 0 <= j < |inv.groups[k2]| ::
      inv.groups[k1][i].adapter == inv.groups[k2][j].adapter ==> k1 == k2 && i == j
  {
    forall k1, k2, i, j | k1 in inv.groups && k2 in inv.groups && 0 <= i < |inv.groups[k1]| && 0 <= j < |inv.groups[k2]|
      ensures inv.groups[k1][i].adapter == inv.groups[k2][j].adapter ==> k1 == k2 && i == j
    {
      var x := inv.groups[k1][i].adapter;
      var y := inv.groups[k2][j].adapter;
      assert MemberOk(nics, k1.name, inv.groups[k1][i], i) && MemberOk(nics, k2.name, inv.groups[k2][j], j);
      assert k1.name == x[..|x| - 2] && k2.name == y[..|y| - 2];
      if k1 == k2 && i < j {
        assert LexLt(x, y);
      } else if k1 == k2 && j < i {
        assert LexLt(y, x);
      }
    }
  }

  // ---------------------------------------------------------------------
  // The inner loop for a key that has no group yet

  /** The group being built from the sorted matches `done` seen so far. */
  ghost predicate NewGroupOk(nics: Table, key: string, g: seq<Port>, done: seq<string>)
  {
    (forall j | 0 <= j < |g| :: MemberOk(nics, key, g[j], j)) &&
    (forall j | 0 <= j < |g| :: g[j].adapter in done) &&
    StrictlyAscending(g) &&
    (forall x | x in done :: HasLabel(g, x))
  }

  /** The state (sorted_nics, p) after the inner loop has seen `done`,
      starting from `inv0` where group `key` did not exist: either nothing
      was seen, or group `key` was appended to the order and holds p ports. */
  ghost predicate FreshState(nics: Table, inv0: Inventory, key: string, done: seq<string>, st: (Inventory, nat))
  {
    var (inv, p) := st;
    if p == 0 then inv == inv0 && |done| == 0
    else
      Str(key) in inv.groups &&
      inv == Inventory(inv0.order + [Str(key)], inv0.groups[Str(key) := inv.groups[Str(key)]]) &&
      |inv.groups[Str(key)]| == p &&
      NewGroupOk(nics, key, inv.groups[Str(key)], done)
  }

  /** The first match starts the new group. */
  lemma FreshFirst(nics: Table, inv0: Inventory, key: string, x: string)
    requires LabelsPrefixed(inv0.groups) && Str(key) !in inv0.groups && IsKeyDigit(x, key)
    ensures AddPort(nics, (inv0, 0), key, x).Ok? ==> FreshState(nics, inv0, key, [x], AddPort(nics, (inv0, 0), key, x).value)
  {
    ClaimedByOwnGroup(inv0.groups, key, x);
    var after := AddPort(nics, (inv0, 0), key, x);
    if after.Ok? {
      var rec := MakePort(x, nics.values[x], 0).value;
      MakePortLabel(x, nics.values[x], 0);
      assert after.value == (AppendPort(inv0, key, rec), 1);
      assert MemberOk(nics, key, [rec][0], 0) && [rec][0].adapter == x;
      assert HasLabel([rec], x);
      assert NewGroupOk(nics, key, [rec], [x]);
    }
  }

  /** A match the group already holds leaves it as it is. */
  lemma NewGroupSkip(nics: Table, key: string, g: seq<Port>, done: seq<string>, x: string)
    requires NewGroupOk(nics, key, g, done) && HasLabel(g, x)
    ensures NewGroupOk(nics, key, g, done + [x])
  {
    forall y | y in done + [x] ensures HasLabel(g, y) {
      if y != x {
        assert y in done;
      }
    }
  }

  /** A match the group does not hold, no smaller than any match before it,
      goes last and keeps the group strictly ascending. */
  lemma NewGroupAppend(nics: Table, key: string, g: seq<Port>, done: seq<string>, x: string, rec: Port)
    requires NewGroupOk(nics, key, g, done) && !HasLabel(g, x)
    requires forall y | y in done :: LexLe(y, x)
    requires rec.adapter == x && MemberOk(nics, key, rec, |g|)
    ensures NewGroupOk(nics, key, g + [rec], done + [x])
  {
    AppendAscending(g, done, x, rec);
    AppendMembers(nics, key, g, rec);
    AppendLabels(g, done, x, rec);
    AppendComplete(g, done, x, rec);
  }

  lemma AppendAscending(g: seq<Port>, done: seq<string>, x: string, rec: Port)
    requires StrictlyAscending(g) && !HasLabel(g, x) && rec.adapter == x
    requires forall j | 0 <= j < |g| :: g[j].adapter in done
    requires forall y | y in done :: LexLe(y, x)
    ensures StrictlyAscending(g + [rec])
  {
    var g' := g + [rec];
    forall i, j | 0 <= i < j < |g'| ensures LexLt(g'[i].adapter, g'[j].adapter) {
      assert g'[i] == g[i];
      if j < |g| {
        assert g'[j] == g[j];
      } else {
        assert g[i].adapter in done;
        assert g[i].adapter != x;
      }
    }
  }

  lemma AppendMembers(nics: Table, key: string, g: seq<Port>, rec: Port)
    requires forall j | 0 <= j < |g| :: MemberOk(nics, key, g[j], j)
    requires MemberOk(nics, key, rec, |g|)
    ensures forall j | 0 <= j < |g + [rec]| :: MemberOk(nics, key, (g + [rec])[j], j)
  {
    var g' := g + [rec];
    forall j | 0 <= j < |g'| ensures MemberOk(nics, key, g'[j], j) {
      if j < |g| {
        assert g'[j] == g[j];
      }
    }
  }

  lemma AppendLabels(g: seq<Port>, done: seq<string>, x: string, rec: Port)
    requires forall j | 0 <= j < |g| :: g[j].adapter in done
    requires rec.adapter == x
    ensures forall j | 0 <= j < |g + [rec]| :: (g + [rec])[j].adapter in done + [x]
  {
    var g' := g + [rec];
    forall j | 0 <= j < |g'| ensures g'[j].adapter in done + [x] {
      if j < |g| {
        assert g'[j] == g[j];
      }
    }
  }

  lemma AppendComplete(g: seq<Port>, done: seq<string>, x: string, rec: Port)
    requires forall y | y in done :: HasLabel(g, y)
    requires rec.adapter == x
    ensures forall y | y in done + [x] :: HasLabel(g + [rec], y)
  {
    var g' := g + [rec];
    forall y | y in done + [x] ensures HasLabel(g', y) {
      if y in done {
        var j :| 0 <= j < |g| && g[j].adapter == y;
        assert g'[j] == g[j];
      } else {
        assert g'[|g|].adapter == x;
      }
    }
  }

  /** A later match is skipped when the group has it, and appended as the
      greatest port otherwise. */
  lemma FreshNext(nics: Table, inv0: Inventory, key: string, done: seq<string>, x: string, st: (Inventory, nat))
    requires Str(key) !in inv0.groups && IsKeyDigit(x, key)
    requires forall y | y in done :: LexLe(y, x)
    requires st.1 > 0 && FreshState(nics, inv0, key, done, st)
    requires LabelsPrefixed(st.0.groups)
    ensures AddPort(nics, st, key, x).Ok? ==> FreshState(nics, inv0, key, done + [x], AddPort(nics, st, key, x).value)
  {
    var (inv, p) := st;
    var g := inv.groups[Str(key)];
    ClaimedByOwnGroup(inv.groups, key, x);
    if HasLabel(g, x) {
      NewGroupSkip(nics, key, g, done, x);
    } else if x in nics.values && MakePort(x, nics.values[x], p).Ok? {
      FreshAppend(nics, inv0, key, done, x, st);
    }
  }

  /** A match the new group does not hold yet goes last, as port p. */
  lemma FreshAppend(nics: Table, inv0: Inventory, key: string, done: seq<string>, x: string, st: (Inventory, nat))
    requires IsKeyDigit(x, key)
    requires forall y | y in done :: LexLe(y, x)
    requires st.1 > 0 && FreshState(nics, inv0, key, done, st)
    requires !HasLabel(st.0.groups[Str(key)], x)
    requires x in nics.values && MakePort(x, nics.values[x], st.1).Ok?
    ensures FreshState(nics, inv0, key, done + [x],
      (AppendPort(st.0, key, MakePort(x, nics.values[x], st.1).value), st.1 + 1))
  {
    var (inv, p) := st;
    var g := inv.groups[Str(key)];
    var rec := MakePort(x, nics.values[x], p).value;
    MakePortLabel(x, nics.values[x], p);
    NewGroupAppend(nics, key, g, done, x, rec);
    var groups' := inv.groups[Str(key) := g + [rec]];
    assert groups' == inv0.groups[Str(key) := g + [rec]];
    assert AppendPort(inv, key, rec) == Inventory(inv.order, groups');
  }

  lemma {:induction false} AddPortsFresh(nics: Table, text: string, inv0: Inventory, key: string, ports: seq<string>, m: nat)
    requires GroupedOk(nics, text, inv0) && Str(key) !in inv0.groups
    requires Sorted(ports) && forall x | x in ports :: IsKeyDigit(x, key)
    requires m <= |ports|
    ensures AddPorts(nics, inv0, key, ports[..m]).Ok? ==>
      FreshState(nics, inv0, key, ports[..m], AddPorts(nics, inv0, key, ports[..m]).value)
    decreases m
  {
    if m > 0 {
      var done := ports[..m - 1];
      var x := ports[m - 1];
      assert ports[..m][..m - 1] == done && ports[..m] == done + [x];
      AddPortsFresh(nics, text, inv0, key, ports, m - 1);
      var before := AddPorts(nics, inv0, key, done);
      if before.Ok? {
        GroupedPrefixed(nics, text, inv0);
        if before.value.1 == 0 {
          FreshFirst(nics, inv0, key, x);
        } else {
          forall y | y in done ensures LexLe(y, x) {
            var t :| 0 <= t < m - 1 && done[t] == y;
          }
          FreshNext(nics, inv0, key, done, x, before.value);
        }
      }
    }
  }

  // ---------------------------------------------------------------------
  // The inner loop for a key whose group already holds every match

  lemma {:induction false} AddPortsKnown(nics: Table, inv: Inventory, key: string, ports: seq<string>)
    requires LabelsPrefixed(inv.groups) && Str(key) in inv.groups
    requires forall x | x in ports :: IsKeyDigit(x, key) && HasLabel(inv.groups[Str(key)], x)
    ensures AddPorts(nics, inv, key, ports) == Ok((inv, 0))
    decreases |ports|
  {
    if |ports| > 0 {
      var last := ports[|ports| - 1];
      assert forall x | x in ports[..|ports| - 1] :: x in ports;
      AddPortsKnown(nics, inv, key, ports[..|ports| - 1]);
      ClaimedByOwnGroup(inv.groups, key, last);
    }
  }

  // ---------------------------------------------------------------------
  // The outer loop keeps the inventory grouped

  /** The groups of a grouped inventory hold only labels of their own key. */
  lemma GroupedPrefixed(nics: Table, text: string, inv: Inventory)
    requires GroupedOk(nics, text, inv)
    ensures LabelsPrefixed(inv.groups)
  {
    forall k | k in inv.groups
      ensures k.Str? && forall j | 0 <= j < |inv.groups[k]| :: IsKeyDigit(inv.groups[k][j].adapter, k.name)
    {
      assert GroupOk(nics, text, k.name, inv.groups[k]);
    }
  }

  /** Sorting the matches keeps exactly the matches. */
  lemma SortedMatches(text: string, key: string)
    ensures forall x :: x in Sort(FindAll(text, key)) <==> x in FindAll(text, key)
    ensures forall x | x in Sort(FindAll(text, key)) :: IsKeyDigit(x, key)
  {
    var ports := FindAll(text, key);
    var sorted := Sort(ports);
    forall x ensures x in sorted <==> x in ports {
      assert x in sorted <==> x in multiset(sorted);
      assert x in ports <==> x in multiset(ports);
    }
  }

  /** A new group made from the sorted matches holds every match. */
  lemma FreshGroupOk(nics: Table, text: string, inv: Inventory, key: string)
    requires GroupedOk(nics, text, inv) && Str(key) !in inv.groups && |FindAll(text, key)| > 1
    ensures AddPorts(nics, inv, key, Sort(FindAll(text, key))).Ok? ==>
      GroupedOk(nics, text, AddPorts(nics, inv, key, Sort(FindAll(text, key))).value.0)
  {
    var ports := FindAll(text, key);
    var sorted := Sort(ports);
    SortedMatches(text, key);
    AddPortsFresh(nics, text, inv, key, sorted, |sorted|);
    assert sorted[..|sorted|] == sorted;
    var r := AddPorts(nics, inv, key, sorted);
    if r.Ok? {
      var inv' := r.value.0;
      var g := inv'.groups[Str(key)];
      assert GroupOk(nics, text, key, g);
      forall k | k in inv'.groups ensures k.Str? && GroupOk(nics, text, k.name, inv'.groups[k]) {
        if k != Str(key) {
          assert inv'.groups[k] == inv.groups[k];
        }
      }
    }
  }

  lemma GroupNicOk(nics: Table, text: string, inv: Inventory, nic: string)
    requires GroupedOk(nics, text, inv)
    ensures GroupNic(nics, text, inv, nic).Ok? ==> GroupedOk(nics, text, GroupNic(nics, text, inv, nic).value)
  {
    var key := DropLast2(nic);
    var ports := FindAll(text, key);
    if |ports| > 1 {
      if Str(key) in inv.groups {
        var sorted := Sort(ports);
        SortedMatches(text, key);
        assert GroupOk(nics, text, key, inv.groups[Str(key)]);
        GroupedPrefixed(nics, text, inv);
        AddPortsKnown(nics, inv, key, sorted);
      } else {
        FreshGroupOk(nics, text, inv, key);
      }
    }
  }

  /** Every inventory the grouping pass produces is grouped. */
  lemma {:induction false} GroupAllOk(nics: Table, text: string, nicKeys: seq<string>)
    ensures GroupAll(nics, text, nicKeys).Ok? ==> GroupedOk(nics, text, GroupAll(nics, text, nicKeys).value)
    decreases |nicKeys|
  {
    if |nicKeys| > 0 {
      GroupAllOk(nics, text, nicKeys[..|nicKeys| - 1]);
      var before := GroupAll(nics, text, nicKeys[..|nicKeys| - 1]);
      if before.Ok? {
        GroupNicOk(nics, text, before.value, nicKeys[|nicKeys| - 1]);
      }
    }
  }

  // ---------------------------------------------------------------------
  // An exception ends the loops: the error of a prefix is the error of the whole

  lemma {:induction false} AddPortsErrorStops(nics: Table, inv: Inventory, key: string, ports: seq<string>, m: nat)
    requires m <= |ports| && AddPorts(nics, inv, key, ports[..m]).Err?
    ensures AddPorts(nics, inv, key, ports) == AddPorts(nics, inv, key, ports[..m])
    decreases |ports|
  {
    if m < |ports| {
      var shorter := ports[..|ports| - 1];
      assert shorter[..m] == ports[..m];
      AddPortsErrorStops(nics, inv, key, shorter, m);
    } else {
      assert ports[..m] == ports;
    }
  }

  lemma {:induction false} GroupAllErrorStops(nics: Table, text: string, nicKeys: seq<string>, m: nat)
    requires m <= |nicKeys| && GroupAll(nics, text, nicKeys[..m]).Err?
    ensures GroupAll(nics, text, nicKeys) == GroupAll(nics, text, nicKeys[..m])
    decreases |nicKeys|
  {
    if m < |nicKeys| {
      var shorter := nicKeys[..|nicKeys| - 1];
      assert shorter[..m] == nicKeys[..m];
      GroupAllErrorStops(nics, text, shorter, m);
    } else {
      assert nicKeys[..m] == nicKeys;
    }
  }

  // ---------------------------------------------------------------------
  // When the second pass raises

  /** `x` is matched by the pattern of one of the labels `nicKeys`, and that
      pattern matched at least twice, so its matches are looked up. */
  ghost predicate Looked(text: string, nicKeys: seq<string>, x: string)
  {
    exists i | 0 <= i < |nicKeys| ::
      |FindAll(text, DropLast2(nicKeys[i]))| > 1 && x in FindAll(text, DropLast2(nicKeys[i]))
  }

  /** `x` cannot be made into an entry: it is not a recorded label, or has
      fewer than five fields. */
  predicate Unusable(nics: Table, x: string)
  {
    x !in nics.values || |Split(x, '_')| < 5
  }

  /** The error names a label that was looked up and is unusable, and says
      which of the two ways. */
  ghost predicate ErrorCause(nics: Table, text: string, nicKeys: seq<string>, e: ParseError)
  {
    match e
    case MissingKey(x) => x !in nics.values && Looked(text, nicKeys, x)
    case MissingField(x) => x in nics.values && |Split(x, '_')| < 5 && Looked(text, nicKeys, x)
  }

  lemma {:induction false} AddPortsErrorCause(nics: Table, inv: Inventory, key: string, ports: seq<string>)
    ensures AddPorts(nics, inv, key, ports).Err? ==>
      match AddPorts(nics, inv, key, ports).error
      case MissingKey(x) => x !in nics.values && x in ports
      case MissingField(x) => x in nics.values && |Split(x, '_')| < 5 && x in ports
    decreases |ports|
  {
    if |ports| > 0 {
      var prev := ports[..|ports| - 1];
      AddPortsErrorCause(nics, inv, key, prev);
      assert forall x | x in prev :: x in ports;
      var before := AddPorts(nics, inv, key, prev);
      if before.Ok? {
        var x := ports[|ports| - 1];
        if x in nics.values {
          MakePortFields(x, nics.values[x], before.value.1);
        }
      }
    }
  }

  /** The keys of the inventory only grow during the inner loop. */
  lemma {:induction false} AddPortsKeepsKeys(nics: Table, inv: Inventory, key: string, ports: seq<string>)
    ensures AddPorts(nics, inv, key, ports).Ok? ==>
      forall k | k in inv.groups :: k in AddPorts(nics, inv, key, ports).value.0.groups
    decreases |ports|
  {
    if |ports| > 0 {
      AddPortsKeepsKeys(nics, inv, key, ports[..|ports| - 1]);
    }
  }

  /** After the outer loop has seen label `nic` whose pattern matched at
      least twice, the group of its prefix exists; no group disappears. */
  lemma GroupNicKeys(nics: Table, text: string, inv: Inventory, nic: string)
    requires GroupedOk(nics, text, inv)
    ensures GroupNic(nics, text, inv, nic).Ok? ==>
      (forall k | k in inv.groups :: k in GroupNic(nics, text, inv, nic).value.groups) &&
      (|FindAll(text, DropLast2(nic))| > 1 ==> Str(DropLast2(nic)) in GroupNic(nics, text, inv, nic).value.groups)
  {
    var key := DropLast2(nic);
    var ports := FindAll(text, key);
    if |ports| > 1 {
      var sorted := Sort(ports);
      AddPortsKeepsKeys(nics, inv, key, sorted);
      if Str(key) !in inv.groups {
        assert forall x | x in sorted :: x in ports by {
          forall x | x in sorted ensures x in ports {
            assert x in multiset(sorted);
          }
        }
        AddPortsFresh(nics, text, inv, key, sorted, |sorted|);
        assert sorted[..|sorted|] == sorted;
      }
    }
  }

  /** After a successful outer loop every label that was looked up has its
      prefix's group. */
  lemma {:induction false} GroupAllKeys(nics: Table, text: string, nicKeys: seq<string>)
    ensures GroupAll(nics, text, nicKeys).Ok? ==>
      forall i | 0 <= i < |nicKeys| && |FindAll(text, DropLast2(nicKeys[i]))| > 1 ::
        Str(DropLast2(nicKeys[i])) in GroupAll(nics, text, nicKeys).value.groups
    decreases |nicKeys|
  {
    if |nicKeys| > 0 {
      var prev := nicKeys[..|nicKeys| - 1];
      GroupAllKeys(nics, text, prev);
      GroupAllOk(nics, text, prev);
      var before := GroupAll(nics, text, prev);
      if before.Ok? {
        GroupNicKeys(nics, text, before.value, nicKeys[|nicKeys| - 1]);
        forall i | 0 <= i < |nicKeys| - 1 ensures nicKeys[i] == prev[i] {
        }
      }
    }
  }

  /** The second pass raises exactly when a label it looks up is unusable,
      and the exception names such a label. */
  lemma {:induction false} GroupAllFails(nics: Table, text: string, nicKeys: seq<string>)
    ensures GroupAll(nics, text, nicKeys).Err? <==> exists x :: Looked(text, nicKeys, x) && Unusable(nics, x)
    ensures GroupAll(nics, text, nicKeys).Err? ==> ErrorCause(nics, text, nicKeys, GroupAll(nics, text, nicKeys).error)
    decreases |nicKeys|
  {
    var r := GroupAll(nics, text, nicKeys);
    if r.Ok? {
      GroupAllKeys(nics, text, nicKeys);
      GroupAllOk(nics, text, nicKeys);
      forall x | Looked(text, nicKeys, x) ensures !Unusable(nics, x) {
        var i :| 0 <= i < |nicKeys| && |FindAll(text, DropLast2(nicKeys[i]))| > 1 && x in FindAll(text, DropLast2(nicKeys[i]));
        var key := DropLast2(nicKeys[i]);
        var g := r.value.groups[Str(key)];
        assert GroupOk(nics, text, key, g);
        var j :| 0 <= j < |g| && g[j].adapter == x;
        assert MemberOk(nics, key, g[j], j);
        MakePortFields(x, nics.values[x], j);
      }
    } else {
      GroupAllCause(nics, text, nicKeys);
      match r.error
      case MissingKey(x) => assert Looked(text, nicKeys, x) && Unusable(nics, x);
      case MissingField(x) => assert Looked(text, nicKeys, x) && Unusable(nics, x);
    }
  }

  lemma {:induction false} GroupAllCause(nics: Table, text: string, nicKeys: seq<string>)
    ensures GroupAll(nics, text, nicKeys).Err? ==> ErrorCause(nics, text, nicKeys, GroupAll(nics, text, nicKeys).error)
    decreases |nicKeys|
  {
    if |nicKeys| > 0 {
      var prev := nicKeys[..|nicKeys| - 1];
      var nic := nicKeys[|nicKeys| - 1];
      GroupAllCause(nics, text, prev);
      var before := GroupAll(nics, text, prev);
      forall x | Looked(text, prev, x) ensures Looked(text, nicKeys, x) {
        var i :| 0 <= i < |prev| && |FindAll(text, DropLast2(prev[i]))| > 1 && x in FindAll(text, DropLast2(prev[i]));
        assert prev[i] == nicKeys[i];
      }
      if before.Ok? {
        var key := DropLast2(nic);
        var ports := FindAll(text, key);
        if |ports| > 1 {
          var sorted := Sort(ports);
          AddPortsErrorCause(nics, before.value, key, sorted);
          forall x | x in sorted ensures Looked(text, nicKeys, x) {
            assert x in multiset(sorted);
            assert nicKeys[|nicKeys| - 1] == nic;
          }
        }
      }
    }
  }

  // ---------------------------------------------------------------------
  // The loops themselves

  /** A claimed port leaves the state of the inner loop as it is. */
  lemma AddPortsSkips(nics: Table, start: Inventory, key: string, sorted: seq<string>, j: nat, inv: Inventory, p: nat)
    requires j < |sorted| && AddPorts(nics, start, key, sorted[..j]) == Ok((inv, p))
    requires Claimed(inv.groups, sorted[j])
    ensures AddPorts(nics, start, key, sorted[..j + 1]) == Ok((inv, p))
  {
    assert sorted[..j + 1][..j] == sorted[..j];
  }

  /** An unclaimed port whose entry can be made is appended as port p. */
  lemma AddPortsAppends(nics: Table, start: Inventory, key: string, sorted: seq<string>, j: nat, inv: Inventory, p: nat)
    requires j < |sorted| && AddPorts(nics, start, key, sorted[..j]) == Ok((inv, p))
    requires !Claimed(inv.groups, sorted[j]) && sorted[j] in nics.values
    requires MakePort(sorted[j], nics.values[sorted[j]], p).Ok?
    ensures AddPorts(nics, start, key, sorted[..j + 1]) ==
      Ok((AppendPort(inv, key, MakePort(sorted[j], nics.values[sorted[j]], p).value), p + 1))
  {
    assert sorted[..j + 1][..j] == sorted[..j];
  }

  /** An unclaimed port that is not a recorded label, or whose entry cannot
      be made, ends the inner loop with that error. */
  lemma AddPortsFails(nics: Table, start: Inventory, key: string, sorted: seq<string>, j: nat, inv: Inventory, p: nat, e: ParseError)
    requires j < |sorted| && AddPorts(nics, start, key, sorted[..j]) == Ok((inv, p))
    requires !Claimed(inv.groups, sorted[j])
    requires if sorted[j] in nics.values then MakePort(sorted[j], nics.values[sorted[j]], p) == Err(e) else e == MissingKey(sorted[j])
    ensures AddPorts(nics, start, key, sorted) == Err(e)
  {
    assert sorted[..j + 1][..j] == sorted[..j];
    AddPortsErrorStops(nics, start, key, sorted, j + 1);
  }

  /** The inner loop of the second pass over the sorted matches `sorted`
      of group `key`, stopping at the first exception. */
  method AddSortedPorts(nics: Table, sortedNics: Inventory, key: string, sorted: seq<string>)
    returns (r: Result<(Inventory, nat)>)
    ensures r == AddPorts(nics, sortedNics, key, sorted)
  {
    var inv := sortedNics;
    var p := 0;
    var j := 0;
    while j < |sorted|
      invariant 0 <= j <= |sorted|
      invariant AddPorts(nics, sortedNics, key, sorted[..j]) == Ok((inv, p))
    {
      var port := sorted[j];
      if Claimed(inv.groups, port) {
        AddPortsSkips(nics, sortedNics, key, sorted, j, inv, p);
      } else {
        if port !in nics.values {
          AddPortsFails(nics, sortedNics, key, sorted, j, inv, p, MissingKey(port));
          return Err(MissingKey(port));
        }
        var entry := MakePort(port, nics.values[port], p);
        if entry.Err? {
          AddPortsFails(nics, sortedNics, key, sorted, j, inv, p, entry.error);
          return Err(entry.error);
        }
        AddPortsAppends(nics, sortedNics, key, sorted, j, inv, p);
        inv := AppendPort(inv, key, entry.value);
        p := p + 1;
      }
      j := j + 1;
    }
    assert sorted[..j] == sorted;
    r := Ok((inv, p));
  }

  /** The second loop of `nodedev_parse`, stopping at the first exception. */
  method GroupPorts(nics: Table) returns (r: Result<Inventory>)
    ensures r == GroupAll(nics, LabelText(nics), nics.keys)
  {
    var text := LabelText(nics);
    var sortedNics := EMPTY;
    var i := 0;
    while i < |nics.keys|
      invariant 0 <= i <= |nics.keys|
      invariant GroupAll(nics, text, nics.keys[..i]) == Ok(sortedNics)
    {
      var nic := nics.keys[i];
      assert nics.keys[..i + 1][..i] == nics.keys[..i];
      var key := DropLast2(nic);
      var ports := FindAll(text, key);
      if |ports| > 1 {
        var added := AddSortedPorts(nics, sortedNics, key, Sort(ports));
        if added.Err? {
          GroupAllErrorStops(nics, text, nics.keys, i + 1);
          return Err(added.error);
        }
        sortedNics := added.value.0;
      }
      i := i + 1;
    }
    assert nics.keys[..i] == nics.keys;
    r := Ok(sortedNics);
  }
}
