/**
  The deployment loop of `main`: one clone of the master domain per port
  found. Clone number `bump` (from 1) is named after the master with its
  last two characters replaced by `bump` in two digits, gets the master's
  description rewritten for that name, a copy of the master's disk image,
  and the `bump`-th interface description in sorted order. When there are
  fewer interface descriptions than ports, the clone that finds none is
  still created, and the loop then stops with an IndexError. A clone whose
  name is the master's own is never created: copying the master's image
  onto itself raises before the clone is started, and the loop stops there.
 */
module Clone {
  import opened Strings
  import Ordering
  import NodedevGroup
  import DomainXml
  import NodedevRenumber

  const IMAGE_DIR := "/srv/virtual_machines/"
  const NIC_DIR := "/srv/virtual_machines/nics/"

  datatype Option<T> = None | Some(value: T)

  /** `domain[0:-2] + '%02d' % bump`: the master's name without its last two
      characters, then `bump` written in at least two digits. The suffix
      reads back as `bump`, and for `bump` below 100 the clone's name is as
      long as the master's (when that has two characters to drop). */
  function CloneName(domain: string, bump: nat): (r: string)
    ensures |DropLast2(domain)| <= |r| && r[..|DropLast2(domain)|] == DropLast2(domain)
    ensures forall i | |DropLast2(domain)| <= i < |r| :: IsDigit(r[i])
    ensures ParseDec(r[|DropLast2(domain)|..]) == bump
    ensures |domain| >= 2 && bump < 100 ==> |r| == |domain|
  {
    var r := DropLast2(domain) + Pad2(bump);
    assert r[|DropLast2(domain)|..] == Pad2(bump);
    r
  }

  /** Different numbers give different clone names. */
  lemma CloneNameInjective(domain: string, a: nat, b: nat)
    requires a != b
    ensures CloneName(domain, a) != CloneName(domain, b)
  {
    var p := |DropLast2(domain)|;
    assert ParseDec(CloneName(domain, a)[p..]) != ParseDec(CloneName(domain, b)[p..]);
  }

  /** A clone's name carries no markup when the master's name carries none:
      the suffix is digits. */
  lemma CloneNamePlain(domain: string, bump: nat)
    requires DomainXml.Plain(domain)
    ensures DomainXml.Plain(CloneName(domain, bump))
  {
    var r := CloneName(domain, bump);
    var p := |DropLast2(domain)|;
    forall i | 0 <= i < |r| ensures r[i] != '<' && r[i] != '\n' {
      if i < p {
        assert r[i] == DropLast2(domain)[i] == domain[i];
      } else {
        assert IsDigit(r[i]);
      }
    }
  }

  /** `sum(len(nics[nic]) for nic in nics)`, keys taken in dictionary order. */
  function SumSizes(order: seq<NodedevGroup.Key>, groups: map<NodedevGroup.Key, seq<NodedevGroup.Port>>): (r: nat)
    requires forall k | k in order :: k in groups
    decreases |order|
  {
    if |order| == 0 then 0
    else SumSizes(order[..|order| - 1], groups) + |groups[order[|order| - 1]]|
  }

  /** Clone `bump` gets the master's own name exactly when the master's name
      ends in two digits spelling `bump`. */
  lemma SelfName(domain: string, bump: nat)
    ensures CloneName(domain, bump) == domain <==>
      |domain| >= 2 && domain[|domain| - 2..] == Pad2(bump)
  {
    var d := DropLast2(domain);
    if |domain| >= 2 {
      assert domain == d + domain[|domain| - 2..];
    }
  }

  /** The bump whose clone would carry the master's own name: the number the
      master's last two characters spell when they are digits, otherwise 0,
      which no bump is. */
  function SelfBump(domain: string): nat
  {
    if |domain| >= 2 && IsDigit(domain[|domain| - 2]) && IsDigit(domain[|domain| - 1])
    then ParseDec(domain[|domain| - 2..]) else 0
  }

  /** Clone `bump` gets the master's own name exactly for the bump `SelfBump`. */
  lemma SelfBumpName(domain: string, bump: nat)
    requires bump >= 1
    ensures CloneName(domain, bump) == domain <==> bump == SelfBump(domain)
  {
    SelfName(domain, bump);
    if |domain| >= 2 {
      var t := domain[|domain| - 2..];
      if IsDigit(domain[|domain| - 2]) && IsDigit(domain[|domain| - 1]) {
        Pad2TwoDigits(t);
      }
    }
  }

  function TotalPorts(nics: NodedevGroup.Inventory): nat
    requires forall k | k in nics.order :: k in nics.groups
  {
    SumSizes(nics.order, nics.groups)
  }

  /** What one turn of the loop leaves behind: the clone's name, where its
      description was written and what it holds, the copied disk image, and
      the interface description attached to it, if there was one. */
  datatype Clone = Clone(name: string, xmlPath: string, xml: seq<string>, image: string, nicFile: Option<string>)

  /** The fresh UUIDs and random MAC octets for each clone's description. */
  ghost predicate Supplies(master: seq<string>, uuids: seq<seq<string>>, macs: seq<seq<DomainXml.MacDraw>>, total: nat)
  {
    |uuids| >= total && |macs| >= total &&
    forall b | 0 <= b < total :: DomainXml.Draws(master, uuids[b], macs[b])
  }

  /** Clone number `bump`, `nicsXml` being the sorted interface files. */
  function CloneOf(domain: string, master: seq<string>, nicsXml: seq<string>,
                   uuids: seq<seq<string>>, macs: seq<seq<DomainXml.MacDraw>>, bump: nat): Clone
    requires 1 <= bump <= |uuids| && bump <= |macs| && DomainXml.Draws(master, uuids[bump - 1], macs[bump - 1])
  {
    var name := CloneName(domain, bump);
    Clone(name, DomainXml.XmlPath(name), DomainXml.Rewrite(master, name, uuids[bump - 1], macs[bump - 1]),
          IMAGE_DIR + name + ".qcow2",
          if bump - 1 < |nicsXml| then Some(NIC_DIR + nicsXml[bump - 1]) else None)
  }

  /** How many clones get created: one per port, or one more than there
      are interface files when those run out, but none from the clone that
      would carry the master's own name on. */
  function Launched(domain: string, total: nat, files: nat): (n: nat)
    ensures n <= total
  {
    var t := if total <= files then total else files + 1;
    var b := SelfBump(domain);
    if 1 <= b <= t then b - 1 else t
  }

  /** Where the loop stops, seen from clone `bump`: at the clone carrying
      the master's name (not made), after the first clone without an
      interface file, or after the last port. */
  lemma LaunchedAt(domain: string, total: nat, files: nat, bump: nat)
    requires 1 <= bump && bump - 1 <= files && (SelfBump(domain) == 0 || SelfBump(domain) >= bump)
    ensures bump <= total && SelfBump(domain) == bump ==> Launched(domain, total, files) == bump - 1
    ensures bump <= total && bump - 1 == files && SelfBump(domain) != bump ==> Launched(domain, total, files) == bump
    ensures bump == total + 1 ==> Launched(domain, total, files) == total
  {
  }

  /** A master named like a clone, `web01`, is clone 1's name, so the loop
      stops before creating any clone. */
  lemma SelfNamedMaster(total: nat, files: nat)
    ensures SelfBump("web01") == 1 && CloneName("web01", 1) == "web01"
    ensures Launched("web01", total, files) == 0
  {
    assert "web01"[3..] == "01" && "01"[..1] == "0" && "0"[..0] == "";
    SelfBumpName("web01", 1);
  }

  /** The first `n` clones, `nicsXml` being the sorted interface files. */
  function Clones(domain: string, master: seq<string>, nicsXml: seq<string>,
                  uuids: seq<seq<string>>, macs: seq<seq<DomainXml.MacDraw>>, n: nat): (r: seq<Clone>)
    requires Supplies(master, uuids, macs, n)
    ensures |r| == n
  {
    if n == 0 then []
    else Clones(domain, master, nicsXml, uuids, macs, n - 1) + [CloneOf(domain, master, nicsXml, uuids, macs, n)]
  }

  /** Clone `i + 1` is the `i`-th of the clones. */
  lemma {:induction false} CloneAt(domain: string, master: seq<string>, nicsXml: seq<string>,
                                   uuids: seq<seq<string>>, macs: seq<seq<DomainXml.MacDraw>>, n: nat, i: nat)
    requires Supplies(master, uuids, macs, n) && i < n
    ensures DomainXml.Draws(master, uuids[i], macs[i])
    ensures Clones(domain, master, nicsXml, uuids, macs, n)[i] == CloneOf(domain, master, nicsXml, uuids, macs, i + 1)
    decreases n
  {
    if i < n - 1 {
      CloneAt(domain, master, nicsXml, uuids, macs, n - 1, i);
    }
  }

  /** The master description read as a list of lines, fresh for each clone. */
  method ReadLines(master: seq<string>) returns (config: array<string>)
    ensures fresh(config) && config[..] == master
  {
    config := new string[|master|](i requires 0 <= i < |master| => master[i]);
  }

  /** One turn of the loop: the description is rewritten from a fresh
      copy of the master's lines, the disk image copied, and the interface
      file picked, if there is one left. When the clone's image path is the
      master's own, the copy raises and no clone is made (`None`). */
  method DeployOne(domain: string, master: seq<string>, nicsXml: seq<string>,
                   uuids: seq<seq<string>>, macs: seq<seq<DomainXml.MacDraw>>, bump: nat)
    returns (clone: Option<Clone>)
    requires 1 <= bump <= |uuids| && bump <= |macs| && DomainXml.Draws(master, uuids[bump - 1], macs[bump - 1])
    ensures clone.None? <==> CloneName(domain, bump) == domain
    ensures clone.Some? ==> clone.value == CloneOf(domain, master, nicsXml, uuids, macs, bump)
  {
    var newDomainName := CloneName(domain, bump);
    var config := ReadLines(master);
    var newXml := DomainXml.XmlParse(config, newDomainName, uuids[bump - 1], macs[bump - 1]);
    var image := IMAGE_DIR + newDomainName + ".qcow2";
    if image == IMAGE_DIR + domain + ".qcow2" {
      assert newDomainName == (IMAGE_DIR + newDomainName + ".qcow2")[|IMAGE_DIR|..|IMAGE_DIR| + |newDomainName|];
      return None;
    }
    var nicFile := None;
    if bump - 1 < |nicsXml| {
      nicFile := Some(NIC_DIR + nicsXml[bump - 1]);
    }
    clone := Some(Clone(newDomainName, newXml, config[..], image, nicFile));
  }

  /** The loop of `main` over `bump`: the listed interface files are sorted,
      and every clone is created in turn until the ports are used up or the
      files run out, or stops at the clone that would carry the master's own
      name. Process calls and file copies are recorded, not run. */
  method DeployClones(domain: string, master: seq<string>, nics: NodedevGroup.Inventory, files: seq<string>,
                      uuids: seq<seq<string>>, macs: seq<seq<DomainXml.MacDraw>>)
    returns (clones: seq<Clone>)
    requires forall k | k in nics.order :: k in nics.groups
    requires Supplies(master, uuids, macs, TotalPorts(nics))
    ensures clones == Clones(domain, master, Ordering.Sort(files), uuids, macs, Launched(domain, TotalPorts(nics), |files|))
  {
    var nicsXml := Ordering.Sort(files);
    var total := TotalPorts(nics);
    assert |nicsXml| == |files|;
    clones := [];
    var bump := 1;
    while bump <= total
      invariant 1 <= bump <= total + 1 && bump - 1 <= |nicsXml|
      invariant clones == Clones(domain, master, nicsXml, uuids, macs, bump - 1)
      invariant SelfBump(domain) == 0 || SelfBump(domain) >= bump
    {
      var clone := DeployOne(domain, master, nicsXml, uuids, macs, bump);
      SelfBumpName(domain, bump);
      LaunchedAt(domain, total, |files|, bump);
      if clone.None? {
        assert Launched(domain, total, |files|) == bump - 1;
        return;
      }
      clones := clones + [clone.value];
      assert clones == Clones(domain, master, nicsXml, uuids, macs, bump);
      if bump - 1 >= |nicsXml| {
        assert Launched(domain, total, |files|) == bump;
        return;
      }
      bump := bump + 1;
    }
    LaunchedAt(domain, total, |files|, bump);
  }

  // ---------------------------------------------------------------------
  // What the clones are

  /** No two clones share a name, a description file or a disk image. */
  lemma ClonesDistinct(domain: string, master: seq<string>, nicsXml: seq<string>,
                       uuids: seq<seq<string>>, macs: seq<seq<DomainXml.MacDraw>>, n: nat)
    requires Supplies(master, uuids, macs, n)
    ensures var c := Clones(domain, master, nicsXml, uuids, macs, n);
      forall i, j | 0 <= i < j < n :: c[i].name != c[j].name && c[i].xmlPath != c[j].xmlPath && c[i].image != c[j].image
  {
    var c := Clones(domain, master, nicsXml, uuids, macs, n);
    forall i, j | 0 <= i < j < n
      ensures c[i].name != c[j].name && c[i].xmlPath != c[j].xmlPath && c[i].image != c[j].image
    {
      CloneAt(domain, master, nicsXml, uuids, macs, n, i);
      CloneAt(domain, master, nicsXml, uuids, macs, n, j);
      CloneNameInjective(domain, i + 1, j + 1);
      var a := c[i].name;
      var b := c[j].name;
      DomainXml.XmlPathInjective(a, b);
      if |a| == |b| {
        assert c[i].image[|IMAGE_DIR|..|IMAGE_DIR| + |a|] == a;
        assert c[j].image[|IMAGE_DIR|..|IMAGE_DIR| + |b|] == b;
      }
    }
  }

  /** When the master description names the domain or its disk image, no
      two clones get the same description, whatever UUIDs and MACs are
      drawn. */
  lemma ClonesXmlDistinct(domain: string, master: seq<string>, nicsXml: seq<string>,
                          uuids: seq<seq<string>>, macs: seq<seq<DomainXml.MacDraw>>, n: nat, line: nat)
    requires Supplies(master, uuids, macs, n)
    requires line < |master| && DomainXml.Kind(master[line]) in {DomainXml.NameLine, DomainXml.DiskImageLine}
    ensures var c := Clones(domain, master, nicsXml, uuids, macs, n);
      forall i, j | 0 <= i < j < n :: c[i].xml != c[j].xml
  {
    var c := Clones(domain, master, nicsXml, uuids, macs, n);
    forall i, j | 0 <= i < j < n ensures c[i].xml != c[j].xml {
      CloneAt(domain, master, nicsXml, uuids, macs, n, i);
      CloneAt(domain, master, nicsXml, uuids, macs, n, j);
      CloneNameInjective(domain, i + 1, j + 1);
      DomainXml.DistinctNamesDistinctXml(master, c[i].name, uuids[i], macs[i], c[j].name, uuids[j], macs[j], line);
    }
  }

  /** A clone's description has the master's shape, line by line, when the
      domain name and the UUIDs carry no markup. */
  lemma CloneKeepsShape(domain: string, master: seq<string>, nicsXml: seq<string>,
                        uuids: seq<seq<string>>, macs: seq<seq<DomainXml.MacDraw>>, bump: nat)
    requires 1 <= bump <= |uuids| && bump <= |macs| && DomainXml.Draws(master, uuids[bump - 1], macs[bump - 1])
    requires DomainXml.Plain(domain) && DomainXml.PlainUuids(uuids[bump - 1])
    ensures DomainXml.SameKinds(CloneOf(domain, master, nicsXml, uuids, macs, bump).xml, master)
  {
    CloneNamePlain(domain, bump);
    DomainXml.RewriteKeepsKinds(master, CloneName(domain, bump), uuids[bump - 1], macs[bump - 1]);
  }

  /** Clone `bump` is given the `bump`-th file in sorted order. Every
      attached file is one of the listed ones, and when the listing has no
      repetitions no file is attached to two clones. */
  lemma ClonesNicFiles(domain: string, master: seq<string>, files: seq<string>,
                       uuids: seq<seq<string>>, macs: seq<seq<DomainXml.MacDraw>>, n: nat)
    requires Supplies(master, uuids, macs, n)
    ensures var c := Clones(domain, master, Ordering.Sort(files), uuids, macs, n);
      forall i | 0 <= i < n :: c[i].nicFile.Some? ==> i < |files| && c[i].nicFile.value == NIC_DIR + Ordering.Sort(files)[i]
    ensures var c := Clones(domain, master, Ordering.Sort(files), uuids, macs, n);
      forall i | 0 <= i < n && c[i].nicFile.Some? :: exists f | f in files :: c[i].nicFile.value == NIC_DIR + f
    ensures var c := Clones(domain, master, Ordering.Sort(files), uuids, macs, n);
      Distinct(files) ==>
        forall i, j | 0 <= i < j < n && c[i].nicFile.Some? && c[j].nicFile.Some? :: c[i].nicFile != c[j].nicFile
  {
    var sorted := Ordering.Sort(files);
    var c := Clones(domain, master, sorted, uuids, macs, n);
    forall i | 0 <= i < n
      ensures c[i].nicFile.Some? ==> i < |files| && c[i].nicFile.value == NIC_DIR + sorted[i]
      ensures c[i].nicFile.Some? ==> exists f | f in files :: c[i].nicFile.value == NIC_DIR + f
    {
      CloneAt(domain, master, sorted, uuids, macs, n, i);
      if i < |sorted| {
        assert sorted[i] in multiset(sorted);
        assert sorted[i] in files;
      }
    }
    if Distinct(files) {
      NodedevRenumber.SortKeepsDistinct(files);
      forall i, j | 0 <= i < j < n && c[i].nicFile.Some? && c[j].nicFile.Some?
        ensures c[i].nicFile != c[j].nicFile
      {
        assert sorted[i] != sorted[j];
        var x := c[i].nicFile.value;
        var y := c[j].nicFile.value;
        if |sorted[i]| == |sorted[j]| {
          assert x[|NIC_DIR|..] == sorted[i];
          assert y[|NIC_DIR|..] == sorted[j];
        }
      }
    }
  }

  /** The name and the interface file of the `i`-th clone. */
  lemma CloneNameAndFile(domain: string, master: seq<string>, nicsXml: seq<string>,
                         uuids: seq<seq<string>>, macs: seq<seq<DomainXml.MacDraw>>, n: nat, i: nat)
    requires Supplies(master, uuids, macs, n) && i < n
    ensures Clones(domain, master, nicsXml, uuids, macs, n)[i].name == CloneName(domain, i + 1)
    ensures Clones(domain, master, nicsXml, uuids, macs, n)[i].nicFile.None? <==> i >= |nicsXml|
  {
    CloneAt(domain, master, nicsXml, uuids, macs, n, i);
  }

  /** How the loop ends. No clone created carries the master's own name.
      The clones left without an interface file are exactly those past the
      number of files. The loop stops before one clone per port (and before
      the one with no file) only at the clone that would carry the master's
      own name. */
  lemma ClonesFailure(domain: string, master: seq<string>, files: seq<string>,
                      uuids: seq<seq<string>>, macs: seq<seq<DomainXml.MacDraw>>, total: nat)
    requires Supplies(master, uuids, macs, total)
    ensures var n := Launched(domain, total, |files|);
      var c := Clones(domain, master, Ordering.Sort(files), uuids, macs, n);
      forall i | 0 <= i < n :: c[i].name != domain
    ensures var n := Launched(domain, total, |files|);
      var c := Clones(domain, master, Ordering.Sort(files), uuids, macs, n);
      forall i | 0 <= i < n :: c[i].nicFile.None? <==> i >= |files|
    ensures var n := Launched(domain, total, |files|);
      n < total && n <= |files| ==> CloneName(domain, n + 1) == domain
  {
    var n := Launched(domain, total, |files|);
    var sorted := Ordering.Sort(files);
    assert |sorted| == |files|;
    var c := Clones(domain, master, sorted, uuids, macs, n);
    forall i | 0 <= i < n
      ensures c[i].name != domain
      ensures c[i].nicFile.None? <==> i >= |files|
    {
      CloneNameAndFile(domain, master, sorted, uuids, macs, n, i);
      SelfBumpName(domain, i + 1);
    }
    if n < total && n <= |files| {
      SelfBumpName(domain, n + 1);
    }
  }
}
