/**
  `xml_parse`: the master domain description is read as a list of lines and
  each line is rewritten in place for the new domain. A line naming the
  domain gets the new name, a line holding the UUID a fresh UUID, the line
  pointing at the disk image the new image path, and a line holding a MAC
  address a fresh random MAC; the first of these tests that matches
  decides, and any other line is kept. The fresh UUIDs and the random
  octets are parameters, one per line.
 */
module DomainXml {
  import opened Strings
  import Mac

  const NAME_OPEN := "<name>"
  const NAME_CLOSE := "</name>"
  const UUID_OPEN := "<uuid>"
  const UUID_CLOSE := "</uuid>"
  const DISK_OPEN := "<source file='/srv/virtual_machines/"
  /** The end of the disk pattern after its one-character wildcard: the
      pattern writes `.qcow2'/>` with an unescaped dot. */
  const DISK_CLOSE := "qcow2'/>"
  const MAC_OPEN := "<mac address="
  const MAC_CLOSE := "/>"

  /** `re.match('(.*)(open)(.*)(close)(.*)', line)`: before the first
      newline, `open` occurs and `close` occurs after it. */
  predicate Tagged(line: string, open: string, close: string)
  {
    var f := FirstLine(line);
    exists i, j | 0 <= i && i + |open| <= j <= |f| :: OccursAt(f, open, i) && OccursAt(f, close, j)
  }

  /** The disk-image test: before the first newline, DISK_OPEN occurs, and
      after it any one character followed by DISK_CLOSE (at `k`). */
  predicate DiskLine(line: string)
  {
    var f := FirstLine(line);
    exists i, k | 0 <= i && i + |DISK_OPEN| < k <= |f| :: OccursAt(f, DISK_OPEN, i) && OccursAt(f, DISK_CLOSE, k)
  }

  datatype LineKind = NameLine | UuidLine | DiskImageLine | MacLine | OtherLine

  /** Which branch of the rewrite a line takes: the first test that matches. */
  function Kind(line: string): LineKind
  {
    if Tagged(line, NAME_OPEN, NAME_CLOSE) then NameLine
    else if Tagged(line, UUID_OPEN, UUID_CLOSE) then UuidLine
    else if DiskLine(line) then DiskImageLine
    else if Tagged(line, MAC_OPEN, MAC_CLOSE) then MacLine
    else OtherLine
  }

  /** Random octets for one `random_mac()` call. */
  datatype MacDraw = MacDraw(b3: nat, b4: nat, b5: nat)

  predicate ValidDraw(d: MacDraw)
  {
    Mac.ValidRandomOctets(d.b3, d.b4, d.b5)
  }

  function NameText(name: string): string
  {
    NAME_OPEN + name + NAME_CLOSE + "\n"
  }

  function UuidText(uuid: string): string
  {
    UUID_OPEN + uuid + UUID_CLOSE + "\n"
  }

  function DiskText(name: string): string
  {
    DISK_OPEN + name + ".qcow2'/>\n"
  }

  function MacText(d: MacDraw): string
    requires ValidDraw(d)
  {
    "<mac address='" + Mac.RandomMac(d.b3, d.b4, d.b5) + "'/>\n"
  }

  /** One turn of the loop: the line that replaces `line`, `uuid` and `d`
      being what `uuid.uuid4()` and `random_mac()` would give for it. */
  function RewriteLine(line: string, name: string, uuid: string, d: MacDraw): string
    requires ValidDraw(d)
  {
    match Kind(line)
    case NameLine => NameText(name)
    case UuidLine => UuidText(uuid)
    case DiskImageLine => DiskText(name)
    case MacLine => MacText(d)
    case OtherLine => line
  }

  ghost predicate Draws(lines: seq<string>, uuids: seq<string>, macs: seq<MacDraw>)
  {
    |uuids| == |lines| && |macs| == |lines| && forall i | 0 <= i < |macs| :: ValidDraw(macs[i])
  }

  /** The whole configuration rewritten line by line: as many lines as
      before. */
  function Rewrite(lines: seq<string>, name: string, uuids: seq<string>, macs: seq<MacDraw>): (r: seq<string>)
    requires Draws(lines, uuids, macs)
    ensures |r| == |lines|
  {
    seq(|lines|, i requires 0 <= i < |lines| => RewriteLine(lines[i], name, uuids[i], macs[i]))
  }

  /** The path of the written description. */
  function XmlPath(name: string): string
  {
    "/tmp/" + name + ".xml"
  }

  /** `xml_parse`, the lines of the master description being `masterConfig`:
      every line is replaced by its rewrite, in place. Writing the file is
      not modelled; its path is returned. */
  method XmlParse(masterConfig: array<string>, newDomainName: string, uuids: seq<string>, macs: seq<MacDraw>)
    returns (path: string)
    requires Draws(masterConfig[..], uuids, macs)
    modifies masterConfig
    ensures masterConfig[..] == Rewrite(old(masterConfig[..]), newDomainName, uuids, macs)
    ensures path == XmlPath(newDomainName)
  {
    ghost var lines := masterConfig[..];
    var index := 0;
    while index < masterConfig.Length
      invariant 0 <= index <= masterConfig.Length
      invariant forall k | 0 <= k < index :: masterConfig[k] == RewriteLine(lines[k], newDomainName, uuids[k], macs[k])
      invariant forall k | index <= k < masterConfig.Length :: masterConfig[k] == lines[k]
    {
      var line := masterConfig[index];
      var newLine := line;
      if Tagged(line, NAME_OPEN, NAME_CLOSE) {
        newLine := NAME_OPEN + newDomainName + NAME_CLOSE + "\n";
      } else if Tagged(line, UUID_OPEN, UUID_CLOSE) {
        newLine := UUID_OPEN + uuids[index] + UUID_CLOSE + "\n";
      } else if DiskLine(line) {
        newLine := DISK_OPEN + newDomainName + ".qcow2'/>\n";
      } else if Tagged(line, MAC_OPEN, MAC_CLOSE) {
        var d := macs[index];
        newLine := "<mac address='" + Mac.RandomMac(d.b3, d.b4, d.b5) + "'/>\n";
      }
      assert newLine == RewriteLine(lines[index], newDomainName, uuids[index], macs[index]);
      masterConfig[index] := newLine;
      index := index + 1;
    }
    assert masterConfig[..] == Rewrite(lines, newDomainName, uuids, macs);
    path := "/tmp/" + newDomainName + ".xml";
  }

  // ---------------------------------------------------------------------
  // The rewritten lines are recognised again, each by its own test

  /** Text that can sit between two tags without looking like one: no '<'
      and no newline. Names and UUIDs are such text. */
  predicate Plain(s: string)
  {
    '<' !in s && '\n' !in s
  }

  /** Every '<' in `f` is followed by a character other than `c`. */
  predicate LtNotBefore(f: string, c: char)
  {
    forall i | 0 <= i < |f| - 1 && f[i] == '<' :: f[i + 1] != c
  }

  /** A line ending in a newline, with no other newline: the tests see all of
      it but the newline. */
  lemma {:induction false} FirstLineOfLine(body: string)
    requires forall i | 0 <= i < |body| :: body[i] != '\n'
    ensures FirstLine(body + "\n") == body
  {
    if |body| > 0 {
      assert (body + "\n")[1..] == body[1..] + "\n";
      FirstLineOfLine(body[1..]);
      assert body == [body[0]] + body[1..];
    }
  }

  /** A pattern starting with '<' and `c` never occurs where no '<' is
      followed by `c`. */
  lemma Absent(f: string, pat: string)
    requires |pat| >= 2 && pat[0] == '<' && LtNotBefore(f, pat[1])
    ensures forall i :: !OccursAt(f, pat, i)
  {
    forall i | 0 <= i && i + |pat| <= |f|
      ensures !OccursAt(f, pat, i)
    {
      var w := f[i..i + |pat|];
      assert w[0] == f[i] && w[1] == f[i + 1];
    }
  }

  /** No character of `s` is '<' or a newline. */
  predicate Bare(s: string)
  {
    forall i | 0 <= i < |s| :: s[i] != '<' && s[i] != '\n'
  }

  /** The only '<' of `f` is, at most, its first character. */
  predicate LtOnlyFirst(f: string)
  {
    forall i | 1 <= i < |f| :: f[i] != '<'
  }

  /** A one-line text whose only '<' is, at most, its first character. */
  predicate Opening(f: string)
  {
    |f| >= 1 && f[0] != '\n' && Bare(f[1..])
  }

  lemma PlainBare(s: string)
    requires Plain(s)
    ensures Bare(s)
  {
    forall i | 0 <= i < |s| ensures s[i] != '<' && s[i] != '\n' {
      assert s[i] in s;
    }
  }

  /** Bare text appended to an opening keeps it an opening. */
  lemma OpeningAppend(a: string, b: string)
    requires Opening(a) && Bare(b)
    ensures Opening(a + b)
  {
    assert (a + b)[1..] == a[1..] + b;
    forall i | 0 <= i < |a[1..] + b| ensures (a[1..] + b)[i] != '<' && (a[1..] + b)[i] != '\n' {
      if i >= |a[1..]| {
        assert (a[1..] + b)[i] == b[i - |a[1..]|];
      } else {
        assert (a[1..] + b)[i] == a[1..][i];
      }
    }
  }

  /** What the tests see of an opening ended by a newline: all of it, and
      no '<' after its first character. */
  lemma OpeningLine(f: string)
    requires Opening(f)
    ensures FirstLine(f + "\n") == f && LtOnlyFirst(f)
  {
    forall i | 1 <= i < |f| ensures f[i] != '<' && f[i] != '\n' {
      assert f[i] == f[1..][i - 1];
    }
    FirstLineOfLine(f);
  }

  /** A text whose only '<' is its first character, followed by something
      other than `c`. */
  lemma OpensWith(f: string, c: char)
    requires |f| >= 2 && f[1] != c && LtOnlyFirst(f)
    ensures LtNotBefore(f, c)
  {
  }

  lemma NameKind(name: string)
    requires Plain(name)
    ensures Kind(NameText(name)) == NameLine
  {
    var f := NAME_OPEN + name + NAME_CLOSE;
    assert NameText(name) == f + "\n";
    PlainBare(name);
    FirstLineOfLine(f);
    assert f[..|NAME_OPEN|] == NAME_OPEN;
    assert f[|NAME_OPEN| + |name|..] == NAME_CLOSE;
    assert OccursAt(f, NAME_OPEN, 0) && OccursAt(f, NAME_CLOSE, |NAME_OPEN| + |name|);
  }

  /** The UUID line, seen by the tests: no '<' in it is followed by 'n'. */
  lemma UuidTextShape(uuid: string)
    requires Plain(uuid)
    ensures FirstLine(UuidText(uuid)) == UUID_OPEN + uuid + UUID_CLOSE
    ensures LtNotBefore(UUID_OPEN + uuid + UUID_CLOSE, 'n')
  {
    var f := UUID_OPEN + uuid + UUID_CLOSE;
    var head := UUID_OPEN + uuid;
    assert UuidText(uuid) == f + "\n" && f == head + UUID_CLOSE;
    PlainBare(uuid);
    assert Opening(UUID_OPEN) by {
      assert UUID_OPEN[1..] == "uuid>";
    }
    OpeningAppend(UUID_OPEN, uuid);
    OpeningLine(head);
    FirstLineOfLine(f);
    forall i | 0 <= i < |f| - 1 && f[i] == '<' ensures f[i + 1] != 'n' {
      if i < |head| {
        assert f[i] == head[i];
      } else {
        assert f[i] == UUID_CLOSE[i - |head|];
        assert f[i + 1] == UUID_CLOSE[i + 1 - |head|];
      }
    }
  }

  lemma UuidKind(uuid: string)
    requires Plain(uuid)
    ensures Kind(UuidText(uuid)) == UuidLine
  {
    UuidTextShape(uuid);
    var f := UUID_OPEN + uuid + UUID_CLOSE;
    Absent(f, NAME_OPEN);
    assert f[..|UUID_OPEN|] == UUID_OPEN;
    assert f[|UUID_OPEN| + |uuid|..] == UUID_CLOSE;
    assert OccursAt(f, UUID_OPEN, 0) && OccursAt(f, UUID_CLOSE, |UUID_OPEN| + |uuid|);
  }

  lemma DiskOpenShape()
    ensures Opening(DISK_OPEN)
  {
    assert forall i | 1 <= i < |DISK_OPEN| :: DISK_OPEN[i] != '<' && DISK_OPEN[i] != '\n';
  }

  /** The disk line, seen by the tests, with its only '<' in front. */
  lemma DiskTextShape(name: string)
    requires Plain(name)
    ensures FirstLine(DiskText(name)) == DISK_OPEN + name + "." + DISK_CLOSE
    ensures LtOnlyFirst(DISK_OPEN + name + "." + DISK_CLOSE)
  {
    var f := DISK_OPEN + name + "." + DISK_CLOSE;
    var tail := "." + DISK_CLOSE;
    assert DiskText(name) == f + "\n" && f == (DISK_OPEN + name) + tail;
    PlainBare(name);
    DiskOpenShape();
    assert Bare(tail) by {
      assert tail == ".qcow2'/>";
    }
    OpeningAppend(DISK_OPEN, name);
    OpeningAppend(DISK_OPEN + name, tail);
    OpeningLine(f);
  }

  lemma DiskKind(name: string)
    requires Plain(name)
    ensures Kind(DiskText(name)) == DiskImageLine
  {
    DiskTextShape(name);
    var f := DISK_OPEN + name + "." + DISK_CLOSE;
    assert f[1] == DISK_OPEN[1] == 's';
    OpensWith(f, 'n');
    OpensWith(f, 'u');
    Absent(f, NAME_OPEN);
    Absent(f, UUID_OPEN);
    assert f[..|DISK_OPEN|] == DISK_OPEN;
    assert f[|DISK_OPEN| + |name| + 1..] == DISK_CLOSE;
    assert OccursAt(f, DISK_OPEN, 0) && OccursAt(f, DISK_CLOSE, |DISK_OPEN| + |name| + 1);
  }

  /** The MAC line, seen by the tests, with its only '<' in front. */
  lemma MacTextShape(d: MacDraw)
    requires ValidDraw(d)
    ensures FirstLine(MacText(d)) == MAC_OPEN + "'" + Mac.RandomMac(d.b3, d.b4, d.b5) + "'" + MAC_CLOSE
    ensures LtOnlyFirst(MAC_OPEN + "'" + Mac.RandomMac(d.b3, d.b4, d.b5) + "'" + MAC_CLOSE)
  {
    var mac := Mac.RandomMac(d.b3, d.b4, d.b5);
    assert Bare(mac) by {
      forall i | 0 <= i < |mac| ensures mac[i] != '<' && mac[i] != '\n' {
        assert if i % 3 == 2 then mac[i] == ':' else IsLowerHex(mac[i]);
      }
    }
    var a := MAC_OPEN + "'";
    var tail := "'" + MAC_CLOSE;
    var f := a + mac + tail;
    assert MacText(d) == f + "\n" && f == MAC_OPEN + "'" + mac + "'" + MAC_CLOSE;
    assert Opening(a) by {
      assert a[1..] == "mac address='";
    }
    assert Bare(tail) by {
      assert tail == "'/>";
    }
    OpeningAppend(a, mac);
    OpeningAppend(a + mac, tail);
    OpeningLine(f);
  }

  lemma MacKind(d: MacDraw)
    requires ValidDraw(d)
    ensures Kind(MacText(d)) == MacLine
  {
    MacTextShape(d);
    var f := MAC_OPEN + "'" + Mac.RandomMac(d.b3, d.b4, d.b5) + "'" + MAC_CLOSE;
    OpensWith(f, 'n');
    OpensWith(f, 'u');
    OpensWith(f, 's');
    Absent(f, NAME_OPEN);
    Absent(f, UUID_OPEN);
    Absent(f, DISK_OPEN);
    assert f[..|MAC_OPEN|] == MAC_OPEN;
    assert f[|f| - 2..] == MAC_CLOSE;
    assert OccursAt(f, MAC_OPEN, 0) && OccursAt(f, MAC_CLOSE, |f| - 2);
  }

  /** A rewritten line is taken by the same test as the line it replaced. */
  lemma RewriteLineKind(line: string, name: string, uuid: string, d: MacDraw)
    requires Plain(name) && Plain(uuid) && ValidDraw(d)
    ensures Kind(RewriteLine(line, name, uuid, d)) == Kind(line)
  {
    match Kind(line)
    case NameLine => NameKind(name);
    case UuidLine => UuidKind(uuid);
    case DiskImageLine => DiskKind(name);
    case MacLine => MacKind(d);
    case OtherLine =>
  }

  /** Every name and UUID used is plain text. */
  predicate PlainUuids(uuids: seq<string>)
  {
    forall i | 0 <= i < |uuids| :: Plain(uuids[i])
  }

  /** `x` has the shape of `lines`: as many lines, each one taken by the
      same test as the line in the same place. */
  predicate SameKinds(x: seq<string>, lines: seq<string>)
  {
    |x| == |lines| && forall i | 0 <= i < |lines| :: Kind(x[i]) == Kind(lines[i])
  }

  /** The rewritten description has the same shape as the master: line by
      line, each line is taken by the same test as before. */
  lemma RewriteKeepsKinds(lines: seq<string>, name: string, uuids: seq<string>, macs: seq<MacDraw>)
    requires Draws(lines, uuids, macs) && Plain(name) && PlainUuids(uuids)
    ensures SameKinds(Rewrite(lines, name, uuids, macs), lines)
  {
    forall i | 0 <= i < |lines|
      ensures Kind(Rewrite(lines, name, uuids, macs)[i]) == Kind(lines[i])
    {
      RewriteLineKind(lines[i], name, uuids[i], macs[i]);
    }
  }

  /** Rewriting a description already rewritten for the same domain name
      gives what rewriting the master with the new draws gives: the earlier
      UUIDs and MACs leave no trace. */
  lemma RewriteAgain(lines: seq<string>, name: string, uuids: seq<string>, macs: seq<MacDraw>,
                     uuids': seq<string>, macs': seq<MacDraw>)
    requires Draws(lines, uuids, macs) && Draws(lines, uuids', macs')
    requires Plain(name) && PlainUuids(uuids)
    ensures Draws(Rewrite(lines, name, uuids, macs), uuids', macs')
    ensures Rewrite(Rewrite(lines, name, uuids, macs), name, uuids', macs') == Rewrite(lines, name, uuids', macs')
  {
    var once := Rewrite(lines, name, uuids, macs);
    RewriteKeepsKinds(lines, name, uuids, macs);
    assert Draws(once, uuids', macs');
    var twice := Rewrite(once, name, uuids', macs');
    forall i | 0 <= i < |lines|
      ensures twice[i] == Rewrite(lines, name, uuids', macs')[i]
    {
      assert Kind(once[i]) == Kind(lines[i]);
      if Kind(lines[i]) == OtherLine {
        assert once[i] == lines[i];
      }
    }
  }

  // ---------------------------------------------------------------------
  // Different clones get different descriptions

  lemma NameTextInjective(a: string, b: string)
    ensures NameText(a) == NameText(b) ==> a == b
    ensures DiskText(a) == DiskText(b) ==> a == b
  {
    if NameText(a) == NameText(b) {
      assert |a| == |b|;
      assert a == NameText(a)[|NAME_OPEN|..|NAME_OPEN| + |a|];
      assert b == NameText(b)[|NAME_OPEN|..|NAME_OPEN| + |b|];
    }
    if DiskText(a) == DiskText(b) {
      assert |a| == |b|;
      assert a == DiskText(a)[|DISK_OPEN|..|DISK_OPEN| + |a|];
      assert b == DiskText(b)[|DISK_OPEN|..|DISK_OPEN| + |b|];
    }
  }

  /** Two domain names give two different descriptions as soon as the master
      has a line naming the domain or its disk image, whatever the draws. */
  lemma DistinctNamesDistinctXml(lines: seq<string>, a: string, ua: seq<string>, ma: seq<MacDraw>,
                                 b: string, ub: seq<string>, mb: seq<MacDraw>, i: int)
    requires Draws(lines, ua, ma) && Draws(lines, ub, mb)
    requires 0 <= i < |lines| && Kind(lines[i]) in {NameLine, DiskImageLine}
    requires a != b
    ensures Rewrite(lines, a, ua, ma) != Rewrite(lines, b, ub, mb)
  {
    NameTextInjective(a, b);
    assert Rewrite(lines, a, ua, ma)[i] != Rewrite(lines, b, ub, mb)[i];
  }

  /** Different names are written to different files. */
  lemma XmlPathInjective(a: string, b: string)
    ensures XmlPath(a) == XmlPath(b) ==> a == b
  {
    if XmlPath(a) == XmlPath(b) {
      assert a == XmlPath(a)[5..5 + |a|];
      assert b == XmlPath(b)[5..5 + |b|];
    }
  }
}
