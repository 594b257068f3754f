/**
  First pass of `nodedev_parse`: scanning the lines of the device-tree
  listing for an adapter line (one that mentions "pci") whose line two
  below names a network port carrying an underscore-separated MAC, and
  recording the cleaned adapter label with the cleaned port line.
 */
module NodedevExtract {
  import opened Strings
  import Strip

  /** A hexadecimal digit in either case, `[0-9a-fA-F]`. */
  predicate IsHexChar(c: char)
  {
    '0' <= c <= '9' || 'a' <= c <= 'f' || 'A' <= c <= 'F'
  }

  /** `([0-9a-fA-F]{2}[_]){5}([0-9a-fA-F]{2})` matches `s` at index `j`:
      six hex pairs separated by underscores, 17 characters in all. */
  predicate IsMacRunAt(s: string, j: int)
  {
    0 <= j && j + 17 <= |s| &&
    forall k | 0 <= k < 17 :: if k % 3 == 2 then s[j + k] == '_' else IsHexChar(s[j + k])
  }

  /** The adapter-line test `re.match('(.*)(pci)(.*)', line)`: "pci" occurs
      before the first newline. */
  predicate IsPciLine(line: string)
  {
    Contains(FirstLine(line), "pci")
  }

  /** The port-line test: "net" occurs, and somewhere after it a run of six
      underscore-separated hex pairs, all before the first newline. */
  predicate IsNetMacLine(line: string)
  {
    var f := FirstLine(line);
    exists i, j | 0 <= i && i + 3 <= j <= |f| :: OccursAt(f, "net", i) && IsMacRunAt(f, j)
  }

  /** `extra_strip` without extra patterns. */
  function Clean(s: string): string
  {
    Strip.StripAll(s, Strip.STRIP_PATTERNS)
  }

  /** Line `i` is an adapter line whose line `i + 2` exists and is a port
      line. A candidate in the last two lines has no line `i + 2`: the
      source's IndexError there is caught and the line skipped. */
  predicate Candidate(lines: seq<string>, i: nat)
    requires i < |lines|
  {
    IsPciLine(lines[i]) && i + 2 < |lines| && IsNetMacLine(lines[i + 2])
  }

  /** The dictionary `nics`: Python dictionaries keep their keys in
      insertion order, so the keys are a sequence beside the map. */
  datatype Table = Table(keys: seq<string>, values: map<string, string>)

  ghost predicate TableOk(t: Table)
  {
    Distinct(t.keys) && forall k :: k in t.values <==> k in t.keys
  }

  /** `t[k] = v`: a new key goes last, an existing key keeps its place. */
  function Put(t: Table, k: string, v: string): (r: Table)
    ensures r.values == t.values[k := v]
    ensures k in t.values ==> r.keys == t.keys
    ensures k !in t.values ==> r.keys == t.keys + [k]
  {
    if k in t.values then Table(t.keys, t.values[k := v])
    else Table(t.keys + [k], t.values[k := v])
  }

  /** Putting keeps the keys distinct and in step with the map. */
  lemma PutOk(t: Table, k: string, v: string)
    requires TableOk(t)
    ensures TableOk(Put(t, k, v))
  {
  }

  /** What the first loop makes of one line: whether it is a candidate, its
      cleaned text, and the cleaned text of the line two below it. */
  datatype LineInfo = LineInfo(candidate: bool, adapter: string, portLine: string)

  function EntryAt(lines: seq<string>, i: nat): LineInfo
    requires i < |lines|
  {
    LineInfo(Candidate(lines, i), Clean(lines[i]), if i + 2 < |lines| then Clean(lines[i + 2]) else "")
  }

  /** `nics` after the first `n` entries: each candidate records its
      cleaned adapter line with its cleaned port line. */
  function Record(entries: seq<LineInfo>, n: nat): Table
    requires n <= |entries|
  {
    if n == 0 then Table([], map[])
    else
      var before := Record(entries, n - 1);
      var e := entries[n - 1];
      if e.candidate then Put(before, e.adapter, e.portLine) else before
  }

  lemma {:induction false} RecordOk(entries: seq<LineInfo>, n: nat)
    requires n <= |entries|
    ensures TableOk(Record(entries, n))
  {
    if n > 0 {
      RecordOk(entries, n - 1);
      var e := entries[n - 1];
      if e.candidate {
        PutOk(Record(entries, n - 1), e.adapter, e.portLine);
      }
    }
  }

  function Entries(lines: seq<string>): (r: seq<LineInfo>)
    ensures |r| == |lines|
  {
    seq(|lines|, i requires 0 <= i < |lines| => EntryAt(lines, i))
  }

  /** `nics` after the loop has looked at the first `n` lines. */
  function Extract(lines: seq<string>, n: nat): (t: Table)
    requires n <= |lines|
    ensures TableOk(t)
  {
    RecordOk(Entries(lines), n);
    Record(Entries(lines), n)
  }

  /** Entry `i` is the last candidate among the first `n` entries with
      adapter `k`. */
  predicate LastCandidate(entries: seq<LineInfo>, n: nat, i: nat, k: string)
    requires n <= |entries|
  {
    i < n && entries[i].candidate && entries[i].adapter == k &&
    forall i' | i < i' < n :: entries[i'].candidate ==> entries[i'].adapter != k
  }

  /** The last candidate among the first `n` entries with adapter `k`, or -1
      when there is none. */
  function LastIndex(entries: seq<LineInfo>, n: nat, k: string): (i: int)
    requires n <= |entries|
    ensures -1 <= i < n
    ensures i >= 0 ==> LastCandidate(entries, n, i, k)
    ensures i < 0 ==> forall i' | 0 <= i' < n :: entries[i'].candidate ==> entries[i'].adapter != k
    decreases n
  {
    if n == 0 then -1
    else if entries[n - 1].candidate && entries[n - 1].adapter == k then n - 1
    else LastIndex(entries, n - 1, k)
  }

  /** A key is recorded exactly when some candidate has it as adapter, and
      its value is the port line of the last such candidate. */
  lemma {:induction false} RecordLast(entries: seq<LineInfo>, n: nat)
    requires n <= |entries|
    ensures forall k :: k in Record(entries, n).values <==> LastIndex(entries, n, k) >= 0
    ensures forall k | k in Record(entries, n).values ::
      Record(entries, n).values[k] == entries[LastIndex(entries, n, k)].portLine
    decreases n
  {
    if n > 0 {
      RecordLast(entries, n - 1);
    }
  }

  /** The entries of the lines say what the lines are. */
  lemma EntriesAt(lines: seq<string>)
    ensures forall i | 0 <= i < |lines| ::
      Entries(lines)[i].candidate == Candidate(lines, i) && Entries(lines)[i].adapter == Clean(lines[i]) &&
      (i + 2 < |lines| ==> Entries(lines)[i].portLine == Clean(lines[i + 2]))
  {
  }

  /** Line `i` is the last candidate line whose cleaned text is `k`. */
  predicate LastCandidateLine(lines: seq<string>, i: nat, k: string)
    requires i < |lines|
  {
    Candidate(lines, i) && Clean(lines[i]) == k &&
    forall i' | i < i' < |lines| && Candidate(lines, i') :: Clean(lines[i']) != k
  }

  /** Every candidate line is recorded, and every recorded key is the cleaned
      text of a candidate line: the last one with that text, whose cleaned
      port line two below is the value. */
  lemma ExtractRecordsCandidates(lines: seq<string>)
    ensures forall i | 0 <= i < |lines| && Candidate(lines, i) :: Clean(lines[i]) in Extract(lines, |lines|).values
    ensures forall k | k in Extract(lines, |lines|).values :: exists i | 0 <= i < |lines| ::
      LastCandidateLine(lines, i, k) && Extract(lines, |lines|).values[k] == Clean(lines[i + 2])
  {
    var entries := Entries(lines);
    RecordLast(entries, |lines|);
    EntriesAt(lines);
    forall i | 0 <= i < |lines| && Candidate(lines, i)
      ensures Clean(lines[i]) in Extract(lines, |lines|).values
    {
      assert LastIndex(entries, |lines|, Clean(lines[i])) >= 0;
    }
    forall k | k in Extract(lines, |lines|).values
      ensures exists i | 0 <= i < |lines| ::
        LastCandidateLine(lines, i, k) && Extract(lines, |lines|).values[k] == Clean(lines[i + 2])
    {
      var i := LastIndex(entries, |lines|, k);
      assert LastCandidate(entries, |lines|, i, k);
      assert LastCandidateLine(lines, i, k);
    }
  }

  /** Entry `i` of the lines, spelled out. */
  lemma EntryOfLine(lines: seq<string>, i: nat)
    requires i < |lines|
    ensures Entries(lines)[i].adapter == Clean(lines[i])
    ensures i + 2 < |lines| ==> Entries(lines)[i].portLine == Clean(lines[i + 2])
  {
    assert Entries(lines)[i] == EntryAt(lines, i);
  }

  /** The two tests of the first loop on line `i`: the adapter-line match,
      then the port-line match on line `i + 2`, which a line too near the end
      does not have. */
  method TestCandidate(lines: seq<string>, i: nat) returns (b: bool)
    requires i < |lines|
    ensures b == Entries(lines)[i].candidate
    ensures b ==> i + 2 < |lines|
  {
    assert Entries(lines)[i] == EntryAt(lines, i);
    b := IsPciLine(lines[i]) && i + 2 < |lines| && IsNetMacLine(lines[i + 2]);
  }

  /** The first loop of `nodedev_parse`: every candidate adapter line is
      recorded with its port line, both cleaned; a later duplicate label
      overwrites the earlier value. */
  method ExtractNics(output: seq<string>) returns (nics: Table)
    ensures nics == Extract(output, |output|)
    ensures TableOk(nics)
  {
    nics := Table([], map[]);
    var index := 0;
    while index < |output|
      invariant 0 <= index <= |output|
      invariant nics == Record(Entries(output), index)
    {
      var candidate := TestCandidate(output, index);
      if candidate {
        EntryOfLine(output, index);
        assert Strip.STRIP_PATTERNS + [] == Strip.STRIP_PATTERNS;
        var adapter := Strip.ExtraStrip(output[index], []);
        var portLine := Strip.ExtraStrip(output[index + 2], []);
        nics := Put(nics, adapter, portLine);
      }
      index := index + 1;
    }
    RecordOk(Entries(output), index);
  }
}
