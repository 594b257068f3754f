/**
  `extra_strip`: cleaning a line of command output by deleting a fixed,
  ordered list of substrings (tree-drawing characters, spaces, quotes and
  the escaped line ends of a bytes repr), then any extra ones the caller
  names.
 */
module Strip {
  import opened Strings

  /** The substrings always deleted, in the order they are deleted. The
      escaped line ends are two characters each: a backslash and a letter. */
  const STRIP_PATTERNS: seq<string> := ["+", "-", "|", " ", "b'", "\\r", "\\n", "'", " : "]

  /** The characters that never survive `extra_strip`. */
  const STRIPPED_CHARS: set<char> := {'+', '-', '|', ' ', '\''}

  /** `s` after deleting each pattern of `patterns` in turn, the first one first. */
  function StripAll(s: string, patterns: seq<string>): string
    decreases |patterns|
  {
    if |patterns| == 0 then s
    else RemoveAll(StripAll(s, patterns[..|patterns| - 1]), patterns[|patterns| - 1])
  }

  /** Stripping only ever deletes characters. */
  lemma {:induction false} StripAllSubsequence(s: string, patterns: seq<string>)
    ensures IsSubsequence(StripAll(s, patterns), s)
    decreases |patterns|
  {
    if |patterns| == 0 {
      SubsequenceReflexive(s);
    } else {
      var before := StripAll(s, patterns[..|patterns| - 1]);
      StripAllSubsequence(s, patterns[..|patterns| - 1]);
      RemoveAllSubsequence(before, patterns[|patterns| - 1]);
      SubsequenceTransitive(RemoveAll(before, patterns[|patterns| - 1]), before, s);
    }
  }

  /** The line cleaner: the patterns of STRIP_PATTERNS and then those of
      `extra` are deleted one after the other. An empty `extra` stands for
      the default argument. */
  method ExtraStrip(theString: string, extra: seq<string>) returns (r: string)
    ensures r == StripAll(theString, STRIP_PATTERNS + extra)
    ensures |r| <= |theString|
    ensures forall c | c in STRIPPED_CHARS :: c !in r
  {
    var replaceChars := STRIP_PATTERNS;
    if |extra| > 0 {
      replaceChars := replaceChars + extra;
    }
    assert replaceChars == STRIP_PATTERNS + extra;
    r := theString;
    var i := 0;
    while i < |replaceChars|
      invariant 0 <= i <= |replaceChars|
      invariant r == StripAll(theString, replaceChars[..i])
    {
      assert replaceChars[..i + 1][..i] == replaceChars[..i];
      r := RemoveAll(r, replaceChars[i]);
      i := i + 1;
    }
    assert replaceChars[..i] == replaceChars;
    StripRemovesChars(theString, extra);
    SubsequenceShrinks(r, theString);
  }

  /** Once a one-character pattern has been deleted, no later deletion
      brings that character back. */
  lemma {:induction false} StripAllCharGone(s: string, patterns: seq<string>, k: nat, c: char)
    requires k < |patterns| && patterns[k] == [c]
    ensures c !in StripAll(s, patterns)
    decreases |patterns|
  {
    var last := |patterns| - 1;
    var before := StripAll(s, patterns[..last]);
    if k == last {
      RemoveAllChar(before, c);
    } else {
      StripAllCharGone(s, patterns[..last], k, c);
      RemoveAllSubsequence(before, patterns[last]);
      SubsequenceShrinks(RemoveAll(before, patterns[last]), before);
    }
  }

  /** The cleaned string is the input with characters deleted, and holds no
      '+', '-', '|', space or quote, whatever `extra` asks for. */
  lemma StripRemovesChars(s: string, extra: seq<string>)
    ensures IsSubsequence(StripAll(s, STRIP_PATTERNS + extra), s)
    ensures forall c | c in STRIPPED_CHARS :: c !in StripAll(s, STRIP_PATTERNS + extra)
  {
    var patterns := STRIP_PATTERNS + extra;
    StripAllSubsequence(s, patterns);
    StripAllCharGone(s, patterns, 0, '+');
    StripAllCharGone(s, patterns, 1, '-');
    StripAllCharGone(s, patterns, 2, '|');
    StripAllCharGone(s, patterns, 3, ' ');
    StripAllCharGone(s, patterns, 7, '\'');
  }

  /** A string in which none of the patterns occurs is returned unchanged. */
  lemma {:induction false} StripAllUnchanged(s: string, patterns: seq<string>)
    requires forall i | 0 <= i < |patterns| :: !Contains(s, patterns[i])
    ensures StripAll(s, patterns) == s
    decreases |patterns|
  {
    if |patterns| > 0 {
      StripAllUnchanged(s, patterns[..|patterns| - 1]);
      RemoveAllAbsent(s, patterns[|patterns| - 1]);
    }
  }
}
