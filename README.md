# KVM-Deployer core, modelled in Dafny

KVM-Deployer (`main.py`) prepares a KVM host for passthrough clones in four steps:

1. It lists the host's PCI network devices with `virsh nodedev-list --tree`.
2. It groups the ports of multi-port adapters and names them `nic<n>_eth<p>`.
3. It rewrites a master domain description once per clone: the name, a fresh UUID, the disk image path and a fresh MAC address.
4. For each port it creates a clone `<domain minus its last two characters><bump:02d>` and attaches to it one of the sorted interface description files.

This project models that core. The modules are:

- `Strings`: the Python string operations the program relies on:
  - `str.replace(x, '')`, `split`, `join`;
  - `re.findall` for the grouping pattern;
  - slices whose bounds may be negative;
  - `%d`, `%02d` and `%02x`.
- `Ordering`: Python's string order and `sorted()`.
- `Strip`: `extra_strip`, the line cleaner. It is a method with a loop, proved equal to a fold of deletions.
- `Mac`: `random_mac`, with its three random octets as parameters.
- `NodedevExtract`, `NodedevGroup`, `NodedevRenumber` and `Nodedev`: the three passes of `nodedev_parse`.
  - Each pass is a method with a loop, proved equal to a prefix fold.
  - The properties of the result are proved as lemmas about the fold.
  - Python dictionaries keep insertion order, so each dictionary is a key sequence next to a map.
  - The two exceptions the grouping pass does not catch are an error result:
    - a `KeyError` for a grouped label that was never recorded;
    - an `IndexError` for a label with fewer than five `_` fields.
- `DomainXml`: the rewrite loop of `xml_parse`.
  - The lines are an `array` rewritten in place.
  - The UUIDs and the random MAC octets are inputs, one per line.
  - A regular expression's `.*` stops at a newline. So a line's tests look only at the text before its first newline.
- `Clone`: the deployment loop of `main`.
  - Each clone is recorded with its name, its description path and lines, its disk image and its interface file.
  - The `IndexError` raised when the interface files run out ends the loop after that clone.
  - A clone named like the master (master `web01`, clone 1) is never created. Copying the master's image onto itself raises before `virsh create`, and the loop stops there.

Behaviour worth knowing:

- Single-port groups can remain in the result.
  - A group is only made when the grouping pattern matches at least twice.
  - A group that still ends up with one port stays in the result. It keeps its string key and the name `eth0` (`Nodedev.SinglePortGroups`).
- A bad label aborts the whole parse.
  - An unknown label or a label with too few fields aborts the whole parse (`Nodedev.NodedevFails`).
  - A candidate adapter line too close to the end of the listing is skipped silently.
- The MAC's first octet is `0x00`. So the locally-administered bit is clear.
- In the disk-image pattern `.qcow2'/>`, the `.` matches any character.
- The four rewrites are an `if/elif` chain. A line takes the first test it passes.

## Model

| member | source | states |
|---|---|---|
| Strip.ExtraStrip | main.py:13-25 | The result is the input with each fixed pattern deleted, then each extra pattern, in order. It is no longer than the input and holds none of `+ - \| space '`. |
| Strip.StripAll | main.py:23-24 | The string after deleting each pattern of the list in turn, the first pattern first. |
| Strip.StripAllSubsequence | main.py:23-24 | Deleting patterns in turn only ever removes characters: the result is a subsequence of the input. |
| Strip.StripAllCharGone | main.py:20-24 | Once a one-character pattern has been deleted, that character never reappears, whatever is deleted after it. |
| Strip.StripRemovesChars | main.py:20-25 | The cleaned line is a subsequence of the raw line and contains none of the characters the fixed list deletes. |
| Strip.StripAllUnchanged | main.py:23-24 | A string containing none of the patterns comes back unchanged. |
| Strings.RemoveAll | main.py:24 | `str.replace(pat, '')`: the occurrences of `pat` found left to right, without overlap, are deleted. An empty `pat` leaves the string unchanged. |
| Strings.RemoveAllSubsequence | main.py:24 | `str.replace(pat, '')` only deletes characters. |
| Strings.RemoveAllChar | main.py:24 | After `replace(c, '')` the character `c` no longer occurs. |
| Strings.RemoveAllAbsent | main.py:24 | `replace(pat, '')` leaves a string without `pat` unchanged. |
| Strings.FirstLine | main.py:90 | What `.*` can see of a line: the longest prefix without a newline, followed by a newline or by the end. |
| Strings.Split | main.py:106-107 | `split` on one character yields at least one part, and no part contains the separator. |
| Strings.JoinSplit | main.py:106-109 | Joining the parts of a split with the same separator gives back the original string. |
| Strings.PySlices | main.py:109-111 | With at least six fields, `[0:len-6]` and `[-6:]` cut the list in two at `len-6`, the MAC part having six fields. With fewer, `[-6:]` is the whole list, and the stop of `[0:len-6]` is counted once more from the end. |
| Strings.PyBound | main.py:109 | How Python resolves a slice bound. A negative bound counts from the end, and the result is clamped to the length. |
| Strings.PySlice | main.py:109 | `xs[start:stop]`: the elements between the two resolved bounds, or none when the stop comes first. |
| Strings.PySliceLast | main.py:109-111 | The two slices the entry uses, `[0:len-6]` and `[-6:]`, are the general Python slices with those bounds. |
| Strings.PySliceDropLast2 | main.py:98 | The group key `nic[0:-2]` is the general Python slice with bounds 0 and -2. |
| Strings.FindAll | main.py:98 | Every match of `(<key>)(_)([0-9])` is the key, an underscore and one digit, and occurs in the searched text. |
| Strings.Dec | main.py:110 | `%d` of a natural is a non-empty run of decimal digits. |
| Strings.ParseDecDec | main.py:110 | Reading back the digits written by `%d` gives the number. |
| Strings.DecInjective | main.py:132 | Different numbers are written differently by `%d`. |
| Strings.Pad2 | main.py:223 | `%02d` writes at least two digits, exactly two below 100, and they read back as the number. From 10 on it is the plain `%d` form, and it starts with `0` exactly below 10. |
| Strings.Pad2TwoDigits | main.py:223 | Any two digits are the `%02d` form of the number they spell. |
| Strings.Pad2Injective | main.py:223 | Different numbers are written differently by `%02d`. |
| Strings.Hex2 | main.py:75 | `%02x` of an octet is two lower-case hex digits whose value is the octet. |
| Ordering.LexLeTotal | main.py:100 | Python's string order compares any two strings. |
| Ordering.LexLeAntisymmetric | main.py:100 | Two strings that are each no greater than the other are equal. |
| Ordering.LexLeTransitive | main.py:100 | The string order is transitive. |
| Ordering.Sort | main.py:220 | `sorted()` returns an ascending permutation of its input. |
| Mac.RandomMac | main.py:70-75 | The result is six lower-case hex pairs separated by colons and starts with `00:16:3e:`. The fourth octet is at most 0x7f. Reading the pairs back gives `0x00, 0x16, 0x3e` and the three drawn octets. |
| Mac.ParseMac | main.py:75 | Reading a colon-separated MAC text yields six octets. |
| Mac.FormatMac | main.py:75 | Each octet written with `%02x`, the texts joined with `:`. |
| Mac.FormattedMac | main.py:75 | Formatting six octets with `%02x` and `:` gives MAC text that reads back as the same octets. |
| Mac.JoinedPairs | main.py:75 | Joining two-character parts with `:` puts part `k` at offset `3k`, with a colon after every part but the last. |
| Mac.RandomMacInjective | main.py:70-75 | Different draws give different MAC texts. |
| NodedevExtract.IsMacRunAt | main.py:90 | `([0-9a-fA-F]{2}[_]){5}([0-9a-fA-F]{2})` matches at a position: six hex pairs in either case, separated by underscores. |
| NodedevExtract.IsPciLine | main.py:90 | `re.match('(.*)(pci)(.*)', line)`: `pci` occurs before the first newline. |
| NodedevExtract.IsNetMacLine | main.py:90 | The port-line match: `net` occurs before the first newline, and a MAC run starts somewhere after it, also before the newline. |
| NodedevExtract.Candidate | main.py:90-93 | Line `i` is an adapter line and line `i+2` exists and is a port line. Without line `i+2` the `IndexError` is swallowed and the line is skipped. |
| NodedevExtract.Put | main.py:91 | `nics[k] = v` sets the value. A new key goes last and an existing key keeps its place. |
| NodedevExtract.PutOk | main.py:91 | Assigning keeps the keys distinct and in step with the dictionary. |
| NodedevExtract.RecordOk | main.py:88-93 | The dictionary built by the first loop always has distinct keys matching its entries. |
| NodedevExtract.Extract | main.py:88-93 | `nics` after any prefix of the listing is a well-formed ordered dictionary. |
| NodedevExtract.LastIndex | main.py:88-93 | The last candidate with a given adapter label among the first `n` lines, or -1 when there is none. |
| NodedevExtract.RecordLast | main.py:88-93 | A label is recorded exactly when some candidate line has it. Its value is the port line of the last such candidate, since later duplicates overwrite earlier ones. |
| NodedevExtract.ExtractRecordsCandidates | main.py:88-93 | Every candidate line's cleaned text is recorded. Every recorded key comes from the last candidate line with that text, and its value is that line's cleaned port line. |
| NodedevExtract.ExtractNics | main.py:88-93 | The first loop builds exactly the specified dictionary, which is well formed. |
| NodedevGroup.MakePort | main.py:106-125 | The entry for one port. The port line loses `net_` and is split on `_`. The last six fields joined by `:` are the MAC, and the rest joined by `_` is the current name. The name is `eth<p>`, and label fields 1-4 are the PCI coordinates. A label with fewer than five fields raises `IndexError`. |
| NodedevGroup.AddPort | main.py:102-126 | One turn of the inner loop. A port already in some group is skipped. An unrecorded port raises `KeyError`. Otherwise the entry is appended to the group of `key`, creating it if needed, and `p` counts it. |
| NodedevGroup.AddPorts | main.py:100-126 | The inner loop over the sorted matches, `p` starting at 0, stopping at the first exception. |
| NodedevGroup.GroupNic | main.py:96-126 | One turn of the outer loop. The label without its last two characters is searched as `key_d` in the space-joined labels. Only when it matched more than once are the sorted matches added. |
| NodedevGroup.GroupAll | main.py:95-126 | The outer loop over the recorded labels in insertion order, from an empty inventory, stopping at the first exception. |
| NodedevGroup.MakePortFields | main.py:106-125 | An entry fails exactly when the label has fewer than five fields. Otherwise it keeps the label, is named `eth<p>`, takes PCI domain, bus, slot and function from label fields 1-4, and splits the port line with nothing lost. With at least six fields the last six form the MAC and the rest the current name. |
| NodedevGroup.ClaimedByOwnGroup | main.py:103 | A label `key_d` is already placed exactly when group `key` holds it. |
| NodedevGroup.GroupedLabelsUnique | main.py:95-126 | After grouping, no label appears twice, whether in two groups or twice in one group. |
| NodedevGroup.FreshFirst | main.py:118-126 | The first match starts a new group that holds it as `eth0`. |
| NodedevGroup.NewGroupSkip | main.py:103-104 | A match the group already holds changes nothing. |
| NodedevGroup.NewGroupAppend | main.py:109-126 | A new match no smaller than the earlier ones goes last and keeps the group strictly ascending, complete and correctly numbered. |
| NodedevGroup.AppendAscending | main.py:100-116 | Appending a new, no-smaller label keeps the labels strictly ascending. |
| NodedevGroup.FreshNext | main.py:100-126 | Each later match is skipped if the group has it, or appended with the next port number. |
| NodedevGroup.FreshAppend | main.py:109-126 | A match not yet held goes last as port `p`, and the state stays well formed. |
| NodedevGroup.AddPortsFresh | main.py:100-126 | The inner loop over the sorted matches of a new key appends exactly one group after the existing ones. The group holds every match, once and in order, numbered from 0. |
| NodedevGroup.AddPortsKnown | main.py:100-104 | When every match is already in the key's group, the inner loop changes nothing. |
| NodedevGroup.GroupedPrefixed | main.py:98 | Every group holds only labels of the form `key_d` for its own key. |
| NodedevGroup.SortedMatches | main.py:98-100 | Sorting the matches keeps exactly the matches. |
| NodedevGroup.FreshGroupOk | main.py:99-126 | Making a new group from at least two matches keeps the inventory grouped. |
| NodedevGroup.GroupNicOk | main.py:95-126 | One turn of the outer loop keeps the inventory grouped. |
| NodedevGroup.GroupAllOk | main.py:95-126 | Every successful grouping pass yields groups that are non-empty, strictly ascending and numbered `eth0`, `eth1`, ... Each holds every label its pattern matched, decomposed from the recorded port line. |
| NodedevGroup.AddPortsErrorStops | main.py:100-126 | After an exception the rest of the inner loop does not run. |
| NodedevGroup.GroupAllErrorStops | main.py:95-126 | After an exception the rest of the outer loop does not run. |
| NodedevGroup.AddPortsErrorCause | main.py:106-125 | A failing inner loop names one of its ports. That port is either unrecorded (`KeyError`) or recorded with fewer than five fields (`IndexError`). |
| NodedevGroup.AddPortsKeepsKeys | main.py:100-126 | The inner loop never removes a group. |
| NodedevGroup.GroupNicKeys | main.py:95-126 | After a label whose pattern matched twice, its prefix's group exists, and no group has disappeared. |
| NodedevGroup.GroupAllKeys | main.py:95-126 | After a successful pass, every label whose pattern matched at least twice has its prefix's group. |
| NodedevGroup.GroupAllFails | main.py:95-126 | The pass fails exactly when some looked-up match is unrecorded or has fewer than five fields, and the error names such a match. |
| NodedevGroup.GroupAllCause | main.py:95-126 | The error of a failing pass names a looked-up, unusable match and says which exception it is. |
| NodedevGroup.AddPortsSkips | main.py:103-104 | A port already placed leaves the loop state unchanged. |
| NodedevGroup.AddPortsAppends | main.py:106-126 | An unplaced, usable port is appended as `eth<p>`, and `p` counts it. |
| NodedevGroup.AddPortsFails | main.py:106-125 | An unplaced, unusable port ends the loop with its exception. |
| NodedevGroup.AddSortedPorts | main.py:100-126 | The inner loop computes the specified state or exception. |
| NodedevGroup.GroupPorts | main.py:95-126 | The second loop computes the specified inventory or exception. |
| NodedevRenumber.Pop | main.py:130 | `sorted_nics.pop(k)`: the key and its group are removed, and the other keys keep their order. |
| NodedevRenumber.Assign | main.py:130 | `sorted_nics[k] = g`: a new key goes last, and an existing key keeps its place. |
| NodedevRenumber.RenumberStep | main.py:129-133 | One turn of the third loop. A group of more than one port moves to key `n`, its names prefixed `nic<n>_`, and `n` grows by one. Any other group stays as it is. |
| NodedevRenumber.Without | main.py:130 | After `pop(k)`, the keys are the old ones except `k`, still distinct. |
| NodedevRenumber.MoveOk | main.py:130 | Moving a group to a fresh key puts that key last, removes the old key, and keeps the inventory well formed. |
| NodedevRenumber.ReadyPrefix | main.py:128 | Every prefix of the sorted keys is a valid loop input, and the next key is not already in it. |
| NodedevRenumber.Renumber | main.py:128-133 | Keys the loop has not reached yet are still present. |
| NodedevRenumber.Multi | main.py:129 | The retained keys are exactly those whose groups have more than one port. |
| NodedevRenumber.RenumberStepKeeps | main.py:128-133 | One turn preserves the closed form of the loop state. |
| NodedevRenumber.RenumberMoves | main.py:129-133 | A group of more than one port moves to key `n` with every name prefixed `nic<n>_`, and `n` grows by one. |
| NodedevRenumber.RenumberResult | main.py:128-133 | After the loop, the groups of more than one port sit under `0, 1, ...` in sorted-key order with prefixed names. The other groups are unchanged, and nothing else is there. |
| NodedevRenumber.MultiSorted | main.py:128 | The retained keys stay strictly ascending. |
| NodedevRenumber.SortedDistinct | main.py:128 | Sorted distinct keys are strictly ascending. |
| NodedevRenumber.SortKeepsDistinct | main.py:128 | `sorted()` of distinct keys has distinct elements. |
| NodedevRenumber.NicNameInjective | main.py:132 | Different `(n, p)` give different names `nic<n>_eth<p>`. |
| NodedevRenumber.NicNameParts | main.py:132 | `nic<d>_eth<e>` with `d` all digits determines `d` and `e`. |
| NodedevRenumber.DigitsThenUnderscore | main.py:132 | A digit run followed by `_` is determined by the string. |
| NodedevRenumber.KeyNames | main.py:128 | The string keys, one for one, in order. |
| NodedevRenumber.SortedKeysReady | main.py:128 | The sorted keys are distinct, strictly ascending, all present, and cover every group. |
| NodedevRenumber.PrefixNames | main.py:131-132 | Every port of the group gets the prefix `nic<n>_`. |
| NodedevRenumber.RenumberOne | main.py:129-133 | One turn of the third loop computes the specified step. |
| NodedevRenumber.RenumberInOrder | main.py:128-133 | The third loop computes the specified fold over the sorted keys. |
| NodedevRenumber.RenumberGroups | main.py:128-133 | The third pass sorts the keys, which makes a valid loop input, and renumbers in that order. |
| Nodedev.NodedevParse | main.py:78-134 | The three loops together compute the specified result or exception. |
| Nodedev.Grouped | main.py:95-126 | The grouped inventory of a run that gets past the second pass is grouped. |
| Nodedev.Stages | main.py:78-134 | A successful run passes through the specified intermediate states: grouped, then renumbered from the retained keys. |
| Nodedev.PrefixedGroupOk | main.py:129-133 | A renumbered multi-port group keeps its key, stays strictly ascending and complete, and names port `j` `nic<m>_eth<j>`. |
| Nodedev.PrefixedPort | main.py:132 | Port `j` of group `m` is named `nic<m>_eth<j>` and keeps its decomposed fields. |
| Nodedev.NumberedGroupFrom | main.py:128-133 | The `m`-th retained key is renumbered to group `m`. |
| Nodedev.NumberedGroups | main.py:128-134 | The numbered groups are `0..N-1` without gaps, each well formed. Their original keys are strictly ascending. |
| Nodedev.NumberedGroupsFrom | main.py:128-134 | The same, stated for the intermediate stages. |
| Nodedev.SinglePortGroups | main.py:128-134 | Every group still under a string key has one port, named `eth0`. Its pattern matched at least twice, and every match was that port's label. |
| Nodedev.SinglePortGroupsFrom | main.py:128-134 | The same, stated for the intermediate stages. |
| Nodedev.PortName | main.py:110 | A grouped entry is named `eth<j>`. |
| Nodedev.SinglePortGroup | main.py:129 | A group of at most one port is a single-port group. |
| Nodedev.SourceGroup | main.py:128-133 | Every result group comes from a grouped one with the same labels in the same order. |
| Nodedev.SourceInjective | main.py:128-133 | Different result groups come from different grouped ones. |
| Nodedev.LabelsUnique | main.py:78-134 | No adapter label appears twice in the result. |
| Nodedev.LabelsUniqueFrom | main.py:128-133 | The same, stated for the intermediate stages. |
| Nodedev.NumberedNamesUnique | main.py:128-133 | All names given to renumbered ports are different. |
| Nodedev.NodedevFails | main.py:95-126 | The parse raises exactly when some looked-up label is unrecorded or has fewer than five fields. The exception names such a label. |
| DomainXml.Tagged | main.py:186 | `re.match('(.*)(open)(.*)(close)(.*)', line)`: before the first newline, `open` occurs and `close` occurs after it. |
| DomainXml.DiskLine | main.py:190 | The disk-image match. Before the first newline, the path opening occurs, then after it any one character followed by `qcow2'/>`, the unescaped `.` being that character. |
| DomainXml.Kind | main.py:186-192 | Which branch of the `if/elif` chain a line takes: name, UUID, disk image, MAC, or none. |
| DomainXml.RewriteLine | main.py:186-193 | The replacement line for each branch, each ending in a newline. A line no test takes is kept. |
| DomainXml.Rewrite | main.py:185-193 | The rewrite keeps the number of lines. |
| DomainXml.XmlParse | main.py:181-198 | The array ends up holding the rewritten master lines, and the returned path is `/tmp/<name>.xml`. |
| DomainXml.FirstLineOfLine | main.py:186-193 | A line without inner newlines that ends in one is seen whole by the tests. |
| DomainXml.Absent | main.py:186-192 | A tag opening with `<c` cannot occur in a text where no `<` is followed by `c`. |
| DomainXml.OpeningLine | main.py:187-193 | A written opening line is seen whole by the tests, and its only `<` is its first character. |
| DomainXml.NameKind | main.py:186-187 | A written name line is taken by the name test again. |
| DomainXml.UuidTextShape | main.py:188-189 | A written UUID line, as the tests see it, has no `<` followed by `n`, so the name test misses it. |
| DomainXml.UuidKind | main.py:186-189 | A written UUID line is taken by the UUID test again. |
| DomainXml.DiskTextShape | main.py:190-191 | A written disk line is seen whole and has its only `<` in front. |
| DomainXml.DiskKind | main.py:186-191 | A written disk line is taken by the disk test again. |
| DomainXml.MacTextShape | main.py:192-193 | A written MAC line is seen whole and has its only `<` in front. |
| DomainXml.MacKind | main.py:186-193 | A written MAC line is taken by the MAC test again. |
| DomainXml.RewriteLineKind | main.py:185-193 | Every line is replaced by one that the same test takes. |
| DomainXml.RewriteKeepsKinds | main.py:185-193 | The rewritten description has the master's shape, line by line. |
| DomainXml.RewriteAgain | main.py:185-193 | Rewriting an already rewritten description for the same name is the same as rewriting the master with the new draws. |
| DomainXml.NameTextInjective | main.py:187-191 | Different names give different name lines and different disk lines. |
| DomainXml.DistinctNamesDistinctXml | main.py:185-193 | When the master has a name or disk line, different names give different descriptions. |
| DomainXml.XmlPathInjective | main.py:195-198 | Different names are written to different files. |
| Clone.CloneName | main.py:223 | The clone name is the domain name without its last two characters, followed by digits that read back as `bump`. It is as long as the domain name when `bump < 100`. |
| Clone.SelfName | main.py:223-226 | Clone `bump` gets the master's own name exactly when the master's name ends in the `%02d` form of `bump`. |
| Clone.SelfBump | main.py:223-226 | The bump whose clone would carry the master's name, or 0 when there is none. |
| Clone.SelfBumpName | main.py:223-226 | Clone `bump` carries the master's name exactly when `bump` is that bump. |
| Clone.CloneNameInjective | main.py:222-223 | Different bumps give different clone names. |
| Clone.CloneNamePlain | main.py:223 | A clone name carries no `<` or newline if the domain name carries none. |
| Clone.TotalPorts | main.py:222 | `sum(len(nics[nic]) for nic in nics)`: the number of ports over all groups. |
| Clone.CloneOf | main.py:223-228 | What clone `bump` leaves behind: its name, its description path and rewritten lines, its image `<name>.qcow2`, and interface file `bump-1` if it exists. |
| Clone.Launched | main.py:222-228 | How many clones are created: one per port, or one more than the number of files when they run out. It is fewer when an earlier clone would carry the master's name, because that clone stops the loop before it is created. |
| Clone.LaunchedAt | main.py:222-228 | The loop stops before the clone named like the master, after the first clone without a file, or after the last port. |
| Clone.SelfNamedMaster | main.py:223-226 | With master `web01`, clone 1 is named `web01`, so no clone is created. |
| Clone.Clones | main.py:222-228 | `n` iterations create `n` clones. |
| Clone.CloneAt | main.py:222-228 | The `i`-th clone is the one made for bump `i+1`. |
| Clone.ReadLines | main.py:183 | Each clone starts from a fresh array holding the master's lines. |
| Clone.DeployOne | main.py:223-228 | One iteration names the clone and rewrites a fresh copy of the master. It fails exactly when the clone's image path is the master's own, since `copyfile` raises there. Otherwise it copies the image to `<name>.qcow2` and picks interface file `bump-1` if it exists. |
| Clone.DeployClones | main.py:219-228 | The loop sorts the interface files and creates one clone per port. It stops after the first clone left without a file, or before the clone that would carry the master's name. |
| Clone.ClonesDistinct | main.py:222-226 | No two clones share a name, a description path or a disk image. |
| Clone.ClonesXmlDistinct | main.py:222-225 | When the master names its domain or its disk, no two clones get the same description. |
| Clone.CloneKeepsShape | main.py:225 | Each clone's description has the master's shape, line by line. |
| Clone.ClonesNicFiles | main.py:220-228 | Clone `i` gets the `i`-th sorted file, which is one of the listed files. When no file is listed twice, no two clones get the same file. |
| Clone.ClonesFailure | main.py:222-228 | No clone created carries the master's name. The clones left without a file are exactly those past the number of files. The loop stops before one clone per port, and before the clone without a file, only at the clone named like the master. |

## Left out

- Process calls are left out. `virsh nodedev-list`, `dumpxml`, `create` and `attach-device`, `systemctl`, and the `ip` commands are not modelled. The deployment records what it would pass to them.
- File I/O is left out: reading the master, writing `/tmp/<name>.xml`, `copyfile`, and listing the interface directory. The master's lines and the file names are parameters. A copied image is recorded by its path.
- Randomness is left out. The three random octets of each `random_mac` call and each `uuid4()` are parameters, one per rewritten line. UUIDs are any text without `<` or newlines; their format is not modelled.
- `arg_parse` and `print_help` handle the command line. `nic_rename` writes udev rules and runs commands. `nic_xml_creator` writes passthrough descriptions. None of them is modelled.
- `main` turns the `bytes` output into text with `str(...).split('\\n')`. `str` writes each newline as the two characters `\n`, and the split removes every one of them. What stays in the lines is `b'` at the start of the first line, the closing `'` at the end of the last, and other escapes such as `\r` or `\t`. That conversion is not modelled: `Nodedev.NodedevParse` takes the lines as given. `extra_strip` deletes `b'`, `'` and `\r` (main.py:20), and leaves other escapes in place.
- Mac.RandomMac: does not state the locally-administered or multicast bits. The first octet is the constant `0x00`.
- Strings.FindAll: states that every match is an occurrence of `key_d`. It does not state that every non-overlapping occurrence is found. It treats the key as literal text, not as a regular expression that could hold metacharacters.
- Clone.CloneKeepsShape: states the shape clone by clone, not for the whole clone sequence at once.
- `copyfile`'s same-file test is modelled on paths: two names for one file through links are not modelled.
- Regular-expression matching is modelled only for the patterns the program uses. Any character other than a newline can match `.*`.
