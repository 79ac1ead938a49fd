# zbackup policy core, modelled in Dafny

zbackup is a property-driven ZFS backup tool. Each filesystem carries ZFS
user properties in the `com.github.tesujimath.zbackup:` namespace, and
zbackup turns them into snapshot and replication commands for one backup
tier at a time:

- `<tier>-snapshots` is the snapshot count. It is set locally on a
  filesystem that should be snapshotted, or received with replicated
  data.
- `<tier>-snapshot-limit` overrides the count.
- `replicate` and `replica` say whether and where to replicate.

This project models the part of `src/zfs_tools/zbackup.py` that makes
those decisions, and proves what it does:

- **Names** (`names.dfy`): the module prefix and its removal, and the
  per-tier property names.
- **Reader** (`reader.dfy`): the line filter of `get_backup_properties`.
  The `zfs get` output is given as lines of four tab-separated fields.
  They become, for each filesystem, an insertion-ordered dictionary from
  bare property name to `(value, source)`. The dictionary keeps only
  zbackup properties that are set locally or received, and drops the `-`
  value.
- **Values** (`values.dfy`): `property_has_value` and
  `property_int_value_or_none`, where `none` means "not set" and a
  malformed integer yields a warning.
- **Commands** (`commands.dfy`): the argument lists that `snapshot`
  (`zsnap`), `replicate` (`zreplicate`, after pruning other tiers) and the
  property setters (`zfs set`, `zfs inherit`) build.
- **Engine** (`engine.dfy`): `backup_or_reap_snapshots`. Given a tier, a
  filesystem and its properties, it decides whether to take a snapshot,
  how many to keep and where to replicate. The result is the ordered list
  of commands zbackup would run.
- **Formatter** (`formatter.dfy`): `format_backup_properties`, the
  one-line effective policy shown by `--list`.
- **Scenarios** (`scenarios.dfy`): concrete filesystems run through the
  reader, the engine and the formatter.

Supporting modules are `strings.dfy` (`split`, `join`, `rstrip`,
`sorted`), `integers.dfy` (`int()` and `str()` on decimal strings),
`properties.dfy` (the insertion-ordered dictionary) and `wrappers.dfy`
(`Option`).

Each loop of the modelled functions is a method. Most are proved equal to a
specification function, and lemmas state what those functions guarantee:

- `GetBackupProperties` over the lines;
- `Snapshot`, `Replicate`, `ReplicateEach` and `BackupOrReapSnapshots`
  as they grow their command lists;
- `SplitBySource` and `AddDefaults` in the formatter;
- `SetBackupProperties`.

`UnsetBackupProperties` is specified element by element instead: it
issues one `zfs inherit` per property, in order.

The model keeps two behaviours of the code exactly as written:

- Replication happens only when the value of `replicate` equals the tier
  name (`zbackup.py:193`). Any other value, such as `yes`, disables it.
- The replication loop (`zbackup.py:198-199`) runs once per
  comma-separated piece of `replica`, but every run passes the whole
  `replica` string as the destination.

`Engine.ReplicateToWholeReplica` and
`Scenarios.TwoPiecesReplicateWholeStringTwice` state the second one.

Two consequences of the reader's filter:

- A received `daily-snapshots=7` with an inherited
  `daily-snapshot-limit=3` keeps 7 snapshots. The reader drops every
  inherited line (`zbackup.py:91-93`), so the limit never reaches the
  engine. `Scenarios.InheritedLimitNotRead` and
  `Scenarios.InheritedLimitIgnored` state this.
- `--list` formats the same filtered properties (`zbackup.py:242`). The
  formatter model accepts any source, so its lemmas also cover inherited
  entries.

## Model

| member | source | states |
|---|---|---|
| `Names.PrefixRoundTrip` | src/zfs_tools/zbackup.py:15-43 | Every prefixed property is recognised as prefixed. Stripping the module and the `:` (the module length plus one) gives back the bare name. |
| `Names.UnprefixRoundTrip` | src/zfs_tools/zbackup.py:31-43 | A name recognised as prefixed is the prefixing of its bare name. |
| `Names.SnapshotsProperty` | src/zfs_tools/zbackup.py:46-48 | `<tier>-snapshots` ends with the suffix, and cutting the suffix gives back the tier. |
| `Names.SnapshotLimitProperty` | src/zfs_tools/zbackup.py:51-53 | `<tier>-snapshot-limit` ends with the suffix, and cutting the suffix gives back the tier. |
| `Names.SuffixesExclusive` | src/zfs_tools/zbackup.py:22-23 | No name ends with both `-snapshots` and `-snapshot-limit`. |
| `Names.ZbackupPropertiesDistinct` | src/zfs_tools/zbackup.py:56-63 | The four names read for a tier (`replica`, `replicate`, `<tier>-snapshots`, `<tier>-snapshot-limit`) are pairwise different. |
| `Names.SnapshotTierInverse` | src/zfs_tools/zbackup.py:215-220 | The formatter's suffix test gives tier `t` exactly for `t-snapshots` and `t-snapshot-limit`. |
| `Names.SnapshotLimitPropertyInjective` | src/zfs_tools/zbackup.py:51-53 | Different tiers have different limit properties. |
| `Strings.Split` | src/zfs_tools/zbackup.py:198 | `s.split(sep)` has one more piece than `s` has separators. No piece contains the separator. |
| `Strings.JoinSplit` | src/zfs_tools/zbackup.py:86 | Joining the pieces of a split with its separator gives back the string. |
| `Strings.SplitJoin` | src/zfs_tools/zbackup.py:86 | Splitting a join of one or more separator-free pieces gives back the pieces. |
| `Strings.RStripNewlines` | src/zfs_tools/zbackup.py:86 | `rstrip("\n")` returns a prefix that does not end in a newline, and only newlines were removed. |
| `Strings.NonEmptyKeeps` | src/zfs_tools/zbackup.py:117 | Dropping empty pieces keeps every non-empty piece exactly as many times as it occurs, and nothing else. |
| `Strings.NonEmptyUnchanged` | src/zfs_tools/zbackup.py:117 | Pieces that are all non-empty are kept as they are, in order. |
| `Strings.Words` | src/zfs_tools/zbackup.py:117 | The words of an options string are non-empty and contain no space. |
| `Strings.WordsJoin` | src/zfs_tools/zbackup.py:117 | Non-empty, space-free words joined by single spaces split back into exactly those words. |
| `Strings.SortCorrect` | src/zfs_tools/zbackup.py:227-235 | `sorted` returns a sorted permutation of its input. |
| `Integers.NatToString` | src/zfs_tools/zbackup.py:107 | `str(n)` of a natural number is a non-empty digit string whose value is `n`. |
| `Integers.NatToStringCanonical` | src/zfs_tools/zbackup.py:107 | That numeral has no leading zero unless it is `0`. |
| `Integers.IntToString` | src/zfs_tools/zbackup.py:107 | `int(str(n)) == n` for every integer `n`. |
| `Integers.IntToStringCanonical` | src/zfs_tools/zbackup.py:107 | `str(n)` starts with `-` exactly when `n` is negative, never with `+`, and its digits have no leading zero unless the numeral is `0`. |
| `Properties.Insert` | src/zfs_tools/zbackup.py:97 | Dictionary assignment stores the value. A new key is appended to the iteration order, and an existing key keeps its place. |
| `Reader.ParseLineRoundTrip` | src/zfs_tools/zbackup.py:86 | A line of four tab-separated, tab- and newline-free fields with a trailing newline parses back to those fields. |
| `Reader.ParseLinesFails` | src/zfs_tools/zbackup.py:85-86 | One line without exactly four fields makes the whole read fail, as the tuple unpacking raises. |
| `Reader.NormalizeKeepsDecisionSources` | src/zfs_tools/zbackup.py:89-93 | Collapsing `inherited…` to `inherited` never turns a source into `local` or `received`, nor out of them. |
| `Reader.Step` | src/zfs_tools/zbackup.py:87-97 | After any line, every stored value is not `-`, every stored source is `local` or `received`, and each dictionary is well formed. |
| `Reader.ReadProperties` | src/zfs_tools/zbackup.py:85-97 | After any sequence of lines, every stored value is not `-` and every stored source is `local` or `received`. |
| `Reader.StepFilesystems` | src/zfs_tools/zbackup.py:91-95 | One line creates its filesystem's entry exactly when it is a local or received zbackup property. |
| `Reader.StepLookup` | src/zfs_tools/zbackup.py:96-97 | One line changes exactly the entry it stores, and only when it is kept and its value is not `-`. |
| `Reader.ReadFilesystems` | src/zfs_tools/zbackup.py:85-95 | A filesystem has an entry, possibly empty, exactly when some line for it is a local or received zbackup property. |
| `Reader.ReadEntryPresent` | src/zfs_tools/zbackup.py:85-97 | A bare property is stored for a filesystem exactly when some kept line with a value other than `-` names it. |
| `Reader.ReadEntryLast` | src/zfs_tools/zbackup.py:96-97 | The stored value and source are those of the last such line. |
| `Reader.LaterOverwrites` | src/zfs_tools/zbackup.py:96-97 | A kept line with a value overrides whatever earlier lines stored. |
| `Reader.StepOrder` | src/zfs_tools/zbackup.py:94-97 | One line appends its bare name to its filesystem's iteration order exactly when it stores a name not listed yet. Otherwise the order is unchanged. |
| `Reader.ReadOrderIsFirstStoreOrder` | src/zfs_tools/zbackup.py:85-97 | A filesystem's iteration order is the list of bare names stored for it, each once, in the order of the lines that first store them. |
| `Reader.FirstStoreMembers` | src/zfs_tools/zbackup.py:85-97 | A name is listed in that order exactly when some line stores it. |
| `Reader.ReadOrder` | src/zfs_tools/zbackup.py:85-97 | Of two names stored for a filesystem, the first is listed before the second exactly when its first storing line comes before the second's. A later line overwrites a value but never moves its name. |
| `Reader.FilterLine` | src/zfs_tools/zbackup.py:87-97 | The body of the read loop performs exactly one step of the line filter. |
| `Reader.GetBackupProperties` | src/zfs_tools/zbackup.py:78-102 | The read loop fails when a line is malformed. Otherwise it returns the properties the filter computes from all the lines. |
| `Reader.GetCommandProperties` | src/zfs_tools/zbackup.py:79-83 | For a tier without commas, the `zfs get` property list holds exactly the four prefixed tier properties, in order. |
| `Engine.NoneIsAbsent` | src/zfs_tools/zbackup.py:146-152 | A property whose value is `none` counts as absent: removing it leaves the decision unchanged. |
| `Values.PropertyIntValueOrNone` | src/zfs_tools/zbackup.py:155-167 | An absent or `none` property gives `(None, None)` and no warning. Otherwise the result has the property's source and the parsed integer. A warning naming the filesystem, the property and its `(value, source)` is issued exactly when parsing fails. |
| `Commands.Snapshot` | src/zfs_tools/zbackup.py:105-118 | Growing the `zsnap` list step by step builds exactly the specified command. |
| `Commands.SnapshotArgsMeaning` | src/zfs_tools/zbackup.py:107-118 | The `zsnap` command carries `-k <keep>` (which parses back to `keep`) and `-p <prefix><tier>-`, and ends with the filesystem. `--nosnapshot` follows right after when no snapshot is to be taken. When nothing user-supplied equals `--nosnapshot`, it is present exactly when no snapshot is to be taken. |
| `Commands.NoSnapshotOnlyFromFlag` | src/zfs_tools/zbackup.py:107-118 | When nothing the user supplies is `--nosnapshot`, the `zsnap` command contains `--nosnapshot` exactly when no snapshot is to be taken. |
| `Commands.Replicate` | src/zfs_tools/zbackup.py:123-141 | The `replicate` loop and list building produce exactly the specified commands. |
| `Commands.ReplicateArgsMeaning` | src/zfs_tools/zbackup.py:126-141 | One pruning `zsnap -k 0 --nosnapshot` is issued per `--delete-tiers` entry, for that tier's prefix and the filesystem. They are followed by one `zreplicate` ending with the filesystem and the destination. |
| `Commands.ParsePropertyValueMeaning` | src/zfs_tools/zbackup.py:252-254 | A `property=value` token is accepted exactly when it has one `=`. It then splits into an `=`-free name and value around it. |
| `Commands.ParsePropertyValueRoundTrip` | src/zfs_tools/zbackup.py:252-254 | An `=`-free name and value joined by `=` are accepted and split back. |
| `Commands.IgnoredTokens` | src/zfs_tools/zbackup.py:258-262 | Every ignored token is one of the inputs and is badly formed. |
| `Commands.IgnoredTokensComplete` | src/zfs_tools/zbackup.py:251-262 | Every badly formed token is reported as ignored. |
| `Commands.SetCommandsComplete` | src/zfs_tools/zbackup.py:251-255 | Every well-formed `prop=value` token yields the `zfs set` of the prefixed property to that value. |
| `Commands.SetCommandsSound` | src/zfs_tools/zbackup.py:251-255 | Every `zfs set` comes from a well-formed token, with that token's property and value. |
| `Commands.SetCommandsAppend` | src/zfs_tools/zbackup.py:251-262 | The tokens are handled in order: the commands and the ignored tokens of two runs of tokens are those of the first run followed by those of the second. |
| `Commands.SetCommandsPartition` | src/zfs_tools/zbackup.py:251-262 | Every token either yields a `zfs set` or is ignored. |
| `Commands.SetBackupProperties` | src/zfs_tools/zbackup.py:250-262 | The loop issues the specified `zfs set` commands and reports the specified ignored tokens. |
| `Commands.UnsetBackupProperties` | src/zfs_tools/zbackup.py:265-269 | One `zfs inherit` of the prefixed property is issued per property, in order. |
| `Engine.ReplicationGate` | src/zfs_tools/zbackup.py:191-197 | Replication is enabled exactly when all of these hold: `replicate` is present, equals the tier, is not `none` and is local; `replica` is present, is not `none` and is local. |
| `Engine.Decide` | src/zfs_tools/zbackup.py:170-199 | See "Engine.Decide" below. |
| `Engine.BackupOrReapSnapshots` | src/zfs_tools/zbackup.py:170-199 | The step-by-step procedure issues exactly the commands of the plan for the decision, and reports the decision's warnings. |
| `Engine.ReplicateEach` | src/zfs_tools/zbackup.py:198-199 | The loop over the pieces of `replica` replicates to the whole `replica` once per piece. |
| `Engine.ReplicateAllLength` | src/zfs_tools/zbackup.py:198-199 | Replicating to `n` destinations issues `n` blocks, each of (number of delete-tiers + 1) commands. |
| `Engine.ReplicateAllBlocks` | src/zfs_tools/zbackup.py:198-199 | Block `k` of the replication commands is exactly the `replicate` commands for destination `k`. |
| `Engine.NoCountNoSnapshot` | src/zfs_tools/zbackup.py:185-188 | When neither count nor limit parses, no snapshot is taken, nothing is kept and no `zsnap` is issued; only replication commands remain. |
| `Engine.PlanSnapshotFirst` | src/zfs_tools/zbackup.py:185-199 | When a count is kept, the first command is the tier's `zsnap -k <keep>`, with `--nosnapshot` exactly when no snapshot is taken. The replication commands follow it. |
| `Engine.ReplicateAllToOne` | src/zfs_tools/zbackup.py:198-199 | Replicating `n` times to one destination issues `n` blocks. Each block is that destination's `replicate` commands and ends with a `zreplicate` to it. |
| `Engine.ReplicateToWholeReplica` | src/zfs_tools/zbackup.py:196-199 | With replication enabled, there are (commas in `replica` + 1) blocks. Every block ends with a `zreplicate` of the filesystem to the whole `replica` string. |
| `Engine.ReceivedCountOnlyReaps` | src/zfs_tools/zbackup.py:174-188 | A received count whose value parses as the integer n, without a limit, keeps n snapshots without taking one, and warns of nothing. |
| `Engine.LimitOverridesCount` | src/zfs_tools/zbackup.py:181-186 | A limit that parses is the number kept, whatever the count says. |
| `Formatter.LocalPart` | src/zfs_tools/zbackup.py:207-211 | The local dictionary holds exactly the local properties, with their own values. |
| `Formatter.NonLocalPart` | src/zfs_tools/zbackup.py:207-213 | The non-local dictionary holds exactly the other properties, with their own values. |
| `Formatter.PartsOrder` | src/zfs_tools/zbackup.py:207-213 | The local and the non-local dictionaries list their names in the input's iteration order, keeping exactly the local and the non-local names respectively. |
| `Formatter.DefaultsPresent` | src/zfs_tools/zbackup.py:214-225 | After the defaults loop, a name is present exactly when it was present before or some non-local tier property supplies it. Names present before keep their values. |
| `Formatter.DefaultsFirstWins` | src/zfs_tools/zbackup.py:214-225 | A name the defaults loop adds takes the value of the first name in iteration order that supplies it. |
| `Formatter.OtherNames` | src/zfs_tools/zbackup.py:227-231 | The first comprehension keeps only names other than `replica` and `replicate`, all taken from its input. |
| `Formatter.ReplicaNames` | src/zfs_tools/zbackup.py:232-235 | The second comprehension keeps only `replica` and `replicate`, taken from its input. |
| `Formatter.NamesPartition` | src/zfs_tools/zbackup.py:227-235 | Together the two comprehensions keep every name exactly once. |
| `Formatter.OtherNamesSorted` | src/zfs_tools/zbackup.py:227-231 | Filtering a sorted list keeps it sorted. |
| `Formatter.ReplicaNamesSorted` | src/zfs_tools/zbackup.py:232-235 | Filtering a sorted list keeps it sorted. |
| `Formatter.TokenNamesOrder` | src/zfs_tools/zbackup.py:227-235 | The names shown are a permutation of the dictionary's names. The others come first in sorted order, then `replica`/`replicate` in sorted order. |
| `Formatter.TokenNamesPresent` | src/zfs_tools/zbackup.py:236 | Every name shown has a value to show. |
| `Formatter.SplitBySource` | src/zfs_tools/zbackup.py:207-213 | The first loop builds exactly the local and non-local dictionaries, in iteration order. |
| `Formatter.AddDefaults` | src/zfs_tools/zbackup.py:214-225 | The second loop adds exactly the specified defaults. |
| `Formatter.FormatBackupProperties` | src/zfs_tools/zbackup.py:202-236 | The procedure returns exactly the specified line: the sorted `name=value` tokens of the merged dictionary joined by single spaces. |
| `Formatter.LocalShownUnchanged` | src/zfs_tools/zbackup.py:207-225 | A local property is shown with its own value. A local `<tier>-snapshot-limit` is never replaced by a default. |
| `Formatter.MergedNames` | src/zfs_tools/zbackup.py:207-225 | A name is shown exactly when it is local, or it is the limit property of the tier of some non-local `-snapshots`/`-snapshot-limit` property. |
| `Formatter.DefaultFromFirstNonLocal` | src/zfs_tools/zbackup.py:214-225 | A name shown but not set locally takes the value of the first non-local tier property whose limit it is, first in the non-local dictionary's order, which `Formatter.PartsOrder` shows is the input's iteration order. |
| `Formatter.NonLocalHidden` | src/zfs_tools/zbackup.py:212-225 | A non-local `replica`, `replicate` or `<tier>-snapshots` is never shown under its own name. |
| `Formatter.LocalPartAllLocal` | src/zfs_tools/zbackup.py:207-211 | Over local names only, the local dictionary keeps their order. |
| `Formatter.AllLocalShownAsIs` | src/zfs_tools/zbackup.py:207-225 | When every property is local, the dictionary shown is the input, in the same order. |
| `Scenarios.LocalCountTakesSnapshot` | src/zfs_tools/zbackup.py:176-188 | A local `daily-snapshots=7` takes a snapshot, keeps 7 and does not replicate. |
| `Scenarios.InheritedLimitNotRead` | src/zfs_tools/zbackup.py:89-97 | Of a received count and an inherited limit, the reader keeps only the count. |
| `Scenarios.InheritedLimitIgnored` | src/zfs_tools/zbackup.py:182-186 | With that reading, the engine keeps the received 7 and takes no snapshot. |
| `Scenarios.ReceivedCountAlone` | src/zfs_tools/zbackup.py:176-188 | A received `daily-snapshots=7` alone keeps 7 and takes no snapshot. |
| `Scenarios.LocalReplicationOneTarget` | src/zfs_tools/zbackup.py:191-199 | Local `replicate=daily` and `replica=backup/pool` replicate once, to `backup/pool`. |
| `Scenarios.ReceivedReplicateIgnored` | src/zfs_tools/zbackup.py:191-195 | A received `replicate` does not replicate. |
| `Scenarios.ReplicateValueMustBeTier` | src/zfs_tools/zbackup.py:193 | `replicate=yes` does not replicate for tier `daily`. |
| `Scenarios.TwoPiecesReplicateWholeStringTwice` | src/zfs_tools/zbackup.py:198-199 | `replica=a/x,b/y` replicates twice, both times to `a/x,b/y`. |
| `Scenarios.MalformedCountReported` | src/zfs_tools/zbackup.py:158-166 | `daily-snapshots=seven` takes and keeps nothing, and yields one warning naming the filesystem, the property and its value. |
| `Scenarios.ReceivedCountShownAsLimit` | src/zfs_tools/zbackup.py:207-236 | A received `<tier>-snapshots=<n>` with a received `replica` is listed as the single token `<tier>-snapshot-limit=<n>`. |

`Engine.Decide` states:

- A snapshot is taken exactly when `<tier>-snapshots` has a value that
  parses and its source is local.
- The number kept is the parsed limit when there is one, otherwise the
  parsed count.
- The warnings are exactly the count and limit properties whose values
  fail to parse. There are at most two, and when there are two the
  count's warning comes before the limit's.
- When replication is enabled, there is one destination per
  comma-separated piece, and every destination is the whole `replica`
  value. Otherwise there are none.

## Left out

- Running commands is not modelled: `subprocess` calls (`zbackup.py:84`,
  `120`, `143`, `257`, `269`) and `get_zpools` (`zbackup.py:66-72`). The
  model returns the argument lists in order. Every command is assumed to
  succeed, so a failing `check_call` that stops zbackup part way is not
  modelled.
- `Reader.GetBackupProperties` does not model the exit status of
  `zfs get` (`zbackup.py:99-101`), because it comes from an external
  process. The lines are given as input.
- Logging is not modelled: `verbose_stderr`, `stderr` and
  `sys.stdout`/`sys.stderr` writes (`zbackup.py:98`, `119`, `142`, `163`,
  `256`, `259`). The malformed-integer warning is returned as a
  `Malformed` record (filesystem, property, `(value, source)`), without its
  text. The ignored `property=value` tokens are returned as a list.
- `highlight` is not modelled, because it only decorates log output.
- `send_failure_email` is not modelled, because it is network I/O.
- `main` is not modelled. It is option parsing and exit handling; its
  options appear as the `Options` record.
- `list_backup_properties` and `backup_by_properties` are not modelled.
  They iterate over pools and filesystems and call the modelled
  operations.
- `Integers.ParseInt` models `int()` as an optional `+` or `-` sign
  followed by ASCII decimal digits. Python also accepts surrounding
  whitespace, `_` separators and non-ASCII digits; those inputs are
  rejected here.
- `Strings.Words` models `str.split()` on the `--zsnap-options` and
  `--zreplicate-options` strings as splitting on spaces and dropping empty
  words. Tabs and other whitespace are not separators here.
- `Integers.ParseInt`, `Integers.NatToString` and `Integers.IntToString`
  do not model the limit of 4300 digits that Python 3.11 and later put on
  converting between integers and decimal strings. Snapshot counts are
  far below it.
- `Strings.Sort` orders strings by character code, as Python's `sorted`
  does for `str`. It is specified by `Strings.SortCorrect` (sorted, and a
  permutation), not by sort stability.
- `Formatter.FormatBackupProperties` takes the dictionary's iteration
  order as part of its input (`PropertyDict.order`), because Python
  dictionaries iterate in insertion order.
