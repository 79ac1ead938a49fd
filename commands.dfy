/** The argument lists zbackup hands to its external tools: `zsnap` (take
    and reap snapshots), `zreplicate` (ship snapshots), and `zfs set` /
    `zfs inherit` (set and unset properties). Running them is outside the
    model: each tool call becomes the list of its arguments. */
module Commands {
  import opened Wrappers
  import opened Strings
  import opened Integers
  import opened Names

  /** The command-line options the argument lists depend on. */
  datatype Options = Options(
    prefix: string,
    verbose: bool,
    timeformat: Option<string>,
    dryrun: bool,
    zsnapOptions: Option<string>,
    zreplicateOptions: Option<string>,
    deleteTiers: Option<string>)

  /** One external command, program name first. */
  type Command = seq<string>

  /** The words of an optional option string (`s.split()`). */
  function OptionWords(s: Option<string>): seq<string>
  {
    match s
    case Some(words) => Words(words)
    case None => []
  }

  /** `--nosnapshot` when no snapshot is to be taken. */
  function NoSnapshotFlag(takeSnapshot: bool): seq<string>
  {
    if takeSnapshot then [] else ["--nosnapshot"]
  }

  /** `-v` when verbose, `-n` when a dry run: the flags both tools share. */
  function VerboseFlag(options: Options): seq<string>
  {
    if options.verbose then ["-v"] else []
  }

  function DryRunFlag(options: Options): seq<string>
  {
    if options.dryrun then ["-n"] else []
  }

  function TimeformatArgs(options: Options): seq<string>
  {
    match options.timeformat
    case Some(t) => ["-t", t]
    case None => []
  }

  /** The `zsnap` command of `snapshot`. */
  function SnapshotArgs(tier: string, filesystem: string, takeSnapshot: bool, keep: int, options: Options): Command
  {
    ["zsnap", "-k", IntToString(keep), "-p", options.prefix + tier + "-"]
    + NoSnapshotFlag(takeSnapshot)
    + VerboseFlag(options)
    + TimeformatArgs(options)
    + DryRunFlag(options)
    + OptionWords(options.zsnapOptions)
    + [filesystem]
  }

  /** `snapshot`: builds the `zsnap` command step by step. */
  method Snapshot(tier: string, filesystem: string, takeSnapshot: bool, keep: int, options: Options)
    returns (command: Command)
    ensures command == SnapshotArgs(tier, filesystem, takeSnapshot, keep, options)
  {
    command := ["zsnap", "-k", IntToString(keep), "-p", options.prefix + tier + "-"];
    ghost var built := command;
    if !takeSnapshot {
      command := command + ["--nosnapshot"];
    }
    assert command == built + NoSnapshotFlag(takeSnapshot);
    built := command;
    if options.verbose {
      command := command + ["-v"];
    }
    assert command == built + VerboseFlag(options);
    built := command;
    if options.timeformat.Some? {
      command := command + ["-t", options.timeformat.value];
    }
    assert command == built + TimeformatArgs(options);
    built := command;
    if options.dryrun {
      command := command + ["-n"];
    }
    assert command == built + DryRunFlag(options);
    built := command;
    if options.zsnapOptions.Some? {
      command := command + Words(options.zsnapOptions.value);
    }
    assert command == built + OptionWords(options.zsnapOptions);
    command := command + [filesystem];
  }

  /** No argument the user supplies to `zsnap` is itself `--nosnapshot`. */
  predicate NoUserNoSnapshot(filesystem: string, options: Options)
  {
    && filesystem != "--nosnapshot"
    && options.timeformat != Some("--nosnapshot")
    && "--nosnapshot" !in OptionWords(options.zsnapOptions)
  }

  /** Neither the count nor the prefix argument can be `--nosnapshot`. */
  lemma FixedArgsNotFlag(tier: string, keep: int, options: Options)
    ensures "--nosnapshot" !in ["zsnap", "-k", IntToString(keep), "-p", options.prefix + tier + "-"]
  {
    assert IntToString(keep) != "--nosnapshot" by {
      assert ParseInt("--nosnapshot") == None;
    }
    var p := options.prefix + tier + "-";
    assert p != "--nosnapshot" by {
      assert p[|p| - 1] == '-';
    }
  }

  /** Nothing after the flag is `--nosnapshot` unless the user supplied it. */
  lemma LaterArgsNotFlag(filesystem: string, options: Options)
    requires NoUserNoSnapshot(filesystem, options)
    ensures "--nosnapshot" !in VerboseFlag(options) + TimeformatArgs(options) + DryRunFlag(options)
                               + OptionWords(options.zsnapOptions) + [filesystem]
  {
  }

  /** When the user supplies no `--nosnapshot` of their own, the `zsnap`
      command carries `--nosnapshot` exactly when no snapshot is to be
      taken. */
  lemma NoSnapshotOnlyFromFlag(tier: string, filesystem: string, takeSnapshot: bool, keep: int, options: Options)
    requires NoUserNoSnapshot(filesystem, options)
    ensures "--nosnapshot" in SnapshotArgs(tier, filesystem, takeSnapshot, keep, options) <==> !takeSnapshot
  {
    var head := ["zsnap", "-k", IntToString(keep), "-p", options.prefix + tier + "-"];
    var rest := VerboseFlag(options) + TimeformatArgs(options) + DryRunFlag(options)
                + OptionWords(options.zsnapOptions) + [filesystem];
    assert SnapshotArgs(tier, filesystem, takeSnapshot, keep, options) == head + NoSnapshotFlag(takeSnapshot) + rest;
    FixedArgsNotFlag(tier, keep, options);
    LaterArgsNotFlag(filesystem, options);
  }

  /** The `zsnap` command keeps exactly `keep` snapshots (its `-k` argument
      reads back as `keep`), names them after the prefix and tier, acts on the
      filesystem, and carries `--nosnapshot` exactly when no snapshot is to be
      taken. */
  lemma SnapshotArgsMeaning(tier: string, filesystem: string, takeSnapshot: bool, keep: int, options: Options)
    ensures var c := SnapshotArgs(tier, filesystem, takeSnapshot, keep, options);
            && |c| >= 6
            && c[0] == "zsnap" && c[1] == "-k" && ParseInt(c[2]) == Some(keep)
            && c[3] == "-p" && c[4] == options.prefix + tier + "-"
            && c[|c| - 1] == filesystem
            && (!takeSnapshot ==> c[5] == "--nosnapshot")
            && (NoUserNoSnapshot(filesystem, options) ==> ("--nosnapshot" in c <==> !takeSnapshot))
  {
    if NoUserNoSnapshot(filesystem, options) {
      NoSnapshotOnlyFromFlag(tier, filesystem, takeSnapshot, keep, options);
    }
  }

  /** The `zreplicate` command of `replicate`. */
  function ZreplicateArgs(filesystem: string, destination: string, options: Options): Command
  {
    ["zreplicate", "--create-destination", "--no-replication-stream"]
    + VerboseFlag(options)
    + DryRunFlag(options)
    + OptionWords(options.zreplicateOptions)
    + [filesystem, destination]
  }

  /** The tiers whose snapshots are deleted before replicating. */
  function DeleteTiers(options: Options): seq<string>
  {
    match options.deleteTiers
    case Some(tiers) => Split(tiers, ',')
    case None => []
  }

  /** The commands of `replicate`: for each tier to delete, in order, a
      `zsnap` that keeps no snapshot and takes none; then the `zreplicate`. */
  function ReplicateArgs(filesystem: string, destination: string, options: Options): seq<Command>
  {
    var tiers := DeleteTiers(options);
    seq(|tiers|, i requires 0 <= i < |tiers| => SnapshotArgs(tiers[i], filesystem, false, 0, options))
    + [ZreplicateArgs(filesystem, destination, options)]
  }

  /** `replicate`: deletes the other tiers' snapshots, then replicates. */
  method Replicate(filesystem: string, destination: string, options: Options) returns (commands: seq<Command>)
    ensures commands == ReplicateArgs(filesystem, destination, options)
  {
    commands := [];
    if options.deleteTiers.Some? {
      var tiers := Split(options.deleteTiers.value, ',');
      var i := 0;
      while i < |tiers|
        invariant 0 <= i <= |tiers|
        invariant |commands| == i
        invariant forall j :: 0 <= j < i ==> commands[j] == SnapshotArgs(tiers[j], filesystem, false, 0, options)
      {
        var prune := Snapshot(tiers[i], filesystem, false, 0, options);
        commands := commands + [prune];
        i := i + 1;
      }
    }
    var tiers := DeleteTiers(options);
    assert commands == seq(|tiers|, i requires 0 <= i < |tiers| => SnapshotArgs(tiers[i], filesystem, false, 0, options));
    var zreplicate := ["zreplicate", "--create-destination", "--no-replication-stream"];
    ghost var built := zreplicate;
    if options.verbose {
      zreplicate := zreplicate + ["-v"];
    }
    assert zreplicate == built + VerboseFlag(options);
    built := zreplicate;
    if options.dryrun {
      zreplicate := zreplicate + ["-n"];
    }
    assert zreplicate == built + DryRunFlag(options);
    built := zreplicate;
    if options.zreplicateOptions.Some? {
      zreplicate := zreplicate + Words(options.zreplicateOptions.value);
    }
    assert zreplicate == built + OptionWords(options.zreplicateOptions);
    zreplicate := zreplicate + [filesystem, destination];
    commands := commands + [zreplicate];
  }

  /** `z` is a `zreplicate` of `filesystem` to `destination`. */
  predicate ReplicatesTo(z: Command, filesystem: string, destination: string)
  {
    |z| >= 2 && z[0] == "zreplicate" && z[|z| - 2] == filesystem && z[|z| - 1] == destination
  }

  /** `replicate` issues one command per deleted tier and then one
      `zreplicate`, from the filesystem to the destination; each deletion
      keeps no snapshot and takes none. */
  lemma ReplicateArgsMeaning(filesystem: string, destination: string, options: Options)
    ensures var cs := ReplicateArgs(filesystem, destination, options);
            && |cs| == |DeleteTiers(options)| + 1
            && var z := cs[|cs| - 1];
               && |z| >= 5 && z[0] == "zreplicate"
               && z[|z| - 2] == filesystem && z[|z| - 1] == destination
    ensures var cs := ReplicateArgs(filesystem, destination, options);
            forall k :: 0 <= k < |cs| - 1 ==>
              && cs[k][0] == "zsnap" && ParseInt(cs[k][2]) == Some(0) && cs[k][5] == "--nosnapshot"
              && cs[k][4] == options.prefix + DeleteTiers(options)[k] + "-"
              && cs[k][|cs[k]| - 1] == filesystem
  {
    var cs := ReplicateArgs(filesystem, destination, options);
    var tiers := DeleteTiers(options);
    forall k | 0 <= k < |cs| - 1
      ensures && cs[k][0] == "zsnap" && ParseInt(cs[k][2]) == Some(0) && cs[k][5] == "--nosnapshot"
              && cs[k][4] == options.prefix + tiers[k] + "-"
              && cs[k][|cs[k]| - 1] == filesystem
    {
      SnapshotArgsMeaning(tiers[k], filesystem, false, 0, options);
    }
  }

  /** `property_value.split("=")` when it gives exactly two pieces, the
      property and its value; `None` for a token `--set` ignores. */
  function ParsePropertyValue(token: string): Option<(string, string)>
  {
    var toks := Split(token, '=');
    if |toks| == 2 then Some((toks[0], toks[1])) else None
  }

  /** A token is accepted exactly when it holds one `=`, and then it splits
      back into the two sides of that `=`. */
  lemma ParsePropertyValueMeaning(token: string)
    ensures ParsePropertyValue(token).Some? <==> Count(token, '=') == 1
    ensures ParsePropertyValue(token).Some? ==>
              var (prop, value) := ParsePropertyValue(token).value;
              token == prop + "=" + value && '=' !in prop && '=' !in value
  {
    JoinSplit(token, '=');
  }

  /** `prop=value` is accepted as that property and value when neither side
      holds an `=`. */
  lemma ParsePropertyValueRoundTrip(prop: string, value: string)
    requires '=' !in prop && '=' !in value
    ensures ParsePropertyValue(prop + "=" + value) == Some((prop, value))
  {
    SplitJoin([prop, value], '=');
  }

  /** The `zfs set` of one property. */
  function SetArgs(filesystem: string, prop: string, value: string): Command
  {
    ["zfs", "set", Zprefixed(prop) + "=" + value, filesystem]
  }

  /** The `zfs set` commands for the accepted tokens, in order. */
  function SetCommands(filesystem: string, tokens: seq<string>): seq<Command>
  {
    if |tokens| == 0 then []
    else
      var earlier := SetCommands(filesystem, tokens[..|tokens| - 1]);
      match ParsePropertyValue(tokens[|tokens| - 1])
      case Some((prop, value)) => earlier + [SetArgs(filesystem, prop, value)]
      case None => earlier
  }

  /** The tokens `--set` ignores, in order. */
  function IgnoredTokens(tokens: seq<string>): (ignored: seq<string>)
    ensures forall i :: 0 <= i < |ignored| ==> ignored[i] in tokens && ParsePropertyValue(ignored[i]).None?
  {
    if |tokens| == 0 then []
    else
      var earlier := IgnoredTokens(tokens[..|tokens| - 1]);
      if ParsePropertyValue(tokens[|tokens| - 1]).None? then earlier + [tokens[|tokens| - 1]] else earlier
  }

  /** Every token is either turned into a `zfs set` or ignored. */
  lemma {:induction false} SetCommandsPartition(filesystem: string, tokens: seq<string>)
    ensures |SetCommands(filesystem, tokens)| + |IgnoredTokens(tokens)| == |tokens|
    decreases |tokens|
  {
    if |tokens| > 0 {
      SetCommandsPartition(filesystem, tokens[..|tokens| - 1]);
    }
  }

  /** Every token `--set` cannot parse is reported as ignored. */
  lemma {:induction false} IgnoredTokensComplete(tokens: seq<string>, t: string)
    requires t in tokens && ParsePropertyValue(t).None?
    ensures t in IgnoredTokens(tokens)
    decreases |tokens|
  {
    var n := |tokens| - 1;
    if tokens[n] != t {
      var k :| 0 <= k < |tokens| && tokens[k] == t;
      assert tokens[..n][k] == t;
      IgnoredTokensComplete(tokens[..n], t);
    }
  }

  /** Every token `--set` parses gives the `zfs set` of its property and value. */
  lemma {:induction false} SetCommandsComplete(filesystem: string, tokens: seq<string>, t: string, prop: string, value: string)
    requires t in tokens && ParsePropertyValue(t) == Some((prop, value))
    ensures SetArgs(filesystem, prop, value) in SetCommands(filesystem, tokens)
    decreases |tokens|
  {
    var n := |tokens| - 1;
    if tokens[n] != t {
      var k :| 0 <= k < |tokens| && tokens[k] == t;
      assert tokens[..n][k] == t;
      SetCommandsComplete(filesystem, tokens[..n], t, prop, value);
    }
  }

  /** Every `zfs set` comes from a token that parses into its property and
      value. */
  lemma {:induction false} SetCommandsSound(filesystem: string, tokens: seq<string>, c: Command)
    requires c in SetCommands(filesystem, tokens)
    ensures exists t :: t in tokens && ParsePropertyValue(t).Some?
              && c == SetArgs(filesystem, ParsePropertyValue(t).value.0, ParsePropertyValue(t).value.1)
    decreases |tokens|
  {
    var n := |tokens| - 1;
    var last := tokens[n];
    if ParsePropertyValue(last).Some?
       && c == SetArgs(filesystem, ParsePropertyValue(last).value.0, ParsePropertyValue(last).value.1) {
    } else {
      SetCommandsSound(filesystem, tokens[..n], c);
      var t :| t in tokens[..n] && ParsePropertyValue(t).Some?
                && c == SetArgs(filesystem, ParsePropertyValue(t).value.0, ParsePropertyValue(t).value.1);
      assert t in tokens;
    }
  }

  /** The tokens are handled in order: the commands and the ignored tokens of
      two runs of tokens are those of the first followed by those of the
      second. */
  lemma {:induction false} SetCommandsAppend(filesystem: string, first: seq<string>, second: seq<string>)
    ensures SetCommands(filesystem, first + second) == SetCommands(filesystem, first) + SetCommands(filesystem, second)
    ensures IgnoredTokens(first + second) == IgnoredTokens(first) + IgnoredTokens(second)
    decreases |second|
  {
    if |second| == 0 {
      assert first + second == first;
    } else {
      var n := |second| - 1;
      assert (first + second)[..|first + second| - 1] == first + second[..n];
      assert (first + second)[|first + second| - 1] == second[n];
      SetCommandsAppend(filesystem, first, second[..n]);
    }
  }

  /** `set_backup_properties`: a `zfs set` for each well-formed token, and
      the badly formatted ones reported as ignored. */
  method SetBackupProperties(filesystem: string, tokens: seq<string>) returns (commands: seq<Command>, ignored: seq<string>)
    ensures commands == SetCommands(filesystem, tokens)
    ensures ignored == IgnoredTokens(tokens)
  {
    commands, ignored := [], [];
    var i := 0;
    while i < |tokens|
      invariant 0 <= i <= |tokens|
      invariant commands == SetCommands(filesystem, tokens[..i])
      invariant ignored == IgnoredTokens(tokens[..i])
    {
      var toks := Split(tokens[i], '=');
      if |toks| == 2 {
        commands := commands + [["zfs", "set", Zprefixed(toks[0]) + "=" + toks[1], filesystem]];
      } else {
        ignored := ignored + [tokens[i]];
      }
      assert tokens[..i + 1][..i] == tokens[..i];
      i := i + 1;
    }
    assert tokens[..i] == tokens;
  }

  /** The `zfs inherit` that unsets one property. */
  function UnsetArgs(filesystem: string, prop: string): Command
  {
    ["zfs", "inherit", Zprefixed(prop), filesystem]
  }

  /** `unset_backup_properties`: one `zfs inherit` per property, in order. */
  method UnsetBackupProperties(filesystem: string, props: seq<string>) returns (commands: seq<Command>)
    ensures |commands| == |props|
    ensures forall i :: 0 <= i < |props| ==> commands[i] == UnsetArgs(filesystem, props[i])
  {
    commands := [];
    var i := 0;
    while i < |props|
      invariant 0 <= i <= |props|
      invariant |commands| == i
      invariant forall j :: 0 <= j < i ==> commands[j] == UnsetArgs(filesystem, props[j])
    {
      commands := commands + [["zfs", "inherit", Zprefixed(props[i]), filesystem]];
      i := i + 1;
    }
  }
}
