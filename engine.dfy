/** The decision engine, `backup_or_reap_snapshots`: for one filesystem and
    one tier, whether to take a snapshot, how many to keep, and where to
    replicate, and the external commands that carry the decision out, in the
    order they are run.

    Two behaviours of the code are kept as written: replication is switched
    on only when the `replicate` property's value equals the tier's name; and
    one replication is run per comma-separated piece of `replica`, each one to
    the whole `replica` string rather than to the piece. */
module Engine {
  import opened Wrappers
  import opened Strings
  import opened Integers
  import opened Names
  import opened Properties
  import opened Values
  import opened Commands

  /** What the engine decides for one filesystem and tier. */
  datatype Decision = Decision(
    takeSnapshot: bool,
    keep: Option<int>,
    destinations: seq<string>,
    warnings: seq<Malformed>)

  /** The replication condition as the code tests it. */
  predicate ReplicationEnabled(tier: string, properties: map<string, PropValue>)
  {
    && PropertyHasValue(properties, ReplicateProperty)
    && properties[ReplicateProperty] == PropValue(tier, Local)
    && PropertyHasValue(properties, ReplicaProperty)
    && properties[ReplicaProperty].source == Local
  }

  /** Replication needs `replicate` set locally to the tier's own name (so a
      tier named `none` never replicates) and `replica` set locally to
      something other than `none`. */
  lemma ReplicationGate(tier: string, properties: map<string, PropValue>)
    ensures ReplicationEnabled(tier, properties) <==>
            && ReplicateProperty in properties
            && properties[ReplicateProperty].value == tier && tier != "none"
            && properties[ReplicateProperty].source == Local
            && ReplicaProperty in properties
            && properties[ReplicaProperty].value != "none"
            && properties[ReplicaProperty].source == Local
  {
  }

  function LookupWarnings(lookup: IntLookup): seq<Malformed>
  {
    match lookup.warning
    case Some(w) => [w]
    case None => []
  }

  /** The decision of `backup_or_reap_snapshots`. A snapshot is taken only
      when `<tier>-snapshots` is an integer set locally; the number kept is
      `<tier>-snapshot-limit` when that is an integer, else
      `<tier>-snapshots`; each of the two that holds something other than an
      integer (or `none`) is reported; and when replication is switched on
      there is one destination per comma-separated piece of `replica`, each
      the whole `replica` value. */
  function Decide(tier: string, filesystem: string, properties: map<string, PropValue>): (d: Decision)
    ensures d.takeSnapshot <==>
              var name := SnapshotsProperty(tier);
              && name in properties && properties[name].value != "none"
              && ParseInt(properties[name].value).Some? && properties[name].source == Local
    ensures d.keep == if IntProperty(properties, SnapshotLimitProperty(tier)).Some?
                      then IntProperty(properties, SnapshotLimitProperty(tier))
                      else IntProperty(properties, SnapshotsProperty(tier))
    ensures forall w :: w in d.warnings <==>
              && w.filesystem == filesystem
              && (w.property == SnapshotsProperty(tier) || w.property == SnapshotLimitProperty(tier))
              && w.property in properties && w.found == properties[w.property]
              && w.found.value != "none" && ParseInt(w.found.value).None?
    ensures |d.warnings| <= 2
    ensures |d.warnings| == 2 ==> d.warnings[0].property == SnapshotsProperty(tier)
    ensures ReplicationEnabled(tier, properties) ==>
              && |d.destinations| == Count(properties[ReplicaProperty].value, ',') + 1
              && forall i :: 0 <= i < |d.destinations| ==> d.destinations[i] == properties[ReplicaProperty].value
    ensures !ReplicationEnabled(tier, properties) ==> d.destinations == []
  {
    var snapshots := PropertyIntValueOrNone(filesystem, properties, SnapshotsProperty(tier));
    var limit := PropertyIntValueOrNone(filesystem, properties, SnapshotLimitProperty(tier));
    var destinations :=
      if ReplicationEnabled(tier, properties) then
        var replica := properties[ReplicaProperty].value;
        seq(|Split(replica, ',')|, _ => replica)
      else [];
    Decision(
      snapshots.value.Some? && snapshots.source == Some(Local),
      if limit.value.Some? then limit.value else snapshots.value,
      destinations,
      LookupWarnings(snapshots) + LookupWarnings(limit))
  }

  /** The commands of one `replicate` per destination, in order. */
  function ReplicateAll(filesystem: string, destinations: seq<string>, options: Options): seq<Command>
  {
    if |destinations| == 0 then []
    else
      ReplicateAll(filesystem, destinations[..|destinations| - 1], options)
      + ReplicateArgs(filesystem, destinations[|destinations| - 1], options)
  }

  /** The commands that carry out a decision: the `zsnap` of the tier when
      there is a count, then the replications. */
  function Plan(tier: string, filesystem: string, options: Options, d: Decision): seq<Command>
  {
    (match d.keep
     case Some(keep) => [SnapshotArgs(tier, filesystem, d.takeSnapshot, keep, options)]
     case None => [])
    + ReplicateAll(filesystem, d.destinations, options)
  }

  /** `backup_or_reap_snapshots`: the commands it runs, in order, and the
      warnings it prints. */
  method BackupOrReapSnapshots(tier: string, filesystem: string, properties: map<string, PropValue>, options: Options)
    returns (commands: seq<Command>, warnings: seq<Malformed>)
    ensures commands == Plan(tier, filesystem, options, Decide(tier, filesystem, properties))
    ensures warnings == Decide(tier, filesystem, properties).warnings
  {
    commands, warnings := [], [];
    var takeSnapshot := false;
    var snapshotsLookup := PropertyIntValueOrNone(filesystem, properties, SnapshotsProperty(tier));
    warnings := warnings + LookupWarnings(snapshotsLookup);
    var snapshots := snapshotsLookup.value;
    if snapshots.Some? && snapshotsLookup.source == Some(Local) {
      takeSnapshot := true;
    }
    var limitLookup := PropertyIntValueOrNone(filesystem, properties, SnapshotLimitProperty(tier));
    warnings := warnings + LookupWarnings(limitLookup);
    if limitLookup.value.Some? {
      snapshots := limitLookup.value;
    }
    ghost var d := Decide(tier, filesystem, properties);
    assert takeSnapshot == d.takeSnapshot && snapshots == d.keep;
    if snapshots.Some? {
      var zsnap := Snapshot(tier, filesystem, takeSnapshot, snapshots.value, options);
      commands := [zsnap];
      assert commands == [SnapshotArgs(tier, filesystem, d.takeSnapshot, d.keep.value, options)];
    }
    ghost var snapshotStep := commands;
    assert Plan(tier, filesystem, options, d) == snapshotStep + ReplicateAll(filesystem, d.destinations, options);
    if && PropertyHasValue(properties, ReplicateProperty)
       && properties[ReplicateProperty] == PropValue(tier, Local)
       && PropertyHasValue(properties, ReplicaProperty)
    {
      var replica := properties[ReplicaProperty];
      if replica.source == Local {
        var pieces := Split(replica.value, ',');
        assert ReplicationEnabled(tier, properties);
        var replications := ReplicateEach(filesystem, replica.value, options);
        assert d.destinations == seq(|Split(replica.value, ',')|, _ => replica.value);
        commands := commands + replications;
      } else {
        assert !ReplicationEnabled(tier, properties);
      }
    } else {
      assert !ReplicationEnabled(tier, properties);
    }
  }

  /** The loop over `replica.split(",")`: one `replicate` per piece, each to
      the whole `replica` string. */
  method ReplicateEach(filesystem: string, replica: string, options: Options) returns (commands: seq<Command>)
    ensures commands == ReplicateAll(filesystem, seq(|Split(replica, ',')|, _ => replica), options)
  {
    commands := [];
    var pieces := Split(replica, ',');
    ghost var destinations := seq(|pieces|, _ => replica);
    ghost var done: seq<string> := [];
    var i := 0;
    while i < |pieces|
      invariant 0 <= i <= |pieces|
      invariant done == destinations[..i]
      invariant commands == ReplicateAll(filesystem, done, options)
    {
      var replication := Replicate(filesystem, replica, options);
      ReplicateAllSnoc(filesystem, done, replica, options);
      commands := commands + replication;
      done := done + [replica];
      i := i + 1;
      assert done == destinations[..i];
    }
    assert destinations[..i] == destinations;
  }

  /** One more destination adds the commands of one more `replicate`. */
  lemma ReplicateAllSnoc(filesystem: string, destinations: seq<string>, destination: string, options: Options)
    ensures ReplicateAll(filesystem, destinations + [destination], options)
            == ReplicateAll(filesystem, destinations, options) + ReplicateArgs(filesystem, destination, options)
  {
    assert (destinations + [destination])[..|destinations|] == destinations;
  }

  lemma MulSucc(a: nat, b: nat)
    ensures (a + 1) * b == a * b + b
  {
  }

  lemma MulMonotonic(a: nat, c: nat, b: nat)
    requires a <= c
    ensures a * b <= c * b
  {
  }

  /** A slice that lies in the first part of a concatenation lies in that part. */
  lemma SliceOfFirst(x: seq<Command>, y: seq<Command>, i: nat, j: nat)
    requires i <= j <= |x|
    ensures (x + y)[i..j] == x[i..j]
  {
  }

  lemma {:induction false} ReplicateAllLength(filesystem: string, destinations: seq<string>, options: Options)
    ensures |ReplicateAll(filesystem, destinations, options)| == |destinations| * (|DeleteTiers(options)| + 1)
    decreases |destinations|
  {
    if |destinations| > 0 {
      var n := |destinations| - 1;
      ReplicateAllLength(filesystem, destinations[..n], options);
      MulSucc(n, |DeleteTiers(options)| + 1);
    }
  }

  /** The replication commands come in blocks, one per destination, each
      block exactly the commands of `replicate` to that destination. */
  lemma {:induction false} ReplicateAllBlocks(filesystem: string, destinations: seq<string>, options: Options, k: nat)
    requires k < |destinations|
    ensures var b := |DeleteTiers(options)| + 1;
            && (k + 1) * b <= |ReplicateAll(filesystem, destinations, options)|
            && ReplicateAll(filesystem, destinations, options)[k * b..(k + 1) * b]
               == ReplicateArgs(filesystem, destinations[k], options)
    decreases |destinations|
  {
    var b := |DeleteTiers(options)| + 1;
    var n := |destinations| - 1;
    var init := destinations[..n];
    var front := ReplicateAll(filesystem, init, options);
    var last := ReplicateArgs(filesystem, destinations[n], options);
    assert ReplicateAll(filesystem, destinations, options) == front + last;
    ReplicateAllLength(filesystem, init, options);
    MulSucc(k, b);
    MulSucc(n, b);
    assert |last| == b;
    if k < n {
      ReplicateAllBlocks(filesystem, init, options, k);
      MulMonotonic(k + 1, n, b);
      SliceOfFirst(front, last, k * b, (k + 1) * b);
      assert init[k] == destinations[k];
    } else {
      assert (front + last)[n * b..(n + 1) * b] == last;
    }
  }

  /** With neither count an integer no `zsnap` is run for the tier: only the
      replications, if any, remain. */
  lemma NoCountNoSnapshot(tier: string, filesystem: string, properties: map<string, PropValue>, options: Options)
    requires IntProperty(properties, SnapshotsProperty(tier)).None?
    requires IntProperty(properties, SnapshotLimitProperty(tier)).None?
    ensures var d := Decide(tier, filesystem, properties);
            && !d.takeSnapshot && d.keep.None?
            && Plan(tier, filesystem, options, d) == ReplicateAll(filesystem, d.destinations, options)
  {
  }

  /** The `zsnap` of the tier comes first, keeps the decided number and takes
      a snapshot exactly when decided; the replications follow it. */
  lemma PlanSnapshotFirst(tier: string, filesystem: string, properties: map<string, PropValue>, options: Options)
    requires Decide(tier, filesystem, properties).keep.Some?
    ensures var d := Decide(tier, filesystem, properties);
            var cs := Plan(tier, filesystem, options, d);
            && |cs| >= 1
            && cs[0][0] == "zsnap" && ParseInt(cs[0][2]) == Some(d.keep.value)
            && cs[0][4] == options.prefix + tier + "-"
            && (NoUserNoSnapshot(filesystem, options) ==> ("--nosnapshot" in cs[0] <==> !d.takeSnapshot))
            && cs[1..] == ReplicateAll(filesystem, d.destinations, options)
  {
    var d := Decide(tier, filesystem, properties);
    SnapshotArgsMeaning(tier, filesystem, d.takeSnapshot, d.keep.value, options);
  }

  /** Replicating to the same destination `n` times issues `n` blocks, each
      ending with a `zreplicate` to that destination. */
  lemma ReplicateAllToOne(filesystem: string, destinations: seq<string>, destination: string, options: Options, k: nat)
    requires k < |destinations|
    requires forall i :: 0 <= i < |destinations| ==> destinations[i] == destination
    ensures var b := |DeleteTiers(options)| + 1;
            var all := ReplicateAll(filesystem, destinations, options);
            && |all| == |destinations| * b
            && 0 <= k * b < (k + 1) * b <= |all|
            && all[k * b..(k + 1) * b] == ReplicateArgs(filesystem, destination, options)
            && ReplicatesTo(all[(k + 1) * b - 1], filesystem, destination)
  {
    var b := |DeleteTiers(options)| + 1;
    var all := ReplicateAll(filesystem, destinations, options);
    ReplicateAllLength(filesystem, destinations, options);
    ReplicateAllBlocks(filesystem, destinations, options, k);
    ReplicateArgsMeaning(filesystem, destination, options);
    MulSucc(k, b);
    MulMonotonic(0, k, b);
    var block := all[k * b..(k + 1) * b];
    assert all[(k + 1) * b - 1] == block[b - 1];
  }

  /** When replication is on, there is one block of `replicate` commands per
      comma-separated piece of `replica`, and every block ends with a
      `zreplicate` of the filesystem to the whole `replica` string. */
  lemma ReplicateToWholeReplica(tier: string, filesystem: string, properties: map<string, PropValue>, options: Options, k: nat)
    requires ReplicationEnabled(tier, properties)
    requires k <= Count(properties[ReplicaProperty].value, ',')
    ensures var d := Decide(tier, filesystem, properties);
            var replica := properties[ReplicaProperty].value;
            var b := |DeleteTiers(options)| + 1;
            var all := ReplicateAll(filesystem, d.destinations, options);
            && |all| == (Count(replica, ',') + 1) * b
            && 0 <= k * b < (k + 1) * b <= |all|
            && all[k * b..(k + 1) * b] == ReplicateArgs(filesystem, replica, options)
            && ReplicatesTo(all[(k + 1) * b - 1], filesystem, replica)
  {
    var destinations := Decide(tier, filesystem, properties).destinations;
    var replica := properties[ReplicaProperty].value;
    assert |destinations| == Count(replica, ',') + 1;
    ReplicateAllToOne(filesystem, destinations, replica, options, k);
  }

  /** A count that was received (propagated by replication) and not capped
      by a limit is kept but never triggers a new snapshot. */
  lemma ReceivedCountOnlyReaps(tier: string, filesystem: string, properties: map<string, PropValue>, n: int)
    requires SnapshotsProperty(tier) in properties
    requires properties[SnapshotsProperty(tier)].source == Received
    requires ParseInt(properties[SnapshotsProperty(tier)].value) == Some(n)
    requires SnapshotLimitProperty(tier) !in properties
    ensures var d := Decide(tier, filesystem, properties);
            !d.takeSnapshot && d.keep == Some(n) && d.warnings == []
  {
    assert properties[SnapshotsProperty(tier)].value != "none" by {
      assert ParseInt("none") == None;
    }
  }

  /** A limit that is an integer decides the count kept, whatever the count
      property says and whether or not a snapshot is taken. */
  lemma LimitOverridesCount(tier: string, filesystem: string, properties: map<string, PropValue>, limit: int)
    requires IntProperty(properties, SnapshotLimitProperty(tier)) == Some(limit)
    ensures Decide(tier, filesystem, properties).keep == Some(limit)
  {
  }

  /** A property whose value is `none` weighs exactly as much as an absent
      one: removing it changes nothing in the decision. */
  lemma NoneIsAbsent(tier: string, filesystem: string, properties: map<string, PropValue>, name: string)
    requires name in properties && properties[name].value == "none"
    ensures Decide(tier, filesystem, properties) == Decide(tier, filesystem, properties - {name})
  {
    var without := properties - {name};
    forall other | true
      ensures PropertyHasValue(properties, other) == PropertyHasValue(without, other)
      ensures PropertyHasValue(properties, other) ==> properties[other] == without[other]
    {
    }
    assert ReplicationEnabled(tier, properties) == ReplicationEnabled(tier, without);
    assert PropertyIntValueOrNone(filesystem, properties, SnapshotsProperty(tier))
        == PropertyIntValueOrNone(filesystem, without, SnapshotsProperty(tier));
    assert PropertyIntValueOrNone(filesystem, properties, SnapshotLimitProperty(tier))
        == PropertyIntValueOrNone(filesystem, without, SnapshotLimitProperty(tier));
  }
}
