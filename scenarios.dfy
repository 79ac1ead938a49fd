/** Concrete filesystems run through the reader, the decision engine and
    the formatter. */
module Scenarios {
  import opened Wrappers
  import opened Strings
  import opened Integers
  import opened Names
  import opened Properties
  import opened Reader
  import opened Values
  import opened Engine
  import opened Formatter

  /** A locally set count with no limit: take a snapshot and keep 7. */
  lemma LocalCountTakesSnapshot()
    ensures var d := Decide("daily", "tank/home", map["daily-snapshots" := PropValue("7", Local)]);
            d.takeSnapshot && d.keep == Some(7) && d.destinations == [] && d.warnings == []
  {
    assert SnapshotsProperty("daily") == "daily-snapshots";
    assert SnapshotLimitProperty("daily") == "daily-snapshot-limit";
    assert ParseInt("7") == Some(7);
  }

  /** The lines `zfs get` prints for a received count and an inherited
      limit. */
  function ReceivedCountInheritedLimit(): seq<Record>
  {
    [Record("tank/home", Zprefixed("daily-snapshots"), "7", "received"),
     Record("tank/home", Zprefixed("daily-snapshot-limit"), "3", "inherited from tank")]
  }

  /** The reader keeps the received count and drops the inherited limit. */
  lemma InheritedLimitNotRead()
    ensures var properties := ReadProperties(ReceivedCountInheritedLimit());
            && "tank/home" in properties
            && properties["tank/home"].entries == map["daily-snapshots" := PropValue("7", Received)]
  {
    var lines := ReceivedCountInheritedLimit();
    var r0, r1 := lines[0], lines[1];
    PrefixRoundTrip("daily-snapshots");
    PrefixRoundTrip("daily-snapshot-limit");
    assert lines[..1] == [r0] && [r0][..0] == [];
    var first := ReadProperties([r0]);
    assert ReadProperties([r0][..0]) == map[];
    assert first == Step(map[], r0);
    assert first == map["tank/home" := Insert(Empty(), "daily-snapshots", PropValue("7", Received))];
    assert NormalizeSource("inherited from tank") == Inherited;
    assert ReadProperties(lines) == Step(first, r1) == first;
  }

  /** A received count and an inherited limit: since the limit is not read,
      the received count is kept and no snapshot is taken. */
  lemma InheritedLimitIgnored()
    ensures var properties := ReadProperties(ReceivedCountInheritedLimit());
            && "tank/home" in properties
            && var d := Decide("daily", "tank/home", properties["tank/home"].entries);
               !d.takeSnapshot && d.keep == Some(7)
  {
    InheritedLimitNotRead();
    ReceivedCountAlone();
  }

  /** A received `daily-snapshots=7` alone keeps 7 and takes no snapshot. */
  lemma ReceivedCountAlone()
    ensures var d := Decide("daily", "tank/home", map["daily-snapshots" := PropValue("7", Received)]);
            !d.takeSnapshot && d.keep == Some(7)
  {
    assert SnapshotsProperty("daily") == "daily-snapshots";
    assert SnapshotLimitProperty("daily") == "daily-snapshot-limit";
    assert ParseInt("7") == Some(7);
  }

  /** `replicate=daily` and `replica=backup/pool`, both local: one
      replication, to `backup/pool`. */
  lemma LocalReplicationOneTarget()
    ensures var properties := map[ReplicateProperty := PropValue("daily", Local),
                                  ReplicaProperty := PropValue("backup/pool", Local)];
            Decide("daily", "tank/home", properties).destinations == ["backup/pool"]
  {
    var properties := map[ReplicateProperty := PropValue("daily", Local),
                          ReplicaProperty := PropValue("backup/pool", Local)];
    assert properties[ReplicaProperty].value == "backup/pool";
    assert ReplicationEnabled("daily", properties);
    SplitNoSeparator("backup/pool", ',');
    var d := Decide("daily", "tank/home", properties);
    assert |d.destinations| == 1 && d.destinations[0] == "backup/pool";
  }

  /** The same `replicate=daily`, but received: no replication. */
  lemma ReceivedReplicateIgnored()
    ensures var properties := map[ReplicateProperty := PropValue("daily", Received),
                                  ReplicaProperty := PropValue("backup/pool", Local)];
            Decide("daily", "tank/home", properties).destinations == []
  {
  }

  /** `replicate=yes` does not switch on replication of tier `daily`: the
      value must be the tier's name. */
  lemma ReplicateValueMustBeTier()
    ensures var properties := map[ReplicateProperty := PropValue("yes", Local),
                                  ReplicaProperty := PropValue("backup/pool", Local)];
            Decide("daily", "tank/home", properties).destinations == []
  {
  }

  /** `replica=a/x,b/y`: two replications, each to the whole string
      `a/x,b/y`. */
  lemma TwoPiecesReplicateWholeStringTwice()
    ensures var properties := map[ReplicateProperty := PropValue("daily", Local),
                                  ReplicaProperty := PropValue("a/x,b/y", Local)];
            Decide("daily", "tank/home", properties).destinations == ["a/x,b/y", "a/x,b/y"]
  {
    assert Count("a/x,b/y", ',') == 1;
  }

  /** `daily-snapshots=seven`: reported as badly formed, and nothing kept. */
  lemma MalformedCountReported()
    ensures var d := Decide("daily", "tank/home", map["daily-snapshots" := PropValue("seven", Local)]);
            && !d.takeSnapshot && d.keep == None
            && d.warnings == [Malformed("tank/home", "daily-snapshots", PropValue("seven", Local))]
  {
    assert SnapshotsProperty("daily") == "daily-snapshots";
    assert SnapshotLimitProperty("daily") == "daily-snapshot-limit";
    assert !IsDigit('s');
    assert ParseInt("seven") == None;
  }

  /** A filesystem whose count for `tier` and whose replica are both
      received. */
  function ReceivedCountAndReplica(tier: string, count: string, replica: string): (props: PropertyDict)
    ensures props.Valid()
  {
    assert SnapshotsProperty(tier) != ReplicaProperty by {
      EndsWithLast(ReplicaProperty, SnapshotsSuffix);
    }
    PropertyDict([SnapshotsProperty(tier), ReplicaProperty],
                 map[SnapshotsProperty(tier) := PropValue(count, Received),
                     ReplicaProperty := PropValue(replica, Received)])
  }

  /** Neither property is local. */
  lemma ReceivedCountAndReplicaSplit(tier: string, count: string, replica: string)
    ensures var props := ReceivedCountAndReplica(tier, count, replica);
            LocalPart(props.order, props.entries) == Empty()
            && NonLocalPart(props.order, props.entries) == props
  {
    var props := ReceivedCountAndReplica(tier, count, replica);
    var name := SnapshotsProperty(tier);
    assert props.order[..1] == [name] && props.order[..1][..0] == [];
    assert LocalPart([], props.entries) == Empty();
    assert LocalPart([name], props.entries) == Empty();
    var first := Insert(Empty(), name, props.entries[name]);
    assert NonLocalPart([], props.entries) == Empty();
    assert NonLocalPart([name], props.entries) == first;
    assert NonLocalPart(props.order, props.entries) == Insert(first, ReplicaProperty, props.entries[ReplicaProperty]);
  }

  /** The received count supplies the tier's limit; the replica nothing. */
  lemma ReceivedCountAndReplicaDefaults(tier: string, count: string, replica: string)
    ensures var props := ReceivedCountAndReplica(tier, count, replica);
            var limit := SnapshotLimitProperty(tier);
            Defaults(Empty(), props.order, props.entries)
            == PropertyDict([limit], map[limit := PropValue(count, Received)])
  {
    var props := ReceivedCountAndReplica(tier, count, replica);
    var name := SnapshotsProperty(tier);
    assert props.order[..1] == [name] && props.order[..1][..0] == [];
    SnapshotTierInverse(name, tier);
    assert SnapshotTier(ReplicaProperty) == None;
    assert Defaults(Empty(), [], props.entries) == Empty();
    assert Defaults(Empty(), [name], props.entries)
        == Insert(Empty(), SnapshotLimitProperty(tier), PropValue(count, Received));
  }

  /** Only the tier's limit is shown. */
  lemma ReceivedCountAndReplicaShown(tier: string, count: string, replica: string)
    ensures var shown := Merged(ReceivedCountAndReplica(tier, count, replica));
            var limit := SnapshotLimitProperty(tier);
            && shown == PropertyDict([limit], map[limit := PropValue(count, Received)])
            && TokenNames(shown) == [limit]
  {
    var props := ReceivedCountAndReplica(tier, count, replica);
    ReceivedCountAndReplicaSplit(tier, count, replica);
    ReceivedCountAndReplicaDefaults(tier, count, replica);
    assert Merged(props) == Defaults(Empty(), props.order, props.entries);
    var limit := SnapshotLimitProperty(tier);
    assert Sort([limit]) == [limit] by {
      assert [limit][1..] == [];
    }
    assert !IsReplicaName(limit) by {
      EndsWithLast(ReplicaProperty, SnapshotLimitSuffix);
      EndsWithLast(ReplicateProperty, SnapshotLimitSuffix);
    }
    assert OtherNames([limit]) == [limit] && ReplicaNames([limit]) == [] by {
      assert [limit][1..] == [];
    }
  }

  /** A received count and a received replica: the count is shown as the
      tier's limit, the replica not at all. */
  lemma ReceivedCountShownAsLimit(tier: string, count: string, replica: string)
    ensures Format(ReceivedCountAndReplica(tier, count, replica)) == SnapshotLimitProperty(tier) + "=" + count
  {
    var shown := Merged(ReceivedCountAndReplica(tier, count, replica));
    var names := TokenNames(shown);
    ReceivedCountAndReplicaShown(tier, count, replica);
    TokenNamesPresent(shown);
    var tokens := Tokens(shown, names);
    assert |tokens| == 1 && tokens[0] == SnapshotLimitProperty(tier) + "=" + count;
  }
}
