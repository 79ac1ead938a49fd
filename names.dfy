/** The names of the ZFS user properties that drive zbackup: the module
    prefix that namespaces them, and the per-tier property names. */
module Names {
  import opened Wrappers
  import opened Strings

  /** The module part of every zbackup user property. */
  const ZbackupModule: string := "com.github.tesujimath.zbackup"
  /** How much of a prefixed name to skip: the module and the `:` after it. */
  const ZbackupModuleSkipLen: nat := |ZbackupModule| + 1

  const ReplicaProperty: string := "replica"
  const ReplicateProperty: string := "replicate"
  const SnapshotsSuffix: string := "-snapshots"
  const SnapshotLimitSuffix: string := "-snapshot-limit"

  /** `<module>:<prop>`. */
  function Zprefixed(prop: string): string
  {
    ZbackupModule + ":" + prop
  }

  predicate IsZprefixed(name: string)
  {
    StartsWith(name, ZbackupModule + ":")
  }

  /** The name with its first `ZbackupModuleSkipLen` characters cut off, as
      a Python slice does: empty when the name is shorter. */
  function Zunprefixed(name: string): string
  {
    if |name| < ZbackupModuleSkipLen then "" else name[ZbackupModuleSkipLen..]
  }

  /** Prefixing yields a prefixed name from which the bare name comes back. */
  lemma PrefixRoundTrip(prop: string)
    ensures IsZprefixed(Zprefixed(prop))
    ensures Zunprefixed(Zprefixed(prop)) == prop
  {
    assert Zprefixed(prop)[ZbackupModuleSkipLen..] == prop;
  }

  /** Every prefixed name is the prefixing of its bare name. */
  lemma UnprefixRoundTrip(name: string)
    requires IsZprefixed(name)
    ensures Zprefixed(Zunprefixed(name)) == name
  {
    assert name == name[..ZbackupModuleSkipLen] + name[ZbackupModuleSkipLen..];
  }

  /** `<tier>-snapshots`. */
  function SnapshotsProperty(tier: string): (name: string)
    ensures EndsWith(name, SnapshotsSuffix) && DropSuffix(name, SnapshotsSuffix) == tier
  {
    var name := tier + SnapshotsSuffix;
    assert name[|tier|..] == SnapshotsSuffix;
    name
  }

  /** `<tier>-snapshot-limit`. */
  function SnapshotLimitProperty(tier: string): (name: string)
    ensures EndsWith(name, SnapshotLimitSuffix) && DropSuffix(name, SnapshotLimitSuffix) == tier
  {
    var name := tier + SnapshotLimitSuffix;
    assert name[|tier|..] == SnapshotLimitSuffix;
    name
  }

  /** The bare names zbackup reads for one tier. */
  function ZbackupProperties(tier: string): seq<string>
  {
    [ReplicaProperty, ReplicateProperty, SnapshotsProperty(tier), SnapshotLimitProperty(tier)]
  }

  /** No name ends with both tier suffixes: they end in different letters. */
  lemma SuffixesExclusive(name: string)
    ensures !(EndsWith(name, SnapshotsSuffix) && EndsWith(name, SnapshotLimitSuffix))
  {
    EndsWithLast(name, SnapshotsSuffix);
    EndsWithLast(name, SnapshotLimitSuffix);
  }

  /** The four names read for a tier are pairwise different. */
  lemma ZbackupPropertiesDistinct(tier: string)
    ensures forall i, j :: 0 <= i < j < 4 ==> ZbackupProperties(tier)[i] != ZbackupProperties(tier)[j]
  {
    var snapshots, limit := SnapshotsProperty(tier), SnapshotLimitProperty(tier);
    SuffixesExclusive(snapshots);
    SuffixesExclusive(limit);
    assert !EndsWith(ReplicaProperty, SnapshotsSuffix) && !EndsWith(ReplicateProperty, SnapshotsSuffix);
    assert !EndsWith(ReplicaProperty, SnapshotLimitSuffix) && !EndsWith(ReplicateProperty, SnapshotLimitSuffix);
  }

  /** The tier a snapshot property belongs to: the name without its
      `-snapshots` suffix or, failing that, without its `-snapshot-limit`
      suffix; `None` for any other name. */
  function SnapshotTier(name: string): Option<string>
  {
    if EndsWith(name, SnapshotsSuffix) then Some(DropSuffix(name, SnapshotsSuffix))
    else if EndsWith(name, SnapshotLimitSuffix) then Some(DropSuffix(name, SnapshotLimitSuffix))
    else None
  }

  /** `SnapshotTier` inverts both tier property names, and recognises no other. */
  lemma SnapshotTierInverse(name: string, tier: string)
    ensures SnapshotTier(name) == Some(tier) <==>
            name == SnapshotsProperty(tier) || name == SnapshotLimitProperty(tier)
  {
    SuffixesExclusive(name);
    if SnapshotTier(name) == Some(tier) {
      if EndsWith(name, SnapshotsSuffix) {
        assert name == DropSuffix(name, SnapshotsSuffix) + SnapshotsSuffix;
      } else {
        assert name == DropSuffix(name, SnapshotLimitSuffix) + SnapshotLimitSuffix;
      }
    }
  }

  /** The tier property names of a tier determine the tier. */
  lemma SnapshotLimitPropertyInjective(t1: string, t2: string)
    requires SnapshotLimitProperty(t1) == SnapshotLimitProperty(t2)
    ensures t1 == t2
  {
    assert DropSuffix(SnapshotLimitProperty(t1), SnapshotLimitSuffix) == t1;
  }
}
