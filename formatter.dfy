/** `format_backup_properties`: the effective policy of one filesystem, for
    `--list`. Local properties are shown as they are; a received or
    inherited `<tier>-snapshots` or `<tier>-snapshot-limit` stands in for the
    tier's `<tier>-snapshot-limit` when that is not set locally; the result
    is one `name=value` token per name, sorted, with `replica` and
    `replicate` last.

    The input is the filesystem's dictionary in its iteration order, which
    decides which of two non-local properties of one tier supplies the
    default: the first one met. */
module Formatter {
  import opened Wrappers
  import opened Strings
  import opened Names
  import opened Properties

  /** The local entries, in the order met. */
  function LocalPart(order: seq<string>, entries: map<string, PropValue>): (d: PropertyDict)
    requires forall k :: k in order ==> k in entries
    ensures d.Valid()
    ensures forall k :: k in d.entries <==> k in order && entries[k].source == Local
    ensures forall k :: k in d.entries ==> d.entries[k] == entries[k]
  {
    if |order| == 0 then Empty()
    else
      var before := LocalPart(order[..|order| - 1], entries);
      var name := order[|order| - 1];
      if entries[name].source == Local then Insert(before, name, entries[name]) else before
  }

  /** The received and inherited entries, in the order met. */
  function NonLocalPart(order: seq<string>, entries: map<string, PropValue>): (d: PropertyDict)
    requires forall k :: k in order ==> k in entries
    ensures d.Valid()
    ensures forall k :: k in d.entries <==> k in order && entries[k].source != Local
    ensures forall k :: k in d.entries ==> d.entries[k] == entries[k]
  {
    if |order| == 0 then Empty()
    else
      var before := NonLocalPart(order[..|order| - 1], entries);
      var name := order[|order| - 1];
      if entries[name].source != Local then Insert(before, name, entries[name]) else before
  }

  /** The names of `order` whose source is local (when `local`) or not (when
      `!local`), in the order met. */
  function WithSource(order: seq<string>, entries: map<string, PropValue>, local: bool): seq<string>
    requires forall k :: k in order ==> k in entries
    decreases |order|
  {
    if |order| == 0 then []
    else if (entries[order[0]].source == Local) == local then [order[0]] + WithSource(order[1..], entries, local)
    else WithSource(order[1..], entries, local)
  }

  /** Filtering a longer list keeps the filtered shorter list and adds the
      last name when it passes. */
  lemma {:induction false} WithSourceSnoc(order: seq<string>, entries: map<string, PropValue>, local: bool)
    requires |order| > 0
    requires forall k :: k in order ==> k in entries
    ensures var name := order[|order| - 1];
            WithSource(order, entries, local)
            == WithSource(order[..|order| - 1], entries, local)
               + (if (entries[name].source == Local) == local then [name] else [])
    decreases |order|
  {
    if |order| > 1 {
      WithSourceSnoc(order[1..], entries, local);
      assert order[1..][..|order| - 2] == order[..|order| - 1][1..];
    }
  }

  /** Each part lists its names in the order of the whole dictionary. */
  lemma {:induction false} PartsOrder(order: seq<string>, entries: map<string, PropValue>)
    requires forall k :: k in order ==> k in entries
    requires forall i, j :: 0 <= i < j < |order| ==> order[i] != order[j]
    ensures LocalPart(order, entries).order == WithSource(order, entries, true)
    ensures NonLocalPart(order, entries).order == WithSource(order, entries, false)
    decreases |order|
  {
    if |order| > 0 {
      var n := |order| - 1;
      var init := order[..n];
      PartsOrder(init, entries);
      WithSourceSnoc(order, entries, true);
      WithSourceSnoc(order, entries, false);
      assert order[n] !in init;
    }
  }

  /** `name` is a tier property whose tier's limit property is `k`. */
  predicate SuppliesDefault(name: string, k: string)
  {
    SnapshotTier(name).Some? && SnapshotLimitProperty(SnapshotTier(name).value) == k
  }

  /** The second loop: each non-local tier property, in order, fills in its
      tier's limit when that is still missing. */
  function Defaults(shown: PropertyDict, names: seq<string>, nonLocal: map<string, PropValue>): (d: PropertyDict)
    requires shown.Valid()
    requires forall k :: k in names ==> k in nonLocal
    ensures d.Valid()
  {
    if |names| == 0 then shown
    else
      var before := Defaults(shown, names[..|names| - 1], nonLocal);
      var name := names[|names| - 1];
      match SnapshotTier(name)
      case None => before
      case Some(tier) =>
        if SnapshotLimitProperty(tier) in before.entries then before
        else Insert(before, SnapshotLimitProperty(tier), nonLocal[name])
  }

  /** Some name in `names` supplies `k`. */
  predicate Supplied(names: seq<string>, k: string)
  {
    exists i :: 0 <= i < |names| && SuppliesDefault(names[i], k)
  }

  /** `names[i]` supplies `k`, and no earlier name does. */
  predicate FirstSupplies(names: seq<string>, i: int, k: string)
  {
    0 <= i < |names| && SuppliesDefault(names[i], k) && !Supplied(names[..i], k)
  }

  lemma SuppliedSnoc(names: seq<string>, k: string)
    requires |names| > 0
    ensures Supplied(names, k) <==>
            Supplied(names[..|names| - 1], k) || SuppliesDefault(names[|names| - 1], k)
  {
    var n := |names| - 1;
    if Supplied(names, k) {
      SuppliedInit(names, k);
    }
    if Supplied(names[..n], k) {
      SuppliedExtend(names, n, k);
    }
  }

  lemma SuppliedInit(names: seq<string>, k: string)
    requires |names| > 0 && Supplied(names, k)
    ensures Supplied(names[..|names| - 1], k) || SuppliesDefault(names[|names| - 1], k)
  {
    var i :| 0 <= i < |names| && SuppliesDefault(names[i], k);
    if i < |names| - 1 {
      assert names[..|names| - 1][i] == names[i];
    }
  }

  lemma SuppliedExtend(names: seq<string>, n: nat, k: string)
    requires n <= |names| && Supplied(names[..n], k)
    ensures Supplied(names, k)
  {
    var i :| 0 <= i < n && SuppliesDefault(names[..n][i], k);
    assert names[..n][i] == names[i];
  }

  /** One step of the defaults loop. */
  lemma DefaultsStep(shown: PropertyDict, names: seq<string>, nonLocal: map<string, PropValue>, k: string)
    requires shown.Valid()
    requires forall n :: n in names ==> n in nonLocal
    requires |names| > 0
    ensures var before := Defaults(shown, names[..|names| - 1], nonLocal);
            var after := Defaults(shown, names, nonLocal);
            && (k in after.entries <==> k in before.entries || SuppliesDefault(names[|names| - 1], k))
            && (k in before.entries ==> after.entries[k] == before.entries[k])
            && (k !in before.entries && k in after.entries ==> after.entries[k] == nonLocal[names[|names| - 1]])
  {
  }

  /** A name is shown exactly when it was shown before the defaults, or some
      non-local tier property supplies it; shown names keep their values. */
  lemma {:induction false} DefaultsPresent(shown: PropertyDict, names: seq<string>, nonLocal: map<string, PropValue>, k: string)
    requires shown.Valid()
    requires forall n :: n in names ==> n in nonLocal
    ensures k in Defaults(shown, names, nonLocal).entries <==> k in shown.entries || Supplied(names, k)
    ensures k in shown.entries ==> Defaults(shown, names, nonLocal).entries[k] == shown.entries[k]
    decreases |names|
  {
    if |names| > 0 {
      DefaultsPresent(shown, names[..|names| - 1], nonLocal, k);
      DefaultsStep(shown, names, nonLocal, k);
      SuppliedSnoc(names, k);
    }
  }

  /** A name the defaults add takes the value of the FIRST non-local tier
      property that supplies it. */
  lemma {:induction false} DefaultsFirstWins(shown: PropertyDict, names: seq<string>, nonLocal: map<string, PropValue>, k: string)
    requires shown.Valid()
    requires forall n :: n in names ==> n in nonLocal
    requires k !in shown.entries && k in Defaults(shown, names, nonLocal).entries
    ensures exists i :: FirstSupplies(names, i, k) && Defaults(shown, names, nonLocal).entries[k] == nonLocal[names[i]]
    decreases |names|
  {
    var n := |names| - 1;
    assert n >= 0;
    var init := names[..n];
    DefaultsPresent(shown, init, nonLocal, k);
    DefaultsStep(shown, names, nonLocal, k);
    var after := Defaults(shown, names, nonLocal);
    if k in Defaults(shown, init, nonLocal).entries {
      DefaultsFirstWins(shown, init, nonLocal, k);
      var i :| FirstSupplies(init, i, k) && Defaults(shown, init, nonLocal).entries[k] == nonLocal[init[i]];
      assert names[i] == init[i] && names[..i] == init[..i];
      assert FirstSupplies(names, i, k) && after.entries[k] == nonLocal[names[i]];
    } else {
      assert names[..n] == init;
      assert FirstSupplies(names, n, k) && after.entries[k] == nonLocal[names[n]];
    }
  }

  /** The dictionary `local_and_defaults` that the formatter shows. */
  function Merged(props: PropertyDict): (d: PropertyDict)
    requires props.Valid()
    ensures d.Valid()
  {
    var nonLocal := NonLocalPart(props.order, props.entries);
    Defaults(LocalPart(props.order, props.entries), nonLocal.order, nonLocal.entries)
  }

  /** `replica` and `replicate`, the names listed last. */
  predicate IsReplicaName(name: string)
  {
    name == ReplicaProperty || name == ReplicateProperty
  }

  /** The names other than `replica` and `replicate`, in order. */
  function OtherNames(names: seq<string>): (r: seq<string>)
    ensures forall i :: 0 <= i < |r| ==> !IsReplicaName(r[i])
    ensures forall x :: x in r ==> x in names
  {
    if |names| == 0 then []
    else if IsReplicaName(names[0]) then OtherNames(names[1..])
    else [names[0]] + OtherNames(names[1..])
  }

  /** `replica` and `replicate` where present, in order. */
  function ReplicaNames(names: seq<string>): (r: seq<string>)
    ensures forall i :: 0 <= i < |r| ==> IsReplicaName(r[i])
    ensures forall x :: x in r ==> x in names
  {
    if |names| == 0 then []
    else if IsReplicaName(names[0]) then [names[0]] + ReplicaNames(names[1..])
    else ReplicaNames(names[1..])
  }

  /** The two selections together keep every name. */
  lemma {:induction false} NamesPartition(names: seq<string>)
    ensures multiset(OtherNames(names)) + multiset(ReplicaNames(names)) == multiset(names)
    decreases |names|
  {
    if |names| > 0 {
      NamesPartition(names[1..]);
      assert names == [names[0]] + names[1..];
    }
  }

  /** Every later name of a sorted list is at least its first. */
  lemma SortedHead(names: seq<string>, x: string)
    requires Sorted(names) && |names| > 0 && x in names[1..]
    ensures LexLe(names[0], x)
  {
    var m :| 0 <= m < |names[1..]| && names[1..][m] == x;
    assert names[m + 1] == x;
  }

  /** Selecting from a sorted list leaves it sorted. */
  lemma {:induction false} OtherNamesSorted(names: seq<string>)
    requires Sorted(names)
    ensures Sorted(OtherNames(names))
    decreases |names|
  {
    if |names| > 0 {
      var rest := names[1..];
      assert Sorted(rest) by {
        forall i, j | 0 <= i < j < |rest| ensures LexLe(rest[i], rest[j]) {
          assert rest[i] == names[i + 1] && rest[j] == names[j + 1];
        }
      }
      OtherNamesSorted(rest);
      if !IsReplicaName(names[0]) {
        var r := OtherNames(names);
        var tail := OtherNames(rest);
        forall i, j | 0 <= i < j < |r| ensures LexLe(r[i], r[j]) {
          if i == 0 {
            assert r[j] == tail[j - 1];
            SortedHead(names, r[j]);
          } else {
            assert r[i] == tail[i - 1] && r[j] == tail[j - 1];
          }
        }
      }
    }
  }

  /** Selecting from a sorted list leaves it sorted. */
  lemma {:induction false} ReplicaNamesSorted(names: seq<string>)
    requires Sorted(names)
    ensures Sorted(ReplicaNames(names))
    decreases |names|
  {
    if |names| > 0 {
      var rest := names[1..];
      assert Sorted(rest) by {
        forall i, j | 0 <= i < j < |rest| ensures LexLe(rest[i], rest[j]) {
          assert rest[i] == names[i + 1] && rest[j] == names[j + 1];
        }
      }
      ReplicaNamesSorted(rest);
      if IsReplicaName(names[0]) {
        var r := ReplicaNames(names);
        var tail := ReplicaNames(rest);
        forall i, j | 0 <= i < j < |r| ensures LexLe(r[i], r[j]) {
          if i == 0 {
            assert r[j] == tail[j - 1];
            SortedHead(names, r[j]);
          } else {
            assert r[i] == tail[i - 1] && r[j] == tail[j - 1];
          }
        }
      }
    }
  }

  /** The names shown, in the order shown: the sorted names without
      `replica` and `replicate`, then the sorted names that are. */
  function TokenNames(d: PropertyDict): seq<string>
  {
    var sorted := Sort(d.order);
    OtherNames(sorted) + ReplicaNames(sorted)
  }

  /** The names shown are the dictionary's names, each as often as listed;
      first the others in sorted order, then `replica` and `replicate` in
      sorted order. */
  lemma TokenNamesOrder(d: PropertyDict)
    ensures var names := TokenNames(d);
            var p := |OtherNames(Sort(d.order))|;
            && multiset(names) == multiset(d.order)
            && p <= |names|
            && Sorted(names[..p]) && Sorted(names[p..])
            && (forall i :: 0 <= i < p ==> !IsReplicaName(names[i]))
            && (forall i :: p <= i < |names| ==> IsReplicaName(names[i]))
  {
    var sorted := Sort(d.order);
    var others, replicas := OtherNames(sorted), ReplicaNames(sorted);
    var names := TokenNames(d);
    SortCorrect(d.order);
    NamesPartition(sorted);
    OtherNamesSorted(sorted);
    ReplicaNamesSorted(sorted);
    var p := |others|;
    assert names[..p] == others && names[p..] == replicas;
    assert names == others + replicas;
    forall i | p <= i < |names| ensures IsReplicaName(names[i]) {
      assert names[i] == replicas[i - p];
    }
  }

  /** Every name shown has an entry. */
  lemma TokenNamesPresent(d: PropertyDict)
    requires d.Valid()
    ensures forall n :: n in TokenNames(d) ==> n in d.entries
  {
    TokenNamesOrder(d);
    forall n | n in TokenNames(d) ensures n in d.entries {
      assert n in multiset(TokenNames(d));
    }
  }

  /** The `name=value` tokens of the names, in order. */
  function Tokens(d: PropertyDict, names: seq<string>): seq<string>
    requires forall n :: n in names ==> n in d.entries
  {
    seq(|names|, i requires 0 <= i < |names| => names[i] + "=" + d.entries[names[i]].value)
  }

  /** The line `format_backup_properties` returns. */
  function Format(props: PropertyDict): string
    requires props.Valid()
  {
    var shown := Merged(props);
    TokenNamesPresent(shown);
    Join(Tokens(shown, TokenNames(shown)), ' ')
  }

  /** One more name extends the local or the non-local part. */
  lemma PartsStep(props: PropertyDict, i: nat)
    requires props.Valid() && i < |props.order|
    ensures var name := props.order[i];
            var prefix := props.order[..i];
            && LocalPart(props.order[..i + 1], props.entries)
               == (if props.entries[name].source == Local
                   then Insert(LocalPart(prefix, props.entries), name, props.entries[name])
                   else LocalPart(prefix, props.entries))
            && NonLocalPart(props.order[..i + 1], props.entries)
               == (if props.entries[name].source != Local
                   then Insert(NonLocalPart(prefix, props.entries), name, props.entries[name])
                   else NonLocalPart(prefix, props.entries))
  {
    assert props.order[..i + 1][..i] == props.order[..i];
  }

  /** The first loop: local properties to one dictionary, the others to a
      second, each in the order met. */
  method SplitBySource(props: PropertyDict) returns (local: PropertyDict, nonLocal: PropertyDict)
    requires props.Valid()
    ensures local == LocalPart(props.order, props.entries)
    ensures nonLocal == NonLocalPart(props.order, props.entries)
  {
    local := Empty();
    nonLocal := Empty();
    var i := 0;
    while i < |props.order|
      invariant 0 <= i <= |props.order|
      invariant local == LocalPart(props.order[..i], props.entries)
      invariant nonLocal == NonLocalPart(props.order[..i], props.entries)
    {
      var name := props.order[i];
      PartsStep(props, i);
      if props.entries[name].source == Local {
        local := Insert(local, name, props.entries[name]);
      } else {
        nonLocal := Insert(nonLocal, name, props.entries[name]);
      }
      i := i + 1;
    }
    assert props.order[..i] == props.order;
  }

  /** The second loop: each non-local tier property, in order, supplies its
      tier's limit unless the dictionary already holds it. */
  method AddDefaults(shown: PropertyDict, nonLocal: PropertyDict) returns (d: PropertyDict)
    requires shown.Valid() && nonLocal.Valid()
    ensures d == Defaults(shown, nonLocal.order, nonLocal.entries)
  {
    d := shown;
    var j := 0;
    while j < |nonLocal.order|
      invariant 0 <= j <= |nonLocal.order|
      invariant d == Defaults(shown, nonLocal.order[..j], nonLocal.entries)
    {
      var name := nonLocal.order[j];
      var snapshotTier: Option<string> := None;
      if EndsWith(name, SnapshotsSuffix) {
        snapshotTier := Some(DropSuffix(name, SnapshotsSuffix));
      } else if EndsWith(name, SnapshotLimitSuffix) {
        snapshotTier := Some(DropSuffix(name, SnapshotLimitSuffix));
      }
      if snapshotTier.Some? && SnapshotLimitProperty(snapshotTier.value) !in d.entries {
        d := Insert(d, SnapshotLimitProperty(snapshotTier.value), nonLocal.entries[name]);
      }
      assert nonLocal.order[..j + 1][..j] == nonLocal.order[..j];
      j := j + 1;
    }
    assert nonLocal.order[..j] == nonLocal.order;
  }

  /** `format_backup_properties`: build the dictionary shown, then join its
      sorted `name=value` tokens with single spaces. */
  method FormatBackupProperties(props: PropertyDict) returns (line: string)
    requires props.Valid()
    ensures line == Format(props)
  {
    var local, nonLocal := SplitBySource(props);
    var localAndDefaults := AddDefaults(local, nonLocal);
    var names := TokenNames(localAndDefaults);
    TokenNamesPresent(localAndDefaults);
    line := Join(Tokens(localAndDefaults, names), ' ');
  }

  /** A locally set property is shown with its own value: in particular a
      local `<tier>-snapshot-limit` is never replaced by a default. */
  lemma LocalShownUnchanged(props: PropertyDict, k: string)
    requires props.Valid()
    requires k in props.entries && props.entries[k].source == Local
    ensures k in Merged(props).entries && Merged(props).entries[k] == props.entries[k]
  {
    var nonLocal := NonLocalPart(props.order, props.entries);
    DefaultsPresent(LocalPart(props.order, props.entries), nonLocal.order, nonLocal.entries, k);
  }

  /** The non-local tier properties that supply `k` are those of the
      non-local part. */
  lemma SuppliedByNonLocal(props: PropertyDict, k: string)
    requires props.Valid()
    ensures Supplied(NonLocalPart(props.order, props.entries).order, k) <==>
            exists name :: name in props.entries && props.entries[name].source != Local && SuppliesDefault(name, k)
  {
    var nonLocal := NonLocalPart(props.order, props.entries);
    if Supplied(nonLocal.order, k) {
      var i :| 0 <= i < |nonLocal.order| && SuppliesDefault(nonLocal.order[i], k);
      assert nonLocal.order[i] in nonLocal.entries;
    }
    if exists name :: name in props.entries && props.entries[name].source != Local && SuppliesDefault(name, k) {
      var name :| name in props.entries && props.entries[name].source != Local && SuppliesDefault(name, k);
      assert name in nonLocal.entries;
      var i :| 0 <= i < |nonLocal.order| && nonLocal.order[i] == name;
    }
  }

  /** A name is shown exactly when it is set locally, or it is the limit
      property of the tier of some non-local tier property. */
  lemma MergedNames(props: PropertyDict, k: string)
    requires props.Valid()
    ensures k in Merged(props).entries <==>
            || (k in props.entries && props.entries[k].source == Local)
            || exists name :: name in props.entries && props.entries[name].source != Local && SuppliesDefault(name, k)
  {
    var nonLocal := NonLocalPart(props.order, props.entries);
    DefaultsPresent(LocalPart(props.order, props.entries), nonLocal.order, nonLocal.entries, k);
    SuppliedByNonLocal(props, k);
  }

  /** A name shown but not set locally takes the value of the first
      non-local tier property, in iteration order, whose tier it is the
      limit of. */
  lemma DefaultFromFirstNonLocal(props: PropertyDict, k: string)
    requires props.Valid()
    requires k in Merged(props).entries
    requires !(k in props.entries && props.entries[k].source == Local)
    ensures forall n :: n in NonLocalPart(props.order, props.entries).order ==> n in props.entries
    ensures var nonLocal := NonLocalPart(props.order, props.entries);
            exists i :: FirstSupplies(nonLocal.order, i, k) && Merged(props).entries[k] == props.entries[nonLocal.order[i]]
  {
    var nonLocal := NonLocalPart(props.order, props.entries);
    var local := LocalPart(props.order, props.entries);
    assert k !in local.entries;
    DefaultsFirstWins(local, nonLocal.order, nonLocal.entries, k);
    var i :| FirstSupplies(nonLocal.order, i, k)
        && Defaults(local, nonLocal.order, nonLocal.entries).entries[k] == nonLocal.entries[nonLocal.order[i]];
    assert nonLocal.order[i] in nonLocal.entries;
    assert Merged(props) == Defaults(local, nonLocal.order, nonLocal.entries);
    assert Merged(props).entries[k] == props.entries[nonLocal.order[i]];
  }

  /** Only a `-snapshot-limit` name can be supplied as a default. */
  lemma SuppliedIsLimit(name: string, k: string)
    ensures SuppliesDefault(name, k) ==> EndsWith(k, SnapshotLimitSuffix)
  {
  }

  /** A received or inherited `replica`, `replicate` or `<tier>-snapshots`
      is never shown under its own name. */
  lemma NonLocalHidden(props: PropertyDict, name: string)
    requires props.Valid()
    requires name in props.entries && props.entries[name].source != Local
    requires IsReplicaName(name) || EndsWith(name, SnapshotsSuffix)
    ensures name !in Merged(props).entries
  {
    MergedNames(props, name);
    SuffixesExclusive(name);
    forall other ensures !SuppliesDefault(other, name) {
      SuppliedIsLimit(other, name);
    }
  }

  /** Over local entries listed once each, the local part keeps their order. */
  lemma {:induction false} LocalPartAllLocal(order: seq<string>, entries: map<string, PropValue>)
    requires forall k :: k in order ==> k in entries && entries[k].source == Local
    requires forall i, j :: 0 <= i < j < |order| ==> order[i] != order[j]
    ensures LocalPart(order, entries).order == order
    decreases |order|
  {
    if |order| > 0 {
      var n := |order| - 1;
      var init := order[..n];
      assert order == init + [order[n]];
      assert forall i, j :: 0 <= i < j < |init| ==> init[i] != init[j];
      LocalPartAllLocal(init, entries);
      var before := LocalPart(init, entries);
      assert order[n] !in init;
      assert order[n] !in before.entries;
      assert LocalPart(order, entries) == Insert(before, order[n], entries[order[n]]);
    }
  }

  /** The first name a dictionary lists has an entry. */
  lemma ListedHaveEntries(d: PropertyDict)
    requires d.Valid()
    ensures |d.order| > 0 ==> d.order[0] in d.entries
  {
  }

  /** Without non-local properties the non-local part is empty. */
  lemma AllLocalNoNonLocal(props: PropertyDict)
    requires props.Valid()
    requires forall k :: k in props.entries ==> props.entries[k].source == Local
    ensures NonLocalPart(props.order, props.entries).order == []
  {
    var nonLocal := NonLocalPart(props.order, props.entries);
    ListedHaveEntries(nonLocal);
    assert forall k :: k !in nonLocal.entries;
  }

  /** A name of a local part is a name of its input, and the reverse for
      local names. */
  lemma LocalPartNames(order: seq<string>, entries: map<string, PropValue>, k: string)
    requires forall n :: n in order ==> n in entries
    ensures k in LocalPart(order, entries).entries <==> k in order && entries[k].source == Local
    ensures k in LocalPart(order, entries).entries ==> LocalPart(order, entries).entries[k] == entries[k]
  {
  }

  /** Without non-local properties the local part holds every entry. */
  lemma AllLocalEntries(props: PropertyDict)
    requires props.Valid()
    requires forall k :: k in props.entries ==> props.entries[k].source == Local
    ensures LocalPart(props.order, props.entries).entries == props.entries
  {
    var shown := LocalPart(props.order, props.entries).entries;
    forall k ensures (k in shown <==> k in props.entries) && (k in shown ==> shown[k] == props.entries[k]) {
      LocalPartNames(props.order, props.entries, k);
    }
  }

  /** When every property is local, the formatter shows them as they are. */
  lemma AllLocalShownAsIs(props: PropertyDict)
    requires props.Valid()
    requires forall k :: k in props.entries ==> props.entries[k].source == Local
    ensures Merged(props) == props
  {
    AllLocalNoNonLocal(props);
    AllLocalEntries(props);
    LocalPartAllLocal(props.order, props.entries);
    var nonLocal := NonLocalPart(props.order, props.entries);
    assert Merged(props) == Defaults(LocalPart(props.order, props.entries), [], nonLocal.entries);
  }
}
