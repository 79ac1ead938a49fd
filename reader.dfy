/** The line filter of `get_backup_properties`: from the tab-separated lines
    that `zfs get -H` prints, the backup properties of each filesystem. The
    `zfs get` process itself, and its exit status, are outside the model: its
    output arrives as a sequence of lines. */
module Reader {
  import opened Wrappers
  import opened Strings
  import opened Names
  import opened Properties

  /** One output line of `zfs get -H`: filesystem, property, value, source. */
  datatype Record = Record(filesystem: string, property: string, value: string, source: string)

  /** `line.rstrip("\n").split("\t")` unpacked into four names; `None` where
      that unpacking raises `ValueError` (a line without exactly four fields). */
  function ParseLine(line: string): Option<Record>
  {
    var fields := Split(RStripNewlines(line), '\t');
    if |fields| == 4 then Some(Record(fields[0], fields[1], fields[2], fields[3])) else None
  }

  /** The line printed for a record parses back to that record. */
  lemma ParseLineRoundTrip(r: Record)
    requires '\t' !in r.filesystem && '\t' !in r.property && '\t' !in r.value && '\t' !in r.source
    requires '\n' !in r.filesystem && '\n' !in r.property && '\n' !in r.value && '\n' !in r.source
    ensures ParseLine(Join([r.filesystem, r.property, r.value, r.source], '\t') + "\n") == Some(r)
  {
    var fields := [r.filesystem, r.property, r.value, r.source];
    var line := Join(fields, '\t');
    JoinAvoids(fields, '\t', '\n');
    RStripOneNewline(line);
    SplitJoin(fields, '\t');
  }

  /** Every line parsed in order; `None` as soon as one line does not parse. */
  function ParseLines(lines: seq<string>): Option<seq<Record>>
  {
    if |lines| == 0 then Some([])
    else
      match ParseLines(lines[..|lines| - 1])
      case None => None
      case Some(records) =>
        match ParseLine(lines[|lines| - 1])
        case None => None
        case Some(r) => Some(records + [r])
  }

  /** When some line does not parse, the whole output does not. */
  lemma {:induction false} ParseLinesFails(lines: seq<string>, k: nat)
    requires k < |lines|
    requires ParseLine(lines[k]).None?
    ensures ParseLines(lines).None?
    decreases |lines|
  {
    if k < |lines| - 1 {
      ParseLinesFails(lines[..|lines| - 1], k);
    }
  }

  /** Any `inherited from <fs>` source collapses to `inherited`. */
  function NormalizeSource(source: string): string
  {
    if StartsWith(source, Inherited) then Inherited else source
  }

  /** Normalising never turns a source into, or out of, `local` or `received`. */
  lemma NormalizeKeepsDecisionSources(source: string)
    ensures var s := NormalizeSource(source);
            (s == Local || s == Received) <==> (source == Local || source == Received)
  {
    if StartsWith(source, Inherited) {
      assert source[0] == 'i';
    }
  }

  /** A line the filter keeps: a zbackup property, set locally or received. */
  predicate Kept(r: Record)
  {
    IsZprefixed(r.property) && (r.source == Local || r.source == Received)
  }

  /** A kept line that stores a value for bare property `bare` of `fs`. */
  predicate Stores(r: Record, fs: string, bare: string)
  {
    Kept(r) && r.value != "-" && r.filesystem == fs && Zunprefixed(r.property) == bare
  }

  /** A property set as the reader leaves it: no `-` values, and only `local`
      or `received` sources. */
  predicate Resolved(d: PropertyDict)
  {
    && d.Valid()
    && forall k :: k in d.entries ==>
         d.entries[k].value != "-" && (d.entries[k].source == Local || d.entries[k].source == Received)
  }

  predicate AllResolved(properties: map<string, PropertyDict>)
  {
    forall fs :: fs in properties ==> Resolved(properties[fs])
  }

  /** The effect of one line on the properties read so far. */
  function Step(properties: map<string, PropertyDict>, r: Record): (next: map<string, PropertyDict>)
    requires AllResolved(properties)
    ensures AllResolved(next)
  {
    if !IsZprefixed(r.property) then properties
    else
      var bare := Zunprefixed(r.property);
      var source := NormalizeSource(r.source);
      if source == Local || source == Received then
        var current := if r.filesystem in properties then properties[r.filesystem] else Empty();
        if r.value != "-" then properties[r.filesystem := Insert(current, bare, PropValue(r.value, source))]
        else properties[r.filesystem := current]
      else properties
  }

  /** The properties read from the records, line by line. */
  function ReadProperties(records: seq<Record>): (properties: map<string, PropertyDict>)
    ensures AllResolved(properties)
  {
    if |records| == 0 then map[]
    else Step(ReadProperties(records[..|records| - 1]), records[|records| - 1])
  }

  /** The value stored for `bare` on `fs`, if any. */
  function Lookup(properties: map<string, PropertyDict>, fs: string, bare: string): Option<PropValue>
  {
    if fs in properties && bare in properties[fs].entries then Some(properties[fs].entries[bare]) else None
  }

  /** One line creates the entry of its filesystem exactly when it is kept. */
  lemma StepFilesystems(properties: map<string, PropertyDict>, r: Record, fs: string)
    requires AllResolved(properties)
    ensures fs in Step(properties, r) <==> fs in properties || (r.filesystem == fs && Kept(r))
  {
    NormalizeKeepsDecisionSources(r.source);
  }

  /** One line stores a value exactly when it is a storing line, and then it
      replaces any earlier value. */
  lemma StepLookup(properties: map<string, PropertyDict>, r: Record, fs: string, bare: string)
    requires AllResolved(properties)
    ensures Lookup(Step(properties, r), fs, bare) ==
            if Stores(r, fs, bare) then Some(PropValue(r.value, r.source)) else Lookup(properties, fs, bare)
  {
    NormalizeKeepsDecisionSources(r.source);
    if Kept(r) {
      assert NormalizeSource(r.source) == r.source;
    }
  }

  /** A filesystem appears, possibly with no properties, exactly when some
      zbackup property of it is set locally or received. */
  lemma {:induction false} ReadFilesystems(records: seq<Record>, fs: string)
    ensures fs in ReadProperties(records) <==>
            exists i :: 0 <= i < |records| && records[i].filesystem == fs && Kept(records[i])
    decreases |records|
  {
    if |records| > 0 {
      var n := |records| - 1;
      var init := records[..n];
      ReadFilesystems(init, fs);
      StepFilesystems(ReadProperties(init), records[n], fs);
      if exists i :: 0 <= i < |records| && records[i].filesystem == fs && Kept(records[i]) {
        var i :| 0 <= i < |records| && records[i].filesystem == fs && Kept(records[i]);
        if i < n { assert init[i] == records[i]; }
      }
    }
  }

  /** A bare property is stored for a filesystem exactly when some line
      stores it. */
  lemma {:induction false} ReadEntryPresent(records: seq<Record>, fs: string, bare: string)
    ensures Lookup(ReadProperties(records), fs, bare).Some? <==>
            exists i :: 0 <= i < |records| && Stores(records[i], fs, bare)
    decreases |records|
  {
    if |records| > 0 {
      var n := |records| - 1;
      var init := records[..n];
      ReadEntryPresent(init, fs, bare);
      StepLookup(ReadProperties(init), records[n], fs, bare);
      if exists i :: 0 <= i < |records| && Stores(records[i], fs, bare) {
        var i :| 0 <= i < |records| && Stores(records[i], fs, bare);
        if i < n { assert init[i] == records[i]; }
      }
      if exists i :: 0 <= i < |init| && Stores(init[i], fs, bare) {
        var i :| 0 <= i < |init| && Stores(init[i], fs, bare);
        assert records[i] == init[i];
      }
    }
  }

  /** `records[i]` stores `bare` for `fs`, and no later record does. */
  predicate LastStore(records: seq<Record>, i: int, fs: string, bare: string)
  {
    0 <= i < |records| && Stores(records[i], fs, bare)
    && forall j :: i < j < |records| ==> !Stores(records[j], fs, bare)
  }

  /** A stored value and source are those of the last line that stores the
      property: a later line overwrites an earlier one. */
  lemma {:induction false} ReadEntryLast(records: seq<Record>, fs: string, bare: string)
    requires Lookup(ReadProperties(records), fs, bare).Some?
    ensures exists i :: LastStore(records, i, fs, bare)
              && Lookup(ReadProperties(records), fs, bare) == Some(PropValue(records[i].value, records[i].source))
    decreases |records|
  {
    var n := |records| - 1;
    assert n >= 0;
    var init := records[..n];
    StepLookup(ReadProperties(init), records[n], fs, bare);
    if Stores(records[n], fs, bare) {
      assert LastStore(records, n, fs, bare);
    } else {
      ReadEntryLast(init, fs, bare);
      var i :| LastStore(init, i, fs, bare)
          && Lookup(ReadProperties(init), fs, bare) == Some(PropValue(init[i].value, init[i].source));
      LastStoreExtend(records, i, fs, bare);
    }
  }

  /** A last store of the first records stays last when the final record
      stores nothing for the same property. */
  lemma LastStoreExtend(records: seq<Record>, i: int, fs: string, bare: string)
    requires |records| > 0
    requires LastStore(records[..|records| - 1], i, fs, bare)
    requires !Stores(records[|records| - 1], fs, bare)
    ensures LastStore(records, i, fs, bare) && records[i] == records[..|records| - 1][i]
  {
    var n := |records| - 1;
    var init := records[..n];
    forall j | i < j < |records| ensures !Stores(records[j], fs, bare) {
      if j < n { assert records[j] == init[j]; }
    }
  }

  /** A line read after the others wins over them. */
  lemma LaterOverwrites(records: seq<Record>, r: Record)
    requires Kept(r) && r.value != "-"
    ensures Lookup(ReadProperties(records + [r]), r.filesystem, Zunprefixed(r.property))
            == Some(PropValue(r.value, r.source))
  {
    assert (records + [r])[..|records|] == records;
    StepLookup(ReadProperties(records), r, r.filesystem, Zunprefixed(r.property));
  }

  /** The names stored for `fs`, in the order they were first stored. */
  function OrderOf(properties: map<string, PropertyDict>, fs: string): seq<string>
  {
    if fs in properties then properties[fs].order else []
  }

  /** `a` is listed before `b`. */
  predicate Precedes(names: seq<string>, a: string, b: string)
  {
    exists p, q :: 0 <= p < q < |names| && names[p] == a && names[q] == b
  }

  /** One of the first `n` records stores `bare` for `fs`. */
  predicate StoredBefore(records: seq<Record>, n: int, fs: string, bare: string)
  {
    exists k :: 0 <= k < n && k < |records| && Stores(records[k], fs, bare)
  }

  /** `records[i]` stores `bare` for `fs`, and no earlier record does. */
  predicate FirstStore(records: seq<Record>, i: int, fs: string, bare: string)
  {
    0 <= i < |records| && Stores(records[i], fs, bare) && !StoredBefore(records, i, fs, bare)
  }

  /** One line adds its property at the end of its filesystem's order exactly
      when it stores a property not listed yet. */
  lemma StepOrder(properties: map<string, PropertyDict>, r: Record, fs: string)
    requires AllResolved(properties)
    ensures var bare := Zunprefixed(r.property);
            OrderOf(Step(properties, r), fs) ==
            if Stores(r, fs, bare) && bare !in OrderOf(properties, fs) then OrderOf(properties, fs) + [bare]
            else OrderOf(properties, fs)
  {
    NormalizeKeepsDecisionSources(r.source);
    if Kept(r) {
      assert NormalizeSource(r.source) == r.source;
    }
  }

  /** The bare names the lines store for `fs`, each once, in the order of
      the lines that first store them. */
  function FirstStoreOrder(records: seq<Record>, fs: string): seq<string>
    decreases |records|
  {
    if |records| == 0 then []
    else
      var before := FirstStoreOrder(records[..|records| - 1], fs);
      var bare := Zunprefixed(records[|records| - 1].property);
      if Stores(records[|records| - 1], fs, bare) && bare !in before then before + [bare] else before
  }

  /** The reader lists a filesystem's names in the order they are first
      stored. */
  lemma {:induction false} ReadOrderIsFirstStoreOrder(records: seq<Record>, fs: string)
    ensures OrderOf(ReadProperties(records), fs) == FirstStoreOrder(records, fs)
    decreases |records|
  {
    if |records| > 0 {
      var n := |records| - 1;
      ReadOrderIsFirstStoreOrder(records[..n], fs);
      StepOrder(ReadProperties(records[..n]), records[n], fs);
    }
  }

  /** One more record stores a property among the first `n + 1` exactly when
      it or one of the first `n` does. */
  lemma StoredBeforeSnoc(records: seq<Record>, n: int, fs: string, bare: string)
    requires 0 <= n < |records|
    ensures StoredBefore(records, n + 1, fs, bare) <==> StoredBefore(records, n, fs, bare) || Stores(records[n], fs, bare)
  {
    if StoredBefore(records, n + 1, fs, bare) {
      var k :| 0 <= k < n + 1 && k < |records| && Stores(records[k], fs, bare);
      if k < n {
        assert StoredBefore(records, n, fs, bare);
      }
    }
    if StoredBefore(records, n, fs, bare) {
      var k :| 0 <= k < n && k < |records| && Stores(records[k], fs, bare);
      assert k < n + 1;
    }
  }

  /** A name is listed exactly when some line stores it. */
  lemma {:induction false} FirstStoreMembers(records: seq<Record>, fs: string, bare: string)
    ensures bare in FirstStoreOrder(records, fs) <==> StoredBefore(records, |records|, fs, bare)
    decreases |records|
  {
    if |records| > 0 {
      var n := |records| - 1;
      FirstStoreMembers(records[..n], fs, bare);
      StoredBeforePrefix(records, n, n, fs, bare);
      StoredBeforeSnoc(records, n, fs, bare);
    }
  }

  /** Whether one of the first `m` records stores a property does not depend
      on the records after them. */
  lemma StoredBeforePrefix(records: seq<Record>, n: int, m: int, fs: string, bare: string)
    requires 0 <= m <= n <= |records|
    ensures StoredBefore(records[..n], m, fs, bare) <==> StoredBefore(records, m, fs, bare)
  {
    if StoredBefore(records, m, fs, bare) {
      var k :| 0 <= k < m && k < |records| && Stores(records[k], fs, bare);
      assert records[..n][k] == records[k];
    }
    if StoredBefore(records[..n], m, fs, bare) {
      var k :| 0 <= k < m && k < n && Stores(records[..n][k], fs, bare);
      assert records[..n][k] == records[k];
    }
  }

  /** Appending a name other than `b` does not change whether `a` comes
      before `b`. */
  lemma PrecedesSnoc(names: seq<string>, c: string, a: string, b: string)
    requires b != c
    ensures Precedes(names + [c], a, b) <==> Precedes(names, a, b)
  {
    var s := names + [c];
    if Precedes(s, a, b) {
      var p, q :| 0 <= p < q < |s| && s[p] == a && s[q] == b;
      assert names[p] == a && names[q] == b;
    }
    if Precedes(names, a, b) {
      var p, q :| 0 <= p < q < |names| && names[p] == a && names[q] == b;
      assert s[p] == a && s[q] == b;
    }
  }

  /** A name appended to a list it is not in comes after every name. */
  lemma AppendedLast(names: seq<string>, a: string, b: string)
    requires a !in names && b in names
    ensures !Precedes(names + [a], a, b) && Precedes(names + [a], b, a)
  {
    var s := names + [a];
    forall p, q | 0 <= p < q < |s| ensures s[p] != a || s[q] != b {
      assert p < |names| && s[p] == names[p];
    }
    var p :| 0 <= p < |names| && names[p] == b;
    assert s[p] == b && s[|names|] == a;
  }

  /** A first store among all records is a first store among those before a
      later record. */
  lemma FirstStoreInit(records: seq<Record>, i: int, n: int, fs: string, bare: string)
    requires FirstStore(records, i, fs, bare) && i < n <= |records|
    ensures FirstStore(records[..n], i, fs, bare)
  {
    StoredBeforePrefix(records, n, i, fs, bare);
    assert records[..n][i] == records[i];
  }

  /** A line stores at most one bare property. */
  lemma StoresOne(r: Record, q: Record, fs: string, a: string, b: string)
    requires Stores(r, fs, a) && Stores(q, fs, b) && a != b
    ensures r != q
  {
  }

  /** A name first stored by the last line is appended to the order. */
  lemma FirstStoredLast(records: seq<Record>, fs: string, a: string)
    requires FirstStore(records, |records| - 1, fs, a)
    ensures var before := FirstStoreOrder(records[..|records| - 1], fs);
            a !in before && FirstStoreOrder(records, fs) == before + [a]
  {
    var n := |records| - 1;
    StoredBeforePrefix(records, n, n, fs, a);
    FirstStoreMembers(records[..n], fs, a);
  }

  /** A name stored by an earlier line is listed before the last line. */
  lemma StoredEarlier(records: seq<Record>, fs: string, b: string, j: int)
    requires 0 <= j < |records| - 1 && Stores(records[j], fs, b)
    ensures b in FirstStoreOrder(records[..|records| - 1], fs)
  {
    var n := |records| - 1;
    assert records[..n][j] == records[j];
    assert StoredBefore(records[..n], n, fs, b);
    FirstStoreMembers(records[..n], fs, b);
  }

  /** A name first stored by the last line comes after every name stored
      before it. */
  lemma FirstStoreNew(records: seq<Record>, fs: string, a: string, b: string, j: int)
    requires 0 <= j < |records| - 1
    requires FirstStore(records, |records| - 1, fs, a) && Stores(records[j], fs, b)
    ensures !Precedes(FirstStoreOrder(records, fs), a, b)
    ensures Precedes(FirstStoreOrder(records, fs), b, a)
  {
    FirstStoredLast(records, fs, a);
    StoredEarlier(records, fs, b, j);
    AppendedLast(FirstStoreOrder(records[..|records| - 1], fs), a, b);
  }

  /** The last line does not change whether `a` comes before a name `b`
      stored by an earlier line. */
  lemma FirstStoreOld(records: seq<Record>, fs: string, a: string, b: string, j: int)
    requires 0 <= j < |records| - 1 && Stores(records[j], fs, b)
    ensures Precedes(FirstStoreOrder(records, fs), a, b)
            <==> Precedes(FirstStoreOrder(records[..|records| - 1], fs), a, b)
  {
    var before := FirstStoreOrder(records[..|records| - 1], fs);
    if FirstStoreOrder(records, fs) != before {
      StoredEarlier(records, fs, b, j);
      PrecedesSnoc(before, Zunprefixed(records[|records| - 1].property), a, b);
    }
  }

  /** Of two names, the one whose first storing line comes first is listed
      first. */
  lemma {:induction false} FirstStoreRanks(records: seq<Record>, fs: string, a: string, b: string, i: int, j: int)
    requires a != b
    requires FirstStore(records, i, fs, a) && FirstStore(records, j, fs, b)
    ensures Precedes(FirstStoreOrder(records, fs), a, b) <==> i < j
    decreases |records|
  {
    var n := |records| - 1;
    StoresOne(records[i], records[j], fs, a, b);
    if i < n && j < n {
      FirstStoreInit(records, i, n, fs, a);
      FirstStoreInit(records, j, n, fs, b);
      FirstStoreRanks(records[..n], fs, a, b, i, j);
      FirstStoreOld(records, fs, a, b, j);
    } else if i == n {
      FirstStoreNew(records, fs, a, b, j);
    } else {
      FirstStoreNew(records, fs, b, a, i);
    }
  }

  /** The properties of a filesystem are listed in the order of the lines
      that first store them: a later line overwrites a value but never moves
      its name. */
  lemma ReadOrder(records: seq<Record>, fs: string, a: string, b: string, i: int, j: int)
    requires a != b
    requires FirstStore(records, i, fs, a) && FirstStore(records, j, fs, b)
    ensures Precedes(OrderOf(ReadProperties(records), fs), a, b) <==> i < j
  {
    ReadOrderIsFirstStoreOrder(records, fs);
    FirstStoreRanks(records, fs, a, b, i, j);
  }

  /** The body of the loop of `get_backup_properties`: one line's effect on
      the properties read so far. */
  method FilterLine(properties: map<string, PropertyDict>, r: Record) returns (next: map<string, PropertyDict>)
    requires AllResolved(properties)
    ensures next == Step(properties, r)
  {
    next := properties;
    if IsZprefixed(r.property) {
      var bare := Zunprefixed(r.property);
      var source := r.source;
      if StartsWith(source, Inherited) {
        source := Inherited;
      }
      if source == Local || source == Received {
        if r.filesystem !in next {
          next := next[r.filesystem := Empty()];
        }
        if r.value != "-" {
          next := next[r.filesystem := Insert(next[r.filesystem], bare, PropValue(r.value, source))];
        }
      }
    }
  }

  /** `get_backup_properties` over the lines of `zfs get` output: the
      properties of every filesystem, or `None` where a malformed line makes
      the function raise. */
  method GetBackupProperties(lines: seq<string>) returns (result: Option<map<string, PropertyDict>>)
    ensures ParseLines(lines).None? ==> result.None?
    ensures ParseLines(lines).Some? ==> result == Some(ReadProperties(ParseLines(lines).value))
  {
    var properties: map<string, PropertyDict> := map[];
    ghost var records: seq<Record> := [];
    var i := 0;
    while i < |lines|
      invariant 0 <= i <= |lines|
      invariant ParseLines(lines[..i]) == Some(records)
      invariant properties == ReadProperties(records)
    {
      var parsed := ParseLine(lines[i]);
      if parsed.None? {
        ParseLinesFails(lines, i);
        return None;
      }
      var r := parsed.value;
      properties := FilterLine(properties, r);
      assert lines[..i + 1][..i] == lines[..i];
      assert (records + [r])[..|records|] == records;
      records := records + [r];
      i := i + 1;
    }
    assert lines[..i] == lines;
    return Some(properties);
  }

  /** The argument list of the `zfs get` that feeds the filter: the four
      prefixed names of a tier, or `all` when no tier is given. */
  function GetCommand(zpool: string, tier: Option<string>): seq<string>
  {
    var ids := match tier
      case Some(t) => Join(seq(4, i requires 0 <= i < 4 => Zprefixed(ZbackupProperties(t)[i])), ',')
      case None => "all";
    ["zfs", "get", "-H", "-r", "-t", "filesystem", ids, zpool]
  }

  /** For a tier without a comma, the property list asked of `zfs get` is
      exactly the tier's four names, each prefixed. */
  lemma GetCommandProperties(zpool: string, tier: string)
    requires ',' !in tier
    ensures var ids := Split(GetCommand(zpool, Some(tier))[6], ',');
            |ids| == 4 && forall i :: 0 <= i < 4 ==> ids[i] == Zprefixed(ZbackupProperties(tier)[i])
  {
    var names := seq(4, i requires 0 <= i < 4 => Zprefixed(ZbackupProperties(tier)[i]));
    forall i | 0 <= i < 4 ensures ',' !in names[i] {
      assert names[i] == ZbackupModule + ":" + ZbackupProperties(tier)[i];
    }
    SplitJoin(names, ',');
  }
}
