/** What the DSU transformation keeps, what it establishes, and exactly when it is idempotent. */
module DsuTheorems {
  import opened Bytes
  import opened Dsu

  /** What all partitions of a list do to one entry. */
  function All(e: Entry, ps: seq<string>, keyDir: string): (r: Entry)
    ensures r.mountPoint == e.mountPoint && r.firstStage == e.firstStage && r.fsType == e.fsType
  {
    if ps == [] then e else One(All(e, ps[..|ps| - 1], keyDir), ps[|ps| - 1], keyDir)
  }

  lemma {:induction false} AllAppend(e: Entry, ps: seq<string>, qs: seq<string>, keyDir: string)
    ensures All(e, ps + qs, keyDir) == All(All(e, ps, keyDir), qs, keyDir)
  {
    if qs == [] {
      assert ps + qs == ps;
    } else {
      AllAppend(e, ps, qs[..|qs| - 1], keyDir);
      assert (ps + qs)[..|ps + qs| - 1] == ps + qs[..|qs| - 1];
    }
  }

  // ------------------------------------------------------------ one entry

  predicate Rewrites(e: Entry, p: string) { ReadOnlyPartition(p) && Matches(MountPoint(p), e) }

  predicate Converts(e: Entry, p: string) { p == USERDATA && e.mountPoint == DATA_POINT }

  /** At most one read-only partition rewrites an entry. */
  lemma RewritesOne(e: Entry, p: string, q: string)
    requires Rewrites(e, p) && Rewrites(e, q)
    ensures p == q
  {
    assert LogicalName(p) == LogicalName(q) by {
      assert MountPoint(p)[1..] == LogicalName(p) && MountPoint(q)[1..] == LogicalName(q);
    }
    assert p == LogicalName(p) + POSTFIX && q == LogicalName(q) + POSTFIX;
  }

  predicate HasU(e: Entry, ps: seq<string>) { exists p <- ps :: Converts(e, p) }

  predicate HasD(e: Entry, ps: seq<string>) { exists p <- ps :: Rewrites(e, p) }

  function TheD(e: Entry, ps: seq<string>): (p: string)
    requires HasD(e, ps)
    ensures p in ps && Rewrites(e, p)
  {
    if Rewrites(e, ps[0]) then ps[0] else TheD(e, ps[1..])
  }

  /** The last partition that touches the entry is userdata. */
  predicate LastU(e: Entry, ps: seq<string>) {
    ps != [] &&
    (var p := ps[|ps| - 1]; if Converts(e, p) then true else if Rewrites(e, p) then false else LastU(e, ps[..|ps| - 1]))
  }

  /** The combined effect in closed form. */
  function Closed(e: Entry, d: Option<string>, hasU: bool, lastU: bool, keyDir: string): Entry
    requires d.Some? ==> ReadOnlyPartition(d.value)
  {
    e.(blkDevice := if lastU then USERDATA else if d.Some? then d.value else e.blkDevice,
       logicalName := if d.Some? then LogicalName(d.value) else e.logicalName,
       avbKeys := if d.Some? then KEYS_DIR else e.avbKeys,
       logical := e.logical || d.Some? || hasU,
       formattable := e.formattable || hasU,
       metadataKeyDir := if hasU && e.metadataKeyDir != "" then keyDir else e.metadataKeyDir,
       slotSelect := e.slotSelect && d.None?,
       slotSelectOther := e.slotSelectOther && d.None?)
  }

  function SomeD(e: Entry, ps: seq<string>): (d: Option<string>)
    ensures d.Some? ==> ReadOnlyPartition(d.value) && Rewrites(e, d.value)
  {
    if HasD(e, ps) then Some(TheD(e, ps)) else None
  }

  lemma SnocMembers(ps: seq<string>)
    requires ps != []
    ensures forall p :: p in ps <==> p in ps[..|ps| - 1] || p == ps[|ps| - 1]
  {
    assert ps == ps[..|ps| - 1] + [ps[|ps| - 1]];
  }

  lemma SomeDSnoc(e: Entry, ps: seq<string>)
    requires ps != []
    ensures SomeD(e, ps) == if Rewrites(e, ps[|ps| - 1]) then Some(ps[|ps| - 1]) else SomeD(e, ps[..|ps| - 1])
    ensures HasU(e, ps) == (HasU(e, ps[..|ps| - 1]) || Converts(e, ps[|ps| - 1]))
  {
    SnocMembers(ps);
    var front := ps[..|ps| - 1];
    if HasD(e, ps) {
      if Rewrites(e, ps[|ps| - 1]) {
        RewritesOne(e, ps[|ps| - 1], TheD(e, ps));
      } else {
        RewritesOne(e, TheD(e, front), TheD(e, ps));
      }
    }
  }

  lemma {:induction false} LastUMeans(e: Entry, ps: seq<string>)
    ensures LastU(e, ps) ==> HasU(e, ps)
    ensures HasU(e, ps) && !LastU(e, ps) ==> SomeD(e, ps).Some?
  {
    if ps != [] {
      LastUMeans(e, ps[..|ps| - 1]);
      SnocMembers(ps);
    }
  }

  lemma OneOnClosed(e: Entry, d: Option<string>, hasU: bool, lastU: bool, p: string, keyDir: string)
    requires d.Some? ==> Rewrites(e, d.value)
    requires lastU ==> hasU
    requires hasU && !lastU ==> d.Some?
    ensures One(Closed(e, d, hasU, lastU, keyDir), p, keyDir) ==
            if Converts(e, p) then Closed(e, d, true, true, keyDir)
            else if Rewrites(e, p) then Closed(e, Some(p), hasU, false, keyDir)
            else Closed(e, d, hasU, lastU, keyDir)
  {
    var c := Closed(e, d, hasU, lastU, keyDir);
    if Converts(e, p) {
      assert One(c, p, keyDir) == UserdataEntry(c, keyDir);
    } else if Rewrites(e, p) {
      hide LogicalName;
      assert One(c, p, keyDir) == ReadOnlyEntry(c, p);
    } else {
      hide Closed;
      assert One(c, p, keyDir) == c;
    }
  }

  lemma ClosedNothing(e: Entry, keyDir: string)
    ensures Closed(e, SomeD(e, []), HasU(e, []), false, keyDir) == e
  {
  }

  lemma {:induction false} AllIsClosed(e: Entry, ps: seq<string>, keyDir: string)
    ensures All(e, ps, keyDir) == Closed(e, SomeD(e, ps), HasU(e, ps), LastU(e, ps), keyDir)
  {
    hide One, HasU, SomeD, Closed;
    if ps == [] {
      ClosedNothing(e, keyDir);
    } else {
      var front, p := ps[..|ps| - 1], ps[|ps| - 1];
      AllIsClosed(e, front, keyDir);
      SomeDSnoc(e, ps);
      LastUMeans(e, front);
      OneOnClosed(e, SomeD(e, front), HasU(e, front), LastU(e, front), p, keyDir);
    }
  }

  lemma SameTouch(e: Entry, r: Entry, ps: seq<string>)
    requires r.mountPoint == e.mountPoint && r.firstStage == e.firstStage
    ensures SomeD(r, ps) == SomeD(e, ps) && HasU(r, ps) == HasU(e, ps) && LastU(r, ps) == LastU(e, ps)
  {
    if ps != [] {
      SameTouch(e, r, ps[..|ps| - 1]);
      SomeDSnoc(e, ps);
      SomeDSnoc(r, ps);
    }
  }

  /** Applying the whole list twice to an entry is applying it once. */
  lemma AllTwice(e: Entry, ps: seq<string>, keyDir: string)
    ensures All(All(e, ps, keyDir), ps, keyDir) == All(e, ps, keyDir)
  {
    var r := All(e, ps, keyDir);
    AllIsClosed(e, ps, keyDir);
    AllIsClosed(r, ps, keyDir);
    SameTouch(e, r, ps);
  }

  /** An entry inserted for `ps[i]` and processed by the rest is stable under the whole list exactly
      when userdata, if it touches the entry at all, comes after the insertion. */
  lemma InsertedStable(ps: seq<string>, i: nat, t: string, keyDir: string)
    requires i < |ps| && ReadOnlyPartition(ps[i])
    ensures var e0 := NewEntry(ps[i], t);
            var e := All(e0, ps[i + 1..], keyDir);
            All(e, ps, keyDir) == e <==> (HasU(e0, ps) ==> HasU(e0, ps[i + 1..]))
  {
    var e0, suffix := NewEntry(ps[i], t), ps[i + 1..];
    var e := All(e0, suffix, keyDir);
    AllIsClosed(e0, suffix, keyDir);
    AllIsClosed(e, ps, keyDir);
    SameTouch(e0, e, ps);
    assert Rewrites(e0, ps[i]);
    assert SomeD(e0, ps) == Some(ps[i]) by { RewritesOne(e0, ps[i], TheD(e0, ps)); }
    if HasD(e0, suffix) { RewritesOne(e0, ps[i], TheD(e0, suffix)); }
    LastUFrom(e0, ps, i);
    LastUMeans(e0, suffix);
    assert forall p <- suffix :: p in ps;
  }

  /** After a rewriting partition, the last touch is decided by the rest. */
  lemma {:induction false} LastUFrom(e: Entry, ps: seq<string>, i: nat)
    requires i < |ps| && Rewrites(e, ps[i])
    ensures LastU(e, ps) == LastU(e, ps[i + 1..])
    decreases |ps|
  {
    var front := ps[..|ps| - 1];
    if i < |ps| - 1 {
      LastUFrom(e, front, i);
      assert ps[i + 1..][..|ps| - i - 2] == front[i + 1..];
    }
  }

  // ------------------------------------------------------------ the whole fstab

  lemma MapKeepsHas(f: seq<Entry>, p: string, keyDir: string, point: string, t: string)
    ensures Has(MapOne(f, p, keyDir), point, t) == Has(f, point, t)
  {
    var r := MapOne(f, p, keyDir);
    if Has(r, point, t) {
      var i :| 0 <= i < |r| && Matches(point, r[i]) && r[i].fsType == t;
      assert Matches(point, f[i]) && f[i] in f;
    }
    if Has(f, point, t) {
      var i :| 0 <= i < |f| && Matches(point, f[i]) && f[i].fsType == t;
      assert Matches(point, r[i]) && r[i] in r;
    }
  }

  lemma StepMembers(f: seq<Entry>, p: string, keyDir: string)
    ensures forall e :: e in Step(f, p, keyDir) <==>
              e in MapOne(f, p, keyDir) || (ReadOnlyPartition(p) && e in NewEntries(p, Lacking(f, MountPoint(p))))
  {
    var r := MapOne(f, p, keyDir);
    if ReadOnlyPartition(p) {
      var k := GroupEnd(r, MountPoint(p));
      assert r == r[..k] + r[k..];
    }
  }

  lemma StepHas(f: seq<Entry>, p: string, keyDir: string, point: string, t: string)
    ensures Has(Step(f, p, keyDir), point, t) <==>
            Has(f, point, t) || (ReadOnlyPartition(p) && MountPoint(p) == point && t in Lacking(f, point))
  {
    hide Step, MapOne, Lacking, GroupEnd, ReadOnlyPartition, MountPoint;
    StepMembers(f, p, keyDir);
    MapKeepsHas(f, p, keyDir, point, t);
    var r := MapOne(f, p, keyDir);
    var s := Step(f, p, keyDir);
    if ReadOnlyPartition(p) && MountPoint(p) == point && t in Lacking(f, point) {
      var i :| 0 <= i < |Lacking(f, point)| && Lacking(f, point)[i] == t;
      var e := NewEntries(p, Lacking(f, point))[i];
      assert e in s && Matches(point, e) && e.fsType == t;
    }
    if Has(r, point, t) {
      var e :| e in r && Matches(point, e) && e.fsType == t;
      assert e in s;
    }
    if Has(s, point, t) {
      var e :| e in s && Matches(point, e) && e.fsType == t;
      if e !in r {
        var added := NewEntries(p, Lacking(f, MountPoint(p)));
        var i :| 0 <= i < |added| && added[i] == e;
      }
    }
  }

  lemma StepLacking(f: seq<Entry>, p: string, keyDir: string, point: string)
    ensures Lacking(Step(f, p, keyDir), point) ==
            if ReadOnlyPartition(p) && MountPoint(p) == point then [] else Lacking(f, point)
  {
    hide Step, Has;
    StepHas(f, p, keyDir, point, "ext4");
    StepHas(f, p, keyDir, point, "erofs");
  }

  /** Both types are there for every read-only partition of the list, and nothing is added elsewhere. */
  lemma {:induction false} TransformLacking(f: seq<Entry>, ps: seq<string>, keyDir: string, point: string)
    ensures Lacking(Transform(f, ps, keyDir), point) ==
            if exists p <- ps :: ReadOnlyPartition(p) && MountPoint(p) == point then [] else Lacking(f, point)
  {
    hide Step, Lacking, ReadOnlyPartition, MountPoint;
    if ps != [] {
      var front, p := ps[..|ps| - 1], ps[|ps| - 1];
      TransformLacking(f, front, keyDir, point);
      StepLacking(Transform(f, front, keyDir), p, keyDir, point);
      SnocMembers(ps);
    }
  }

  function MapAll(f: seq<Entry>, ps: seq<string>, keyDir: string): (r: seq<Entry>)
    ensures |r| == |f| && forall i :: 0 <= i < |f| ==> r[i] == All(f[i], ps, keyDir)
  {
    seq(|f|, i requires 0 <= i < |f| => All(f[i], ps, keyDir))
  }

  lemma StepWithoutInsertion(f: seq<Entry>, p: string, keyDir: string)
    requires ReadOnlyPartition(p) ==> Lacking(f, MountPoint(p)) == []
    ensures Step(f, p, keyDir) == MapOne(f, p, keyDir)
  {
    var r := MapOne(f, p, keyDir);
    if ReadOnlyPartition(p) {
      var k := GroupEnd(r, MountPoint(p));
      assert r[..k] + [] + r[k..] == r;
    }
  }

  ghost predicate Complete(f: seq<Entry>, ps: seq<string>) {
    forall p <- ps :: ReadOnlyPartition(p) ==> Lacking(f, MountPoint(p)) == []
  }

  /** When nothing is missing, the transformation only rewrites entries in place. */
  lemma {:induction false} CompleteIsRewritten(f: seq<Entry>, ps: seq<string>, keyDir: string)
    requires Complete(f, ps)
    ensures Transform(f, ps, keyDir) == MapAll(f, ps, keyDir)
  {
    hide Step, Lacking, ReadOnlyPartition, MountPoint, One;
    if ps == [] {
      assert MapAll(f, ps, keyDir) == f;
    } else {
      var front, p := ps[..|ps| - 1], ps[|ps| - 1];
      SnocMembers(ps);
      CompleteIsRewritten(f, front, keyDir);
      var g := Transform(f, front, keyDir);
      if ReadOnlyPartition(p) { TransformLacking(f, front, keyDir, MountPoint(p)); }
      StepWithoutInsertion(g, p, keyDir);
      assert MapOne(g, p, keyDir) == MapAll(f, ps, keyDir);
    }
  }

  lemma TransformIsComplete(f: seq<Entry>, ps: seq<string>, keyDir: string)
    ensures Complete(Transform(f, ps, keyDir), ps)
  {
    hide Transform, Lacking;
    forall p | p in ps && ReadOnlyPartition(p)
      ensures Lacking(Transform(f, ps, keyDir), MountPoint(p)) == []
    {
      TransformLacking(f, ps, keyDir, MountPoint(p));
    }
  }

  lemma FrontSlices<T>(ps: seq<T>, i: nat)
    requires i < |ps| - 1
    ensures ps[..|ps| - 1][..i] == ps[..i]
    ensures ps[i + 1..] != [] && ps[i + 1..][|ps[i + 1..]| - 1] == ps[|ps| - 1]
    ensures ps[i + 1..][..|ps[i + 1..]| - 1] == ps[..|ps| - 1][i + 1..]
  {
  }

  /** Every entry of the result is an old entry, rewritten, or one inserted for a missing type and
      rewritten by the partitions after that. */
  lemma {:induction false} Origin(f: seq<Entry>, ps: seq<string>, keyDir: string, e: Entry)
    returns (old_: bool, e0: Entry, i: nat, t: string)
    requires e in Transform(f, ps, keyDir)
    ensures old_ ==> e0 in f && e == All(e0, ps, keyDir)
    ensures !old_ ==>
              && i < |ps| && ReadOnlyPartition(ps[i]) && t in Lacking(Transform(f, ps[..i], keyDir), MountPoint(ps[i]))
              && e0 == NewEntry(ps[i], t) && e == All(e0, ps[i + 1..], keyDir)
    decreases |ps|
  {
    hide Step, Lacking, One, MountPoint, ReadOnlyPartition, NewEntry;
    i, t := 0, "";
    if ps == [] {
      return true, e, i, t;
    }
    var front, p := ps[..|ps| - 1], ps[|ps| - 1];
    var g := Transform(f, front, keyDir);
    StepMembers(g, p, keyDir);
    var r := MapOne(g, p, keyDir);
    if e in r {
      var j :| 0 <= j < |r| && r[j] == e;
      old_, e0, i, t := Origin(f, front, keyDir, g[j]);
      if !old_ {
        FrontSlices(ps, i);
      }
    } else {
      var n := NewEntries(p, Lacking(g, MountPoint(p)));
      var j :| 0 <= j < |n| && n[j] == e;
      i, t := |front|, Lacking(g, MountPoint(p))[j];
      assert ps[..i] == front && ps[i + 1..] == [];
      old_, e0 := false, e;
    }
  }

  /** An entry present after the first partitions is still there at the end, rewritten by the rest. */
  lemma {:induction false} Persists(f: seq<Entry>, ps: seq<string>, keyDir: string, k: nat, e: Entry)
    requires k <= |ps| && e in Transform(f, ps[..k], keyDir)
    ensures All(e, ps[k..], keyDir) in Transform(f, ps, keyDir)
    decreases |ps|
  {
    hide Step, Lacking, One, MountPoint, ReadOnlyPartition;
    if k == |ps| {
      assert ps[..k] == ps;
    } else {
      var front, p := ps[..|ps| - 1], ps[|ps| - 1];
      assert front[..k] == ps[..k];
      Persists(f, front, keyDir, k, e);
      var g := Transform(f, front, keyDir);
      var e1 := All(e, front[k..], keyDir);
      assert ps[k..][..|ps| - k - 1] == front[k..];
      StepMembers(g, p, keyDir);
      var j :| 0 <= j < |g| && g[j] == e1;
      assert MapOne(g, p, keyDir)[j] == One(e1, p, keyDir);
    }
  }

  // ------------------------------------------------------------ idempotence

  const DATA_PARTITION := "data_gsi"

  /** A read-only partition for /data is introduced after userdata was handled for the last time, and
      an entry has to be added for it. */
  ghost predicate Clash(f: seq<Entry>, ps: seq<string>) {
    && Lacking(f, DATA_POINT) != []
    && exists i :: 0 <= i < |ps| && ps[i] == DATA_PARTITION && DATA_PARTITION !in ps[..i]
                   && USERDATA in ps[..i] && USERDATA !in ps[i + 1..]
  }

  lemma DataPartition(p: string)
    ensures ReadOnlyPartition(DATA_PARTITION) && MountPoint(DATA_PARTITION) == DATA_POINT
    ensures ReadOnlyPartition(p) && MountPoint(p) == DATA_POINT ==> p == DATA_PARTITION
  {
    assert DATA_PARTITION[..4] == "data" && DATA_PARTITION[4..] == POSTFIX;
    if ReadOnlyPartition(p) && MountPoint(p) == DATA_POINT {
      assert p == LogicalName(p) + POSTFIX;
      assert LogicalName(p) == MountPoint(p)[1..];
      assert DATA_POINT[1..] == "data";
    }
  }

  lemma EntryStable(f: seq<Entry>, ps: seq<string>, keyDir: string, e: Entry)
    requires !Clash(f, ps) && e in Transform(f, ps, keyDir)
    ensures All(e, ps, keyDir) == e
  {
    hide Transform, Lacking, All, ReadOnlyPartition, MountPoint;
    var old_, e0, i, t := Origin(f, ps, keyDir, e);
    if old_ {
      AllTwice(e0, ps, keyDir);
    } else {
      InsertedStable(ps, i, t, keyDir);
      DataPartition(ps[i]);
      TransformLacking(f, ps[..i], keyDir, MountPoint(ps[i]));
      assert forall p :: p in ps <==> p in ps[..i] || p == ps[i] || p in ps[i + 1..] by {
        assert ps == ps[..i] + [ps[i]] + ps[i + 1..];
      }
      NewEntryPoint(ps[i], t);
      assert HasU(e0, ps) && !HasU(e0, ps[i + 1..]) ==> Clash(f, ps);
    }
  }

  lemma NewEntryPoint(p: string, t: string)
    requires ReadOnlyPartition(p)
    ensures NewEntry(p, t).mountPoint == MountPoint(p) && p != USERDATA
  {
  }

  /** Transforming twice is transforming once, for every fstab and every partition list, except exactly
      in the clash above. */
  lemma IdempotentIff(f: seq<Entry>, ps: seq<string>, keyDir: string)
    ensures Transform(Transform(f, ps, keyDir), ps, keyDir) == Transform(f, ps, keyDir) <==> !Clash(f, ps)
  {
    hide Transform, Lacking, All, ReadOnlyPartition, MountPoint, Clash;
    var g := Transform(f, ps, keyDir);
    TransformIsComplete(f, ps, keyDir);
    CompleteIsRewritten(g, ps, keyDir);
    if Clash(f, ps) {
      var e := ClashEntry(f, ps, keyDir);
      var i :| 0 <= i < |g| && g[i] == e;
      assert MapAll(g, ps, keyDir)[i] != g[i];
    } else {
      forall i | 0 <= i < |g|
        ensures MapAll(g, ps, keyDir)[i] == g[i]
      {
        EntryStable(f, ps, keyDir, g[i]);
      }
    }
  }

  /** The clash happens: user data first, then a partition that is mounted on the same place. */
  lemma NotAlwaysIdempotent(keyDir: string)
    ensures var ps := [USERDATA, DATA_PARTITION];
            Transform(Transform([], ps, keyDir), ps, keyDir) != Transform([], ps, keyDir)
  {
    hide Transform;
    var ps := [USERDATA, DATA_PARTITION];
    IdempotentIff([], ps, keyDir);
    assert ps[..1] == [USERDATA] && ps[2..] == [] && ps[1] == DATA_PARTITION;
  }

  /** Without such a partition, doing it twice is doing it once. */
  lemma IdempotentWithoutDataPartition(f: seq<Entry>, ps: seq<string>, keyDir: string)
    requires DATA_PARTITION !in ps || USERDATA !in ps
    ensures Transform(Transform(f, ps, keyDir), ps, keyDir) == Transform(f, ps, keyDir)
  {
    hide Transform;
    IdempotentIff(f, ps, keyDir);
    forall i | 0 <= i < |ps|
      ensures !(ps[i] == DATA_PARTITION && USERDATA in ps[..i])
    {
      assert USERDATA in ps[..i] ==> USERDATA in ps;
    }
  }

  /** In a clash, the inserted entry changes the second time. */
  lemma ClashEntry(f: seq<Entry>, ps: seq<string>, keyDir: string) returns (e: Entry)
    requires Clash(f, ps)
    ensures e in Transform(f, ps, keyDir) && All(e, ps, keyDir) != e
  {
    hide Transform, Lacking, All;
    var i :| 0 <= i < |ps| && ps[i] == DATA_PARTITION && DATA_PARTITION !in ps[..i]
             && USERDATA in ps[..i] && USERDATA !in ps[i + 1..];
    var t := Lacking(f, DATA_POINT)[0];
    DataPartition(ps[i]);
    forall p | p in ps[..i] && ReadOnlyPartition(p)
      ensures MountPoint(p) != DATA_POINT
    {
      DataPartition(p);
    }
    TransformLacking(f, ps[..i], keyDir, DATA_POINT);
    var e0 := NewEntry(ps[i], t);
    InsertedBy(f, ps, keyDir, i, t);
    Persists(f, ps, keyDir, i + 1, e0);
    e := All(e0, ps[i + 1..], keyDir);
    InsertedStable(ps, i, t, keyDir);
    assert HasU(e0, ps) by { assert USERDATA in ps; }
  }

  lemma InsertedBy(f: seq<Entry>, ps: seq<string>, keyDir: string, i: nat, t: string)
    requires i < |ps| && ReadOnlyPartition(ps[i]) && t in Lacking(Transform(f, ps[..i], keyDir), MountPoint(ps[i]))
    ensures NewEntry(ps[i], t) in Transform(f, ps[..i + 1], keyDir)
  {
    hide Lacking, Step, ReadOnlyPartition, MountPoint, NewEntry;
    var g := Transform(f, ps[..i], keyDir);
    assert ps[..i + 1][..i] == ps[..i];
    StepMembers(g, ps[i], keyDir);
    var lack := Lacking(g, MountPoint(ps[i]));
    var j :| 0 <= j < |lack| && lack[j] == t;
    assert NewEntries(ps[i], lack)[j] == NewEntry(ps[i], t);
  }

  // ------------------------------------------------------------ what is kept

  /** No partition of the list concerns the entry. */
  predicate Unrelated(e: Entry, ps: seq<string>) { !HasU(e, ps) && !HasD(e, ps) }

  function Keep(f: seq<Entry>, ps: seq<string>): seq<Entry> {
    if f == [] then []
    else Keep(f[..|f| - 1], ps) + if Unrelated(f[|f| - 1], ps) then [f[|f| - 1]] else []
  }

  lemma {:induction false} KeepAppend(f: seq<Entry>, g: seq<Entry>, ps: seq<string>)
    ensures Keep(f + g, ps) == Keep(f, ps) + Keep(g, ps)
  {
    hide Unrelated;
    if g == [] {
      assert f + g == f;
    } else {
      KeepAppend(f, g[..|g| - 1], ps);
      assert (f + g)[..|f + g| - 1] == f + g[..|g| - 1];
    }
  }

  lemma {:induction false} KeepNone(f: seq<Entry>, ps: seq<string>)
    requires forall e <- f :: !Unrelated(e, ps)
    ensures Keep(f, ps) == []
  {
    if f != [] {
      assert f[|f| - 1] in f;
      KeepNone(f[..|f| - 1], ps);
    }
  }

  lemma {:induction false} KeepMapped(f: seq<Entry>, p: string, keyDir: string, ps: seq<string>)
    requires p in ps
    ensures Keep(MapOne(f, p, keyDir), ps) == Keep(f, ps)
  {
    if f != [] {
      var front, e := f[..|f| - 1], f[|f| - 1];
      KeepMapped(front, p, keyDir, ps);
      assert MapOne(f, p, keyDir)[..|f| - 1] == MapOne(front, p, keyDir);
      OneKeepsUnrelated(e, p, keyDir, ps);
    }
  }

  lemma OneKeepsPlace(e: Entry, p: string, keyDir: string)
    ensures var r := One(e, p, keyDir);
            r.mountPoint == e.mountPoint && r.firstStage == e.firstStage && r.fsType == e.fsType
  {
  }

  lemma OneKeepsUnrelated(e: Entry, p: string, keyDir: string, ps: seq<string>)
    requires p in ps
    ensures Unrelated(One(e, p, keyDir), ps) == Unrelated(e, ps)
    ensures Unrelated(e, ps) ==> One(e, p, keyDir) == e
  {
    hide ReadOnlyPartition, UserdataEntry, MountPoint;
    var r := One(e, p, keyDir);
    OneKeepsPlace(e, p, keyDir);
    forall q
      ensures Converts(r, q) == Converts(e, q) && Rewrites(r, q) == Rewrites(e, q)
    {
    }
    assert HasU(r, ps) == HasU(e, ps) && HasD(r, ps) == HasD(e, ps);
  }

  lemma StepKeepsUnrelated(f: seq<Entry>, p: string, keyDir: string, ps: seq<string>)
    requires p in ps
    ensures Keep(Step(f, p, keyDir), ps) == Keep(f, ps)
  {
    hide Unrelated, Keep;
    var r := MapOne(f, p, keyDir);
    KeepMapped(f, p, keyDir, ps);
    if ReadOnlyPartition(p) {
      var k, n := GroupEnd(r, MountPoint(p)), NewEntries(p, Lacking(f, MountPoint(p)));
      forall e | e in n
        ensures !Unrelated(e, ps)
      {
        NewIsRelated(e, p, ps);
      }
      KeepNone(n, ps);
      KeepAppend(r[..k] + n, r[k..], ps);
      KeepAppend(r[..k], n, ps);
      KeepAppend(r[..k], r[k..], ps);
      assert r[..k] + r[k..] == r;
    }
  }

  lemma NewIsRelated(e: Entry, p: string, ps: seq<string>)
    requires p in ps && ReadOnlyPartition(p) && e.firstStage && e.mountPoint == MountPoint(p)
    ensures !Unrelated(e, ps)
  {
    assert Rewrites(e, p);
  }

  /** Entries that no partition concerns stay as they are and in their order. */
  lemma {:induction false} TransformKeepsUnrelated(f: seq<Entry>, qs: seq<string>, keyDir: string, ps: seq<string>)
    requires forall q <- qs :: q in ps
    ensures Keep(Transform(f, qs, keyDir), ps) == Keep(f, ps)
  {
    hide Keep, Step;
    if qs != [] {
      var front := qs[..|qs| - 1];
      SnocMembers(qs);
      TransformKeepsUnrelated(f, front, keyDir, ps);
      StepKeepsUnrelated(Transform(f, front, keyDir), qs[|qs| - 1], keyDir, ps);
    }
  }

  /** The first-stage entries of a mount point are adjacent. */
  ghost predicate Contiguous(f: seq<Entry>, point: string) {
    forall i, j, k :: 0 <= i < j < k < |f| && Matches(point, f[i]) && Matches(point, f[k]) ==> Matches(point, f[j])
  }

  lemma ContiguousGroup(f: seq<Entry>, point: string)
    requires Contiguous(f, point)
    ensures forall i :: GroupEnd(f, point) <= i < |f| ==> !Matches(point, f[i])
  {
    var k := GroupEnd(f, point);
    if k < |f| {
      forall i | k <= i < |f|
        ensures !Matches(point, f[i])
      {
        assert Matches(point, f[k - 1]) && !Matches(point, f[k]);
      }
    }
  }

  lemma MapKeepsContiguous(f: seq<Entry>, p: string, keyDir: string, point: string)
    requires Contiguous(f, point)
    ensures Contiguous(MapOne(f, p, keyDir), point)
  {
    var r := MapOne(f, p, keyDir);
    assert forall i :: 0 <= i < |f| ==> Matches(point, r[i]) == Matches(point, f[i]);
  }

  /** Inserting matching entries behind the group, or others anywhere but inside it. */
  lemma InsertKeepsContiguous(r: seq<Entry>, k: nat, n: seq<Entry>, point: string)
    requires k <= |r| && Contiguous(r, point)
    requires || ((forall e <- n :: Matches(point, e)) && (forall i :: k <= i < |r| ==> !Matches(point, r[i]))
                 && ((exists i :: 0 <= i < k && Matches(point, r[i])) ==> k > 0 && Matches(point, r[k - 1])))
             || ((forall e <- n :: !Matches(point, e))
                 && (0 < k < |r| ==> !Matches(point, r[k - 1]) || !Matches(point, r[k])))
    ensures Contiguous(r[..k] + n + r[k..], point)
  {
    var s := r[..k] + n + r[k..];
    forall a, b, c | 0 <= a < b < c < |s| && Matches(point, s[a]) && Matches(point, s[c])
      ensures Matches(point, s[b])
    {
      assert forall x :: 0 <= x < |s| ==> s[x] == if x < k then r[x] else if x < k + |n| then n[x - k] else r[x - |n|];
    }
  }

  lemma StepKeepsContiguous(f: seq<Entry>, p: string, keyDir: string, point: string)
    requires Contiguous(f, point)
    ensures Contiguous(Step(f, p, keyDir), point)
  {
    hide Contiguous, Lacking;
    MapKeepsContiguous(f, p, keyDir, point);
    var r := MapOne(f, p, keyDir);
    if ReadOnlyPartition(p) {
      var k, n := GroupEnd(r, MountPoint(p)), NewEntries(p, Lacking(f, MountPoint(p)));
      if MountPoint(p) == point {
        ContiguousGroup(r, point);
        GroupEndAfterMatch(r, point);
      }
      InsertKeepsContiguous(r, k, n, point);
    }
  }

  lemma GroupEndAfterMatch(f: seq<Entry>, point: string)
    requires Contiguous(f, point)
    ensures var k := GroupEnd(f, point);
            (exists i :: 0 <= i < k && Matches(point, f[i])) ==> k > 0 && Matches(point, f[k - 1])
  {
  }

  /** Groups that are adjacent stay adjacent, for every mount point. */
  lemma {:induction false} TransformKeepsContiguous(f: seq<Entry>, ps: seq<string>, keyDir: string, point: string)
    requires Contiguous(f, point)
    ensures Contiguous(Transform(f, ps, keyDir), point)
  {
    hide Contiguous, Step;
    if ps != [] {
      TransformKeepsContiguous(f, ps[..|ps| - 1], keyDir, point);
      StepKeepsContiguous(Transform(f, ps[..|ps| - 1], keyDir), ps[|ps| - 1], keyDir, point);
    }
  }

  // ------------------------------------------------------------ which partitions count

  /** Every name with the postfix stands for a read-only partition, except scratch and user data. */
  lemma ReadOnlyIff(n: string)
    ensures ReadOnlyPartition(n + "_gsi") <==> n != "scratch" && n != "userdata"
    ensures ReadOnlyPartition(n + "_gsi") ==> MountPoint(n + "_gsi") == "/" + n && LogicalName(n + "_gsi") == n
  {
    var p := n + "_gsi";
    assert p[|p| - 4..] == "_gsi" && p[..|p| - 4] == n;
    assert "scratch" + "_gsi" == SCRATCH && "userdata" + "_gsi" == USERDATA;
    assert SCRATCH[..7] == "scratch" && USERDATA[..8] == "userdata";
  }

  /** The partitions that may change anything: those with the postfix, without scratch. */
  predicate Counts(p: string) { |p| >= 4 && p[|p| - 4..] == "_gsi" && p != "scratch_gsi" }

  function Counting(ps: seq<string>): seq<string> {
    if ps == [] then []
    else Counting(ps[..|ps| - 1]) + if Counts(ps[|ps| - 1]) then [ps[|ps| - 1]] else []
  }

  lemma StepIgnores(f: seq<Entry>, p: string, keyDir: string)
    requires !Counts(p)
    ensures Step(f, p, keyDir) == f
  {
    assert USERDATA[|USERDATA| - 4..] == "_gsi";
    OtherPartition(f, p, keyDir);
  }

  /** Scratch and names without the postfix are left alone. */
  lemma {:induction false} TransformIgnores(f: seq<Entry>, ps: seq<string>, keyDir: string)
    ensures Transform(f, ps, keyDir) == Transform(f, Counting(ps), keyDir)
    decreases |ps|
  {
    hide Step, Counts;
    if ps != [] {
      var front, p := ps[..|ps| - 1], ps[|ps| - 1];
      TransformIgnores(f, front, keyDir);
      if Counts(p) {
        assert Counting(ps)[..|Counting(ps)| - 1] == Counting(front);
      } else {
        StepIgnores(Transform(f, front, keyDir), p, keyDir);
        assert Counting(ps) == Counting(front);
      }
    }
  }

  ghost predicate IsInserted(e: Entry, n: string, fsType: string) {
    && e.blkDevice == n + "_gsi" && e.logicalName == n && e.mountPoint == "/" + n && e.fsType == fsType
    && e.readOnly && e.avbKeys == "/avb" && e.metadataKeyDir == ""
    && e.wait && e.logical && e.firstStage
    && !e.formattable && !e.slotSelect && !e.slotSelectOther && e.others == 0
  }

  /** From nothing, a read-only partition makes exactly its two entries. */
  lemma InsertedEntries(n: string, keyDir: string)
    requires n != "scratch" && n != "userdata"
    ensures var r := Transform([], [n + "_gsi"], keyDir);
            |r| == 2 && IsInserted(r[0], n, "ext4") && IsInserted(r[1], n, "erofs")
  {
    hide ReadOnlyPartition, MountPoint, LogicalName, Lacking;
    ReadOnlyIff(n);
    var p := n + "_gsi";
    assert [p][..0] == [];
    LackingAll("/" + n);
    assert Transform([], [p], keyDir) == Step([], p, keyDir);
    assert MapOne([], p, keyDir) == [];
  }
}
