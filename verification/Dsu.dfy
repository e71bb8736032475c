/** Rewriting the fstab for a dynamic system update, and when doing it twice changes nothing. */
module Dsu {
  /** The fields that the transformation reads or writes; `others` stands for the remaining ones, with
      0 for their defaults. */
  datatype Entry = Entry(
    blkDevice: string, logicalName: string, mountPoint: string, fsType: string, readOnly: bool,
    metadataKeyDir: string, avbKeys: string, wait: bool, logical: bool, formattable: bool,
    slotSelect: bool, slotSelectOther: bool, firstStage: bool, others: nat)

  const POSTFIX := "_gsi"
  const SCRATCH := "scratch_gsi"
  const USERDATA := "userdata_gsi"
  const DATA_POINT := "/data"
  const KEYS_DIR := "/avb"

  /** A partition that replaces a read-only one. */
  predicate ReadOnlyPartition(p: string) {
    |p| >= |POSTFIX| && p[|p| - |POSTFIX|..] == POSTFIX && p != SCRATCH && p != USERDATA
  }

  function LogicalName(p: string): string
    requires ReadOnlyPartition(p)
  {
    p[..|p| - |POSTFIX|]
  }

  function MountPoint(p: string): string
    requires ReadOnlyPartition(p)
  {
    "/" + LogicalName(p)
  }

  predicate Matches(point: string, e: Entry) { e.firstStage && e.mountPoint == point }

  function ReadOnlyEntry(e: Entry, p: string): Entry
    requires ReadOnlyPartition(p)
  {
    e.(blkDevice := p, avbKeys := KEYS_DIR, logicalName := LogicalName(p), logical := true,
       slotSelect := false, slotSelectOther := false)
  }

  function UserdataEntry(e: Entry, keyDir: string): Entry {
    e.(blkDevice := USERDATA, logical := true, formattable := true,
       metadataKeyDir := if e.metadataKeyDir == "" then "" else keyDir)
  }

  /** What partition `p` does to an entry. */
  function One(e: Entry, p: string, keyDir: string): Entry {
    if p == USERDATA && e.mountPoint == DATA_POINT then UserdataEntry(e, keyDir)
    else if ReadOnlyPartition(p) && Matches(MountPoint(p), e) then ReadOnlyEntry(e, p)
    else e
  }

  function MapOne(f: seq<Entry>, p: string, keyDir: string): (r: seq<Entry>)
    ensures |r| == |f| && forall i :: 0 <= i < |f| ==> r[i] == One(f[i], p, keyDir)
  {
    seq(|f|, i requires 0 <= i < |f| => One(f[i], p, keyDir))
  }

  predicate Has(f: seq<Entry>, point: string, fsType: string) {
    exists e <- f :: Matches(point, e) && e.fsType == fsType
  }

  /** The file system types that the mount point lacks. */
  function Lacking(f: seq<Entry>, point: string): seq<string> {
    (if Has(f, point, "ext4") then [] else ["ext4"]) + (if Has(f, point, "erofs") then [] else ["erofs"])
  }

  /** Behind the first run of matching entries, or the end. */
  function GroupEnd(f: seq<Entry>, point: string): (k: nat)
    ensures k <= |f|
    ensures k < |f| ==> k > 0 && Matches(point, f[k - 1]) && !Matches(point, f[k])
    ensures forall i :: 0 <= i < |f| && Matches(point, f[i]) ==> k > 0
  {
    if f == [] then 0
    else if Matches(point, f[0]) then
      if |f| > 1 && Matches(point, f[1]) then 1 + GroupEnd(f[1..], point) else 1
    else 1 + GroupEnd(f[1..], point)
  }

  function NewEntry(p: string, fsType: string): Entry
    requires ReadOnlyPartition(p)
  {
    Entry(p, LogicalName(p), MountPoint(p), fsType, true, "", KEYS_DIR, true, true, false, false, false, true, 0)
  }

  function NewEntries(p: string, types: seq<string>): (r: seq<Entry>)
    requires ReadOnlyPartition(p)
    ensures |r| == |types| && forall i :: 0 <= i < |r| ==> r[i] == NewEntry(p, types[i])
  {
    seq(|types|, i requires 0 <= i < |types| => NewEntry(p, types[i]))
  }

  /** One partition: rewrite its entries, then add the missing ones behind them. */
  function Step(f: seq<Entry>, p: string, keyDir: string): seq<Entry> {
    var r := MapOne(f, p, keyDir);
    if !ReadOnlyPartition(p) then r
    else
      var k := GroupEnd(r, MountPoint(p));
      r[..k] + NewEntries(p, Lacking(f, MountPoint(p))) + r[k..]
  }

  function Transform(f: seq<Entry>, ps: seq<string>, keyDir: string): seq<Entry> {
    if ps == [] then f else Step(Transform(f, ps[..|ps| - 1], keyDir), ps[|ps| - 1], keyDir)
  }

  // ------------------------------------------------------------ the loops

  /** The inner loop over matching entries, which also finds the missing types. */
  method RewriteReadOnly(f: seq<Entry>, p: string, keyDir: string) returns (r: seq<Entry>, lack: seq<string>)
    requires ReadOnlyPartition(p)
    ensures r == MapOne(f, p, keyDir) && lack == Lacking(f, MountPoint(p))
  {
    hide Lacking, ReadOnlyEntry, LogicalName;
    var point := MountPoint(p);
    r := f;
    LackingAll(point);
    lack := ["ext4", "erofs"];
    for i := 0 to |f|
      invariant |r| == |f| && r[i..] == f[i..] && r[..i] == MapOne(f[..i], p, keyDir)
      invariant lack == Lacking(f[..i], point)
    {
      assert f[..i + 1] == f[..i] + [f[i]];
      if Matches(point, r[i]) {
        var fsType := r[i].fsType;
        r := r[i := ReadOnlyEntry(r[i], p)];
        if fsType in lack { lack := Erase(lack, fsType); }
      }
      LackingSnoc(f[..i], f[i], point);
    }
    assert f[..|f|] == f;
    assert r[..|f|] == r;
  }

  function Erase(lack: seq<string>, t: string): seq<string> {
    if lack == [] then [] else if lack[0] == t then lack[1..] else [lack[0]] + Erase(lack[1..], t)
  }

  lemma LackingAll(point: string)
    ensures Lacking([], point) == ["ext4", "erofs"]
  {
  }

  lemma LackingSnoc(f: seq<Entry>, e: Entry, point: string)
    ensures Lacking(f + [e], point) ==
            if Matches(point, e) && e.fsType in Lacking(f, point) then Erase(Lacking(f, point), e.fsType)
            else Lacking(f, point)
  {
    assert forall t :: Has(f + [e], point, t) <==> Has(f, point, t) || (Matches(point, e) && e.fsType == t);
  }

  /** Finds the end of the group by two searches and inserts the entries one by one. */
  method InsertMissing(f: seq<Entry>, p: string, lack: seq<string>) returns (r: seq<Entry>)
    requires ReadOnlyPartition(p)
    ensures var k := GroupEnd(f, MountPoint(p));
            r == f[..k] + NewEntries(p, lack) + f[k..]
  {
    var point := MountPoint(p);
    var it := 0;
    while it < |f| && !Matches(point, f[it])
      invariant it <= |f| && it + GroupEnd(f[it..], point) == GroupEnd(f, point)
    {
      assert f[it..][1..] == f[it + 1..];
      it := it + 1;
    }
    while it < |f| && Matches(point, f[it])
      invariant it <= |f|
      invariant if it < |f| && Matches(point, f[it]) then it + GroupEnd(f[it..], point) == GroupEnd(f, point)
                else it == GroupEnd(f, point)
    {
      assert f[it..][1..] == f[it + 1..];
      it := it + 1;
    }
    r := f;
    ghost var k := it;
    for i := 0 to |lack|
      invariant it == k + i <= |r| && r == f[..k] + NewEntries(p, lack[..i]) + f[k..]
    {
      r := r[..it] + [NewEntry(p, lack[i])] + r[it..];
      assert NewEntries(p, lack[..i + 1]) == NewEntries(p, lack[..i]) + [NewEntry(p, lack[i])];
      it := it + 1;
    }
    assert lack[..|lack|] == lack;
  }

  lemma OtherPartition(f: seq<Entry>, p: string, keyDir: string)
    requires !ReadOnlyPartition(p) && p != USERDATA
    ensures MapOne(f, p, keyDir) == f
  {
  }

  method RewriteUserdata(f: seq<Entry>, keyDir: string) returns (r: seq<Entry>)
    ensures r == MapOne(f, USERDATA, keyDir)
  {
    r := f;
    for i := 0 to |f|
      invariant |r| == |f| && r[i..] == f[i..] && r[..i] == MapOne(f[..i], USERDATA, keyDir)
    {
      assert f[..i + 1] == f[..i] + [f[i]];
      if r[i].mountPoint == DATA_POINT { r := r[i := UserdataEntry(r[i], keyDir)]; }
    }
    assert f[..|f|] == f && r[..|f|] == r;
  }

  method TransformFstabForDsu(fstab: seq<Entry>, ps: seq<string>, keyDir: string) returns (f: seq<Entry>)
    ensures f == Transform(fstab, ps, keyDir)
  {
    hide MapOne, Lacking, GroupEnd, NewEntries, MountPoint;
    f := fstab;
    for i := 0 to |ps|
      invariant f == Transform(fstab, ps[..i], keyDir)
    {
      var p := ps[i];
      assert ps[..i + 1][..i] == ps[..i];
      if ReadOnlyPartition(p) {
        var r, lack := RewriteReadOnly(f, p, keyDir);
        f := InsertMissing(r, p, lack);
      } else if p == USERDATA {
        f := RewriteUserdata(f, keyDir);
      } else {
        OtherPartition(f, p, keyDir);
      }
    }
    assert ps[..|ps|] == ps;
  }
}
