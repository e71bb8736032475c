/** Which fstab entries get an overlay: the filter that keeps the topmost eligible mount points. */
module Overlay {

  datatype Entry = Entry(blkDevice: string, mountPoint: string, fsType: string,
                         voldManaged: bool, recoveryOnly: bool, slotSelectOther: bool,
                         readOnly: bool, unbindable: bool)

  /** What the filter asks the system: the mounted file systems, if they can be listed, the mount
      points that already have an overlay, and the entries for which overlays are enabled. Asking the
      latter may give the copy of an entry another block device. */
  datatype Env = Env(mountsReadable: bool, mounts: seq<(string, string)>, overlaid: set<string>, enabled: set<Entry>,
                     devices: map<Entry, string>)

  function MountPoint(mountPoint: string): string {
    if mountPoint == "/" then "/system" else mountPoint
  }

  /** The type of the first mounted file system at the mount point. */
  function MountedType(mounts: seq<(string, string)>, mountPoint: string): (r: string)
    requires exists m <- mounts :: m.0 == mountPoint
  {
    if mounts[0].0 == mountPoint then mounts[0].1 else MountedType(mounts[1..], mountPoint)
  }

  predicate WantsOverlay(env: Env, e: Entry) {
    !e.voldManaged && !e.recoveryOnly && !e.slotSelectOther && e.readOnly && !e.unbindable && e in env.enabled
  }

  predicate Eligible(env: Env, e: Entry) {
    var procMountPoint := if e.mountPoint == "/system" then "/" else e.mountPoint;
    && (exists m <- env.mounts :: m.0 == procMountPoint)
    && MountedType(env.mounts, procMountPoint) == e.fsType
    && (e.mountPoint in env.overlaid || WantsOverlay(env, e))
  }

  // ------------------------------------------------------------ what is selected

  function Point(e: Entry): string { MountPoint(e.mountPoint) }

  /** `a` is a proper ancestor directory of `b`. */
  predicate Above(a: Entry, b: Entry) { Point(a) + "/" <= Point(b) }

  predicate Covers(a: Entry, b: Entry) { Point(a) == Point(b) || Above(a, b) }

  /** The components of a path. */
  function Parts(path: string): (r: seq<string>)
    ensures r != []
  {
    if path == "" then [""]
    else if path[0] == '/' then [""] + Parts(path[1..])
    else var rest := Parts(path[1..]); [[path[0]] + rest[0]] + rest[1..]
  }

  lemma FirstPart(p: string)
    requires p != ""
    ensures Parts(p)[0] == "" <==> p[0] == '/'
    ensures p[0] != '/' ==> Parts(p)[0] == [p[0]] + Parts(p[1..])[0] && Parts(p)[1..] == Parts(p[1..])[1..]
    ensures p[0] == '/' ==> Parts(p)[1..] == Parts(p[1..])
  {
  }

  /** A path goes on from another exactly if its components do. */
  lemma {:induction false} PartsPrefix(p: string, q: string)
    ensures p + "/" <= q <==> Parts(p) < Parts(q)
    ensures p == q <==> Parts(p) == Parts(q)
  {
    if p == "" || q == "" {
      if q != "" { FirstPart(q); }
      if p != "" { FirstPart(p); }
    } else {
      hide Parts;
      FirstPart(p);
      FirstPart(q);
      PartsPrefix(p[1..], q[1..]);
      PrefixBySplit(Parts(p), Parts(q));
      PrefixBySplit(Parts(p[1..]), Parts(q[1..]));
      PrefixBySplit(p, q);
      PrefixBySplit(p + "/", q);
      assert (p + "/")[1..] == p[1..] + "/";
      if p[0] != '/' && q[0] != '/' {
        PrefixBySplit(Parts(p)[0], Parts(q)[0]);
        assert Parts(p)[0][1..] == Parts(p[1..])[0] && Parts(q)[0][1..] == Parts(q[1..])[0];
      }
    }
  }

  lemma PrefixBySplit<T>(a: seq<T>, b: seq<T>)
    requires a != [] && b != []
    ensures a < b <==> a[0] == b[0] && a[1..] < b[1..]
    ensures a <= b <==> a[0] == b[0] && a[1..] <= b[1..]
    ensures a == b <==> a[0] == b[0] && a[1..] == b[1..]
  {
    assert a == [a[0]] + a[1..] && b == [b[0]] + b[1..];
  }

  /** One mount point is above another exactly if its path is a proper initial part of the other's,
      component by component, so `/product` is not above `/product_services`. */
  lemma AboveByComponents(a: Entry, b: Entry)
    ensures Above(a, b) <==> Parts(Point(a)) < Parts(Point(b))
    ensures Covers(a, b) <==> Parts(Point(a)) <= Parts(Point(b))
  {
    PartsPrefix(Point(a), Point(b));
  }

  lemma AboveTransitive(a: Entry, b: Entry, c: Entry)
    ensures Above(a, b) && Covers(b, c) ==> Above(a, c)
    ensures Covers(a, b) && Above(b, c) ==> Above(a, c)
    ensures Above(a, b) ==> |Point(a)| < |Point(b)|
  {
  }

  /** Entry `i` is eligible, no eligible entry lies above it, and it is the first eligible entry of
      its mount point. */
  ghost predicate Selected(env: Env, fstab: seq<Entry>, i: nat)
    requires i < |fstab|
  {
    && Eligible(env, fstab[i])
    && forall j :: 0 <= j < |fstab| && Eligible(env, fstab[j]) ==>
         !Above(fstab[j], fstab[i]) && (j < i ==> Point(fstab[j]) != Point(fstab[i]))
  }

  /** The selected entries among the first `k`, in the order of the fstab. */
  ghost function SelectedUpTo(env: Env, fstab: seq<Entry>, k: nat): seq<Entry>
    requires k <= |fstab|
  {
    if k == 0 then []
    else SelectedUpTo(env, fstab, k - 1) + (if Selected(env, fstab, k - 1) then [fstab[k - 1]] else [])
  }

  ghost function Candidates(env: Env, fstab: seq<Entry>): seq<Entry> {
    SelectedUpTo(env, fstab, |fstab|)
  }

  // ------------------------------------------------------------ properties

  lemma {:induction false} SelectedHas(env: Env, fstab: seq<Entry>, k: nat, i: nat)
    requires i < k <= |fstab| && Selected(env, fstab, i)
    ensures fstab[i] in SelectedUpTo(env, fstab, k)
    decreases k
  {
    if i < k - 1 {
      SelectedHas(env, fstab, k - 1, i);
    }
  }

  lemma {:induction false} SelectedFrom(env: Env, fstab: seq<Entry>, k: nat, p: nat) returns (i: nat)
    requires k <= |fstab| && p < |SelectedUpTo(env, fstab, k)|
    ensures i < k && Selected(env, fstab, i) && fstab[i] == SelectedUpTo(env, fstab, k)[p]
    ensures p == |SelectedUpTo(env, fstab, i)|
    decreases k
  {
    if p < |SelectedUpTo(env, fstab, k - 1)| {
      i := SelectedFrom(env, fstab, k - 1, p);
    } else {
      i := k - 1;
    }
  }

  /** Every eligible entry is covered by a selected one. */
  lemma {:induction false} EligibleIsCovered(env: Env, fstab: seq<Entry>, j: nat) returns (i: nat)
    requires j < |fstab| && Eligible(env, fstab[j])
    ensures i < |fstab| && Selected(env, fstab, i) && Covers(fstab[i], fstab[j])
    decreases |Point(fstab[j])|, j
  {
    if a: nat :| a < |fstab| && Eligible(env, fstab[a]) && Above(fstab[a], fstab[j]) {
      AboveTransitive(fstab[a], fstab[j], fstab[j]);
      i := EligibleIsCovered(env, fstab, a);
      AboveTransitive(fstab[i], fstab[a], fstab[j]);
    } else if a: nat :| a < j && Eligible(env, fstab[a]) && Point(fstab[a]) == Point(fstab[j]) {
      i := EligibleIsCovered(env, fstab, a);
    } else {
      i := j;
    }
  }

  ghost predicate Antichain(s: seq<Entry>) {
    forall p, q :: 0 <= p < |s| && 0 <= q < |s| && p != q ==> !Covers(s[p], s[q])
  }

  /** No candidate covers another. */
  lemma CandidatesAreAntichain(env: Env, fstab: seq<Entry>)
    ensures Antichain(Candidates(env, fstab))
  {
    hide Eligible, MountPoint;
    var s := Candidates(env, fstab);
    forall p, q | 0 <= p < |s| && 0 <= q < |s| && p != q
      ensures !Covers(s[p], s[q])
    {
      var i := SelectedFrom(env, fstab, |fstab|, p);
      var j := SelectedFrom(env, fstab, |fstab|, q);
    }
  }

  /** The candidates cover exactly what the eligible entries cover. */
  lemma CandidatesCover(env: Env, fstab: seq<Entry>, j: nat)
    requires j < |fstab| && Eligible(env, fstab[j])
    ensures exists c <- Candidates(env, fstab) :: Covers(c, fstab[j])
  {
    var i := EligibleIsCovered(env, fstab, j);
    SelectedHas(env, fstab, |fstab|, i);
  }

  /** What is mounted at a place is what the first line for it says. */
  lemma {:induction false} MountedFirst(mounts: seq<(string, string)>, k: nat)
    requires k < |mounts| && forall i :: 0 <= i < k ==> mounts[i].0 != mounts[k].0
    ensures MountedType(mounts, mounts[k].0) == mounts[k].1
  {
    if k > 0 {
      assert mounts[1..][k - 1] == mounts[k];
      MountedFirst(mounts[1..], k - 1);
    }
  }

  /** A candidate is mounted with the type it asks for, the root under the name of the system, and
      unless it has an overlay already it is read-only, may be bound, is no other slot's, is left neither
      to vold nor to recovery, and overlays are enabled for it. */
  lemma CandidateIs(env: Env, fstab: seq<Entry>, e: Entry, k: nat)
    requires e in Candidates(env, fstab) && k < |env.mounts|
    requires env.mounts[k].0 == (if Point(e) == "/system" then "/" else e.mountPoint)
    requires forall i :: 0 <= i < k ==> env.mounts[i].0 != env.mounts[k].0
    ensures e in fstab && e.fsType == env.mounts[k].1
    ensures e.mountPoint in env.overlaid || (e in env.enabled && e.readOnly && !e.unbindable)
    ensures e.voldManaged || e.recoveryOnly || e.slotSelectOther ==> e.mountPoint in env.overlaid
  {
    var p :| 0 <= p < |Candidates(env, fstab)| && Candidates(env, fstab)[p] == e;
    var i := SelectedFrom(env, fstab, |fstab|, p);
    MountedFirst(env.mounts, k);
  }

  /** Conversely such an entry is covered by a candidate, and one with an overlay already is whatever its
      flags are. */
  lemma EntryIsCovered(env: Env, fstab: seq<Entry>, e: Entry, k: nat)
    requires e in fstab && k < |env.mounts| && e.fsType == env.mounts[k].1
    requires env.mounts[k].0 == (if Point(e) == "/system" then "/" else e.mountPoint)
    requires forall i :: 0 <= i < k ==> env.mounts[i].0 != env.mounts[k].0
    requires || e.mountPoint in env.overlaid
             || (e in env.enabled && e.readOnly && !e.unbindable
                 && !e.voldManaged && !e.recoveryOnly && !e.slotSelectOther)
    ensures exists c <- Candidates(env, fstab) :: Covers(c, e)
  {
    var j :| 0 <= j < |fstab| && fstab[j] == e;
    MountedFirst(env.mounts, k);
    CandidatesCover(env, fstab, j);
  }

  /** And what is not mounted is never a candidate. */
  lemma CandidateIsMounted(env: Env, fstab: seq<Entry>, e: Entry)
    requires e in Candidates(env, fstab)
    ensures exists m <- env.mounts :: m.0 == if Point(e) == "/system" then "/" else e.mountPoint
  {
    var p :| 0 <= p < |Candidates(env, fstab)| && Candidates(env, fstab)[p] == e;
    var i := SelectedFrom(env, fstab, |fstab|, p);
  }

  // ------------------------------------------------------------ adding one entry

  function NotBelow(e: Entry, s: seq<Entry>): seq<Entry> {
    if s == [] then []
    else NotBelow(e, s[..|s| - 1]) + (if Above(e, s[|s| - 1]) then [] else [s[|s| - 1]])
  }

  lemma NotBelowSnoc(e: Entry, s: seq<Entry>, x: Entry)
    ensures NotBelow(e, s + [x]) == NotBelow(e, s) + if Above(e, x) then [] else [x]
  {
    assert (s + [x])[..|s|] == s;
  }

  lemma {:induction false} NotBelowKeeps(e: Entry, s: seq<Entry>)
    requires forall x <- s :: !Above(e, x)
    ensures NotBelow(e, s) == s
  {
    hide Above;
    if s != [] {
      var front := s[..|s| - 1];
      assert s == front + [s[|s| - 1]];
      NotBelowKeeps(e, front);
    }
  }

  lemma SelectedSnoc(env: Env, fstab: seq<Entry>, e: Entry, i: nat)
    requires i < |fstab|
    ensures Selected(env, fstab + [e], i) <==> Selected(env, fstab, i) && (Eligible(env, e) ==> !Above(e, fstab[i]))
  {
    var g := fstab + [e];
    assert g[|fstab|] == e;
    if Selected(env, fstab, i) && (Eligible(env, e) ==> !Above(e, fstab[i])) {
      assert Selected(env, g, i);
    }
    if Selected(env, g, i) {
      forall j | 0 <= j < |fstab| && Eligible(env, fstab[j])
        ensures !Above(fstab[j], fstab[i]) && (j < i ==> Point(fstab[j]) != Point(fstab[i]))
      {
        assert g[j] == fstab[j];
      }
    }
  }

  lemma {:induction false} SelectedUpToSnoc(env: Env, fstab: seq<Entry>, e: Entry, k: nat)
    requires k <= |fstab|
    ensures SelectedUpTo(env, fstab + [e], k) ==
            if Eligible(env, e) then NotBelow(e, SelectedUpTo(env, fstab, k)) else SelectedUpTo(env, fstab, k)
    decreases k
  {
    hide Eligible, Above, Selected, NotBelow;
    if k == 0 {
      NotBelowKeeps(e, []);
    } else {
      SelectedUpToSnoc(env, fstab, e, k - 1);
      SelectedSnoc(env, fstab, e, k - 1);
      if Selected(env, fstab, k - 1) {
        NotBelowSnoc(e, SelectedUpTo(env, fstab, k - 1), fstab[k - 1]);
      } else {
        assert SelectedUpTo(env, fstab, k) == SelectedUpTo(env, fstab, k - 1);
      }
    }
  }

  ghost predicate Covered(s: seq<Entry>, e: Entry) {
    exists c <- s :: Covers(c, e)
  }

  lemma LastSelected(env: Env, fstab: seq<Entry>, e: Entry)
    requires Eligible(env, e)
    ensures Selected(env, fstab + [e], |fstab|) <==> !Covered(Candidates(env, fstab), e)
  {
    var g, s := fstab + [e], Candidates(env, fstab);
    assert g[|fstab|] == e;
    if Covered(s, e) {
      var p :| 0 <= p < |s| && Covers(s[p], e);
      var i := SelectedFrom(env, fstab, |fstab|, p);
      assert g[i] == fstab[i];
    } else {
      forall j | 0 <= j < |g| && Eligible(env, g[j])
        ensures !Above(g[j], e) && (j < |fstab| ==> Point(g[j]) != Point(e))
      {
        if j < |fstab| {
          var i := EligibleIsCovered(env, fstab, j);
          SelectedHas(env, fstab, |fstab|, i);
          AboveTransitive(fstab[i], fstab[j], e);
        }
      }
    }
  }

  /** A covered entry has no candidate below it, so nothing would be erased for it. */
  lemma CoveredErasesNothing(env: Env, fstab: seq<Entry>, e: Entry)
    requires Covered(Candidates(env, fstab), e)
    ensures forall x <- Candidates(env, fstab) :: !Above(e, x)
  {
    var s := Candidates(env, fstab);
    CandidatesAreAntichain(env, fstab);
    var p :| 0 <= p < |s| && Covers(s[p], e);
    forall x | x in s
      ensures !Above(e, x)
    {
      var q :| 0 <= q < |s| && s[q] == x;
      AboveTransitive(s[p], e, x);
      AboveTransitive(x, x, x);
    }
  }

  /** How one more entry changes the candidates. */
  lemma CandidatesSnoc(env: Env, fstab: seq<Entry>, e: Entry)
    ensures Candidates(env, fstab + [e]) ==
            var s := Candidates(env, fstab);
            if !Eligible(env, e) || Covered(s, e) then s else NotBelow(e, s) + [e]
  {
    var g, s := fstab + [e], Candidates(env, fstab);
    SelectedUpToSnoc(env, fstab, e, |fstab|);
    assert g[|fstab|] == e;
    if Eligible(env, e) {
      LastSelected(env, fstab, e);
      if Covered(s, e) {
        CoveredErasesNothing(env, fstab, e);
        NotBelowKeeps(e, s);
      }
    }
  }

  // ------------------------------------------------------------ the loops

  lemma NothingErased(candidates: seq<Entry>, k: nat, e: Entry)
    requires Antichain(candidates) && k < |candidates| && Covers(candidates[k], e)
    ensures NotBelow(e, candidates[..k]) == candidates[..k]
  {
    forall x | x in candidates[..k]
      ensures !Above(e, x)
    {
      var i :| 0 <= i < k && candidates[i] == x;
      AboveTransitive(candidates[k], e, candidates[i]);
    }
    NotBelowKeeps(e, candidates[..k]);
  }

  /** The inner loop: looks for a candidate that covers `e`, erasing those below it on the way. Since
      the list is an antichain, a covered entry erases nothing. */
  method Insert(candidates: seq<Entry>, e: Entry) returns (r: seq<Entry>)
    requires Antichain(candidates)
    ensures r == if Covered(candidates, e) then candidates else NotBelow(e, candidates) + [e]
  {
    hide NotBelow, Above, Covers, Antichain;
    NotBelowKeeps(e, []);
    r := candidates;
    var it := 0;
    ghost var done, kept := 0, [];
    while it < |r|
      invariant done <= |candidates| && it == |kept|
      invariant kept == NotBelow(e, candidates[..done]) && r == kept + candidates[done..]
      invariant forall i :: 0 <= i < done ==> !Covers(candidates[i], e)
      decreases |candidates| - done
    {
      Split(candidates, done);
      EraseOrPass(kept, candidates[done..]);
      if Covers(r[it], e) {
        NothingErased(candidates, done, e);
        assert candidates[done] in candidates;
        return;
      }
      NotBelowSnoc(e, candidates[..done], candidates[done]);
      if Above(e, r[it]) {
        r := r[..it] + r[it + 1..];
      } else {
        kept := kept + [r[it]];
        it := it + 1;
      }
      done := done + 1;
      assert kept == NotBelow(e, candidates[..done]);
    }
    assert candidates[..done] == candidates;
    r := r + [e];
  }

  lemma Split<T>(s: seq<T>, k: nat)
    requires k < |s|
    ensures s[..k] + s[k..] == s && s[..k + 1] == s[..k] + [s[k]] && s[k..][0] == s[k] && s[k..][1..] == s[k + 1..]
  {
  }

  lemma EraseOrPass<T>(a: seq<T>, b: seq<T>)
    requires b != []
    ensures (a + b)[|a|] == b[0]
    ensures (a + b)[..|a|] + (a + b)[|a| + 1..] == a + b[1..]
    ensures a + b == a + [b[0]] + b[1..]
  {
  }

  // ------------------------------------------------------------ copies of the entries

  /** The copy of an eligible entry that goes into the list. */
  function Copied(env: Env, e: Entry): (r: Entry)
    ensures r.(blkDevice := e.blkDevice) == e
  {
    if e.mountPoint in env.overlaid || e !in env.devices then e else e.(blkDevice := env.devices[e])
  }

  function Copies(env: Env, s: seq<Entry>): (r: seq<Entry>)
    ensures |r| == |s| && forall i :: 0 <= i < |s| ==> r[i] == Copied(env, s[i])
  {
    seq(|s|, i requires 0 <= i < |s| => Copied(env, s[i]))
  }

  lemma SamePlace(env: Env, e: Entry)
    ensures Point(Copied(env, e)) == Point(e)
  {
    assert Copied(env, e).mountPoint == e.(blkDevice := Copied(env, e).blkDevice).mountPoint;
  }

  lemma CopiesCover(env: Env, s: seq<Entry>, e: Entry)
    ensures Covered(Copies(env, s), Copied(env, e)) == Covered(s, e)
    ensures Antichain(s) ==> Antichain(Copies(env, s))
  {
    hide Copied;
    var c := Copies(env, s);
    forall x
      ensures Point(Copied(env, x)) == Point(x)
    {
      SamePlace(env, x);
    }
    assert forall i :: 0 <= i < |s| ==> Covers(c[i], Copied(env, e)) == Covers(s[i], e);
    assert Covered(s, e) ==> exists i :: 0 <= i < |s| && Covers(s[i], e);
    assert Covered(c, Copied(env, e)) ==> exists i :: 0 <= i < |c| && Covers(c[i], Copied(env, e));
  }

  lemma {:induction false} CopiesNotBelow(env: Env, e: Entry, s: seq<Entry>)
    ensures NotBelow(Copied(env, e), Copies(env, s)) == Copies(env, NotBelow(e, s))
  {
    hide Copied;
    if s != [] {
      var n := |s| - 1;
      CopiesNotBelow(env, e, s[..n]);
      SamePlace(env, e);
      SamePlace(env, s[n]);
      assert s == s[..n] + [s[n]];
      assert Copies(env, s) == Copies(env, s[..n]) + [Copied(env, s[n])];
      NotBelowSnoc(Copied(env, e), Copies(env, s[..n]), Copied(env, s[n]));
      NotBelowSnoc(e, s[..n], s[n]);
    }
  }

  method CandidateList(env: Env, fstab: seq<Entry>) returns (candidates: seq<Entry>)
    ensures candidates == if env.mountsReadable then Copies(env, Candidates(env, fstab)) else []
  {
    hide Candidates, Eligible, Copied;
    candidates := [];
    if !env.mountsReadable { return; }
    NoCandidates(env);
    assert fstab[..0] == [];
    for i := 0 to |fstab|
      invariant candidates == Copies(env, Candidates(env, fstab[..i]))
    {
      ghost var s := Candidates(env, fstab[..i]);
      assert fstab[..i + 1] == fstab[..i] + [fstab[i]];
      CandidatesSnoc(env, fstab[..i], fstab[i]);
      CandidatesAreAntichain(env, fstab[..i]);
      CopiesCover(env, s, fstab[i]);
      CopiesNotBelow(env, fstab[i], s);
      if Eligible(env, fstab[i]) {
        candidates := Insert(candidates, Copied(env, fstab[i]));
        assert Copies(env, NotBelow(fstab[i], s) + [fstab[i]])
               == Copies(env, NotBelow(fstab[i], s)) + [Copied(env, fstab[i])];
      }
    }
    assert fstab[..|fstab|] == fstab;
  }

  lemma NoCandidates(env: Env)
    ensures Candidates(env, []) == []
  {
  }
}
