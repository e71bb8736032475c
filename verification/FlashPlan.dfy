/** How a list of flashing tasks is turned into a plan: either the dynamic partitions are gathered
    into one super-layout task, or each of them gets a resize first. */
module FlashPlan {
  import opened Bytes

  datatype Task =
    | Flash(partition: string, slot: string, image: string)
    | Reboot(target: string)
    | UpdateSuper
    | Wipe(partition: string)
    | Resize(partition: string, size: string, slot: string)
    | FlashSuperLayout(superName: string, partitions: set<string>)

  /** Facts about device and host that the planner asks for. `dynamic` holds the names to be flashed
      from userspace, `inSuper` the names in the super metadata, `images` the images that can be
      opened, with whether they are sparse. */
  datatype Env = Env(
    supportsAB: bool, slotOverride: string, currentSlot: string, superEmpty: bool,
    superName: Option<string>, superSize: Option<string>, metadata: bool, layout: bool,
    dynamic: set<string>, inSuper: set<string>, images: map<string, bool>)

  /** The partition's name with its slot; there is none when all slots are meant, and asking for it
      ends the program. */
  function FullName(env: Env, t: Task): Option<string>
    requires t.Flash?
  {
    var slot := if t.slot == "" then env.currentSlot else t.slot;
    if slot == "" then Some(t.partition)
    else if slot == "all" then None
    else Some(t.partition + "_" + slot)
  }

  /** A slot is a suffix after an underscore, no slot means the current one, and without slots the
      partition has its plain name. */
  lemma SlotSuffix(env: Env, partition: string, slot: string, image: string)
    ensures slot != "" && slot != "all" ==>
              FullName(env, Flash(partition, slot, image)) == Some(partition + ['_'] + slot)
    ensures FullName(env, Flash(partition, "all", image)) == None
    ensures FullName(env, Flash(partition, "", image)) ==
            if env.currentSlot == "" then Some(partition) else FullName(env, Flash(partition, env.currentSlot, image))
  {
  }

  predicate Named(env: Env, tasks: seq<Task>) {
    forall i :: 0 <= i < |tasks| && tasks[i].Flash? ==> FullName(env, tasks[i]).Some?
  }

  predicate IsDynamic(env: Env, t: Task) {
    t.Flash? && FullName(env, t).Some? && FullName(env, t).value in env.dynamic
  }

  // ------------------------------------------------------------ collecting the layout

  /** Collects the partitions of the super layout and the images opened for them. Whether the layout
      builder accepts a partition is a script of outcomes. */
  class SuperFlashHelper {
    var opened_: set<string>
    var willFlash: set<string>
    var accepts: seq<bool>

    constructor (accepts: seq<bool>)
      ensures willFlash == {} && opened_ == {} && this.accepts == accepts
    {
      opened_, willFlash := {}, {};
      this.accepts := accepts;
    }

    /** A partition outside super, or an optional one without image, is passed over. Another one joins
        the layout exactly if its image can be used and the builder accepts it. */
    method AddPartition(env: Env, partition: string, image: string, optional: bool) returns (ok: bool)
      modifies this
      ensures var usable := image in old(opened_) || Usable(env, image);
              if partition !in env.inSuper then ok && unchanged(this)
              else if !usable then unchanged(this) && (ok <==> optional && image !in env.images)
              else
                && (ok <==> old(accepts) != [] && old(accepts)[0])
                && willFlash == old(willFlash) + (if ok then {partition} else {})
                && opened_ == old(opened_) + {image}
                && accepts == if old(accepts) == [] then [] else old(accepts)[1..]
    {
      if partition !in env.inSuper { return true; }
      if image !in opened_ {
        if image !in env.images { return optional; }
        if env.images[image] { return false; }
        opened_ := opened_ + {image};
      }
      var accepted := accepts != [] && accepts[0];
      accepts := if accepts == [] then [] else accepts[1..];
      if !accepted { return false; }
      willFlash := willFlash + {partition};
      return true;
    }
  }

  /** An image that can be opened and is not sparse. */
  predicate Usable(env: Env, image: string) { image in env.images && !env.images[image] }

  /** Names of the dynamic flash tasks that belong to super. */
  function LayoutOf(env: Env, tasks: seq<Task>): set<string> {
    set i | 0 <= i < |tasks| && IsDynamic(env, tasks[i]) && FullName(env, tasks[i]).value in env.inSuper
      :: FullName(env, tasks[i]).value
  }

  predicate Survives(env: Env, layout: set<string>, t: Task) {
    if t.Flash? then FullName(env, t).Some? && FullName(env, t).value !in layout
    else !t.UpdateSuper? && !t.Reboot?
  }

  function Survivors(env: Env, layout: set<string>, tasks: seq<Task>): seq<Task> {
    if tasks == [] then []
    else
      var t := tasks[|tasks| - 1];
      Survivors(env, layout, tasks[..|tasks| - 1]) + if Survives(env, layout, t) then [t] else []
  }

  datatype Outcome = Aborted | Unbuilt | Built(superName: string, partitions: set<string>, rest: seq<Task>)

  predicate Optimizable(env: Env) {
    env.supportsAB && env.slotOverride != "all" && env.superEmpty && env.superSize.Some? && env.metadata
  }

  lemma LayoutSnoc(env: Env, tasks: seq<Task>, i: nat)
    requires i < |tasks|
    ensures var t := tasks[i];
            LayoutOf(env, tasks[..i + 1]) == LayoutOf(env, tasks[..i]) +
            if IsDynamic(env, t) && FullName(env, t).value in env.inSuper then {FullName(env, t).value} else {}
  {
    var a, b := tasks[..i], tasks[..i + 1];
    forall j | 0 <= j < |a|
      ensures a[j] == b[j]
    {
    }
    assert b[i] == tasks[i];
  }

  /** Every dynamic partition of super has a usable image. */
  predicate ImagesUsable(env: Env, tasks: seq<Task>) {
    forall i :: 0 <= i < |tasks| && IsDynamic(env, tasks[i]) && FullName(env, tasks[i]).value in env.inSuper
                ==> Usable(env, tasks[i].image)
  }

  ghost predicate AllAccepted(accepts: seq<bool>, n: nat) {
    |accepts| >= n && forall i :: 0 <= i < n ==> accepts[i]
  }

  /** Builds the layout from the dynamic flash tasks and removes what it makes unnecessary. If it is
      built it holds exactly the dynamic partitions of super, and what is left is everything else but
      reboots and super updates. It is built if the device allows it and no image or partition is
      refused, and never with an image that cannot be used. */
  method InitializeFromTasks(env: Env, tasks: seq<Task>, accepts: seq<bool>) returns (r: Outcome)
    ensures r.Built? ==> Optimizable(env) && Named(env, tasks)
    ensures r.Built? ==> r.partitions == LayoutOf(env, tasks) && r.rest == Survivors(env, r.partitions, tasks)
    ensures r.Aborted? ==> Optimizable(env) && !Named(env, tasks)
    ensures !Optimizable(env) ==> r.Unbuilt?
    ensures r.Built? ==> ImagesUsable(env, tasks) && env.layout
    ensures r.Built? ==> r.superName == if env.superName.Some? then env.superName.value else "super"
    ensures Optimizable(env) && Named(env, tasks) && ImagesUsable(env, tasks) && env.layout
            && AllAccepted(accepts, |tasks|)
            ==> r.Built?
  {
    if !env.supportsAB || env.slotOverride == "all" || !env.superEmpty { return Unbuilt; }
    var superName := if env.superName.Some? then env.superName.value else "super";
    if env.superSize.None? || !env.metadata { return Unbuilt; }
    var helper := new SuperFlashHelper(accepts);
    for i := 0 to |tasks|
      invariant helper.willFlash == LayoutOf(env, tasks[..i]) && Named(env, tasks[..i])
      invariant fresh(helper)
      invariant ImagesUsable(env, tasks[..i]) && forall m <- helper.opened_ :: Usable(env, m)
      invariant AllAccepted(accepts, |tasks|) ==> AllAccepted(helper.accepts, |tasks| - i)
    {
      LayoutSnoc(env, tasks, i);
      if tasks[i].Flash? {
        var name := FullName(env, tasks[i]);
        if name.None? { return Aborted; }
        if name.value in env.dynamic {
          var ok := helper.AddPartition(env, name.value, tasks[i].image, false);
          if !ok { return Unbuilt; }
        }
      }
      assert tasks[..i + 1] == tasks[..i] + [tasks[i]];
    }
    assert tasks[..|tasks|] == tasks;
    if !env.layout { return Unbuilt; }
    var rest := RemoveFlashed(env, helper.willFlash, tasks);
    return Built(superName, helper.willFlash, rest);
  }

  method RemoveFlashed(env: Env, layout: set<string>, tasks: seq<Task>) returns (rest: seq<Task>)
    ensures rest == Survivors(env, layout, tasks)
  {
    rest := [];
    for i := 0 to |tasks|
      invariant rest == Survivors(env, layout, tasks[..i])
    {
      assert tasks[..i + 1][..i] == tasks[..i];
      if Survives(env, layout, tasks[i]) { rest := rest + [tasks[i]]; }
    }
    assert tasks[..|tasks|] == tasks;
  }

  // ------------------------------------------------------------ where the new tasks go

  /** The first wipe or dynamic flash, or the end. */
  function LayoutPlace(env: Env, tasks: seq<Task>): (k: nat)
    ensures k <= |tasks|
    ensures forall i :: 0 <= i < k ==> !tasks[i].Wipe? && !IsDynamic(env, tasks[i])
    ensures k < |tasks| ==> tasks[k].Wipe? || IsDynamic(env, tasks[k])
  {
    if tasks == [] || tasks[0].Wipe? || IsDynamic(env, tasks[0]) then 0 else 1 + LayoutPlace(env, tasks[1..])
  }

  function Resizes(env: Env, tasks: seq<Task>): seq<Task> {
    if tasks == [] then []
    else
      var t := tasks[|tasks| - 1];
      Resizes(env, tasks[..|tasks| - 1]) +
      if IsDynamic(env, t) then [Resize(t.partition, "0", env.slotOverride)] else []
  }

  /** The first dynamic flash, or the end. */
  function ResizePlace(env: Env, tasks: seq<Task>): (k: nat)
    ensures k <= |tasks|
    ensures forall i :: 0 <= i < k ==> !IsDynamic(env, tasks[i])
    ensures k < |tasks| ==> IsDynamic(env, tasks[k])
  {
    if tasks == [] || IsDynamic(env, tasks[0]) then 0 else 1 + ResizePlace(env, tasks[1..])
  }

  lemma {:induction false} ResizesNone(env: Env, tasks: seq<Task>)
    ensures (Resizes(env, tasks) == []) <==> (forall i :: 0 <= i < |tasks| ==> !IsDynamic(env, tasks[i]))
  {
    if tasks != [] {
      ResizesNone(env, tasks[..|tasks| - 1]);
    }
  }

  method AddResizeTasks(env: Env, tasks: seq<Task>) returns (r: Option<seq<Task>>)
    ensures r.Some? <==> Named(env, tasks)
    ensures r.Some? ==> var k := ResizePlace(env, tasks);
                        r.value == tasks[..k] + Resizes(env, tasks) + tasks[k..]
  {
    var resizes: seq<Task> := [];
    var loc: Option<nat> := None;
    for i := 0 to |tasks|
      invariant Named(env, tasks[..i]) && resizes == Resizes(env, tasks[..i])
      invariant loc.None? ==> forall j :: 0 <= j < i ==> !IsDynamic(env, tasks[j])
      invariant loc.Some? ==> loc.value < i && IsDynamic(env, tasks[loc.value])
      invariant loc.Some? ==> forall j :: 0 <= j < loc.value ==> !IsDynamic(env, tasks[j])
    {
      assert tasks[..i + 1][..i] == tasks[..i];
      if tasks[i].Flash? {
        var name := FullName(env, tasks[i]);
        if name.None? { return None; }
        if name.value in env.dynamic {
          if loc.None? { loc := Some(i); }
          resizes := resizes + [Resize(tasks[i].partition, "0", env.slotOverride)];
        }
      }
      assert tasks[..i + 1] == tasks[..i] + [tasks[i]];
    }
    assert tasks[..|tasks|] == tasks;
    ResizesNone(env, tasks);
    if loc.None? {
      assert tasks[..ResizePlace(env, tasks)] + [] + tasks[ResizePlace(env, tasks)..] == tasks;
      return Some(tasks);
    }
    return Some(tasks[..loc.value] + resizes + tasks[loc.value..]);
  }

  /** The end of the fastboot-info parser: optimise if possible, otherwise resize first. */
  method Plan(env: Env, tasks: seq<Task>, accepts: seq<bool>) returns (r: Option<seq<Task>>, ghost built: Outcome)
    ensures r.Some? <==> Named(env, tasks)
    ensures Optimizable(env) && Named(env, tasks) && ImagesUsable(env, tasks) && env.layout
            && AllAccepted(accepts, |tasks|)
            ==> built.Built?
    ensures built.Built? ==> Optimizable(env) && ImagesUsable(env, tasks) && env.layout
    ensures r.Some? && built.Built? ==>
              && built.superName == (if env.superName.Some? then env.superName.value else "super")
              && built.partitions == LayoutOf(env, tasks)
              && var rest := Survivors(env, built.partitions, tasks);
                 var k := LayoutPlace(env, rest);
                 r.value == rest[..k] + [FlashSuperLayout(built.superName, built.partitions)] + rest[k..]
    ensures r.Some? && !built.Built? ==>
              var k := ResizePlace(env, tasks);
              r.value == tasks[..k] + Resizes(env, tasks) + tasks[k..]
  {
    var outcome := InitializeFromTasks(env, tasks, accepts);
    built := outcome;
    match outcome
    case Aborted => return None, built;
    case Unbuilt => r := AddResizeTasks(env, tasks);
    case Built(superName, partitions, rest) =>
      SurvivorsNamed(env, partitions, tasks);
      var at := 0;
      while at < |rest| && !rest[at].Wipe? && !IsDynamic(env, rest[at])
        invariant at <= |rest| && forall i :: 0 <= i < at ==> !rest[i].Wipe? && !IsDynamic(env, rest[i])
      {
        at := at + 1;
      }
      r := Some(rest[..at] + [FlashSuperLayout(superName, partitions)] + rest[at..]);
  }

  // ------------------------------------------------------------ what a plan keeps

  lemma {:induction false} SurvivorsNamed(env: Env, layout: set<string>, tasks: seq<Task>)
    ensures Named(env, Survivors(env, layout, tasks))
  {
    if tasks != [] {
      SurvivorsNamed(env, layout, tasks[..|tasks| - 1]);
    }
  }

  /** Survivor `p` is the one that has exactly `p` survivors before it: survivors keep their order
      and none is repeated. */
  lemma {:induction false} SurvivorFrom(env: Env, layout: set<string>, tasks: seq<Task>, p: nat) returns (i: nat)
    requires p < |Survivors(env, layout, tasks)|
    ensures i < |tasks| && tasks[i] == Survivors(env, layout, tasks)[p] && Survives(env, layout, tasks[i])
    ensures |Survivors(env, layout, tasks[..i])| == p
    decreases |tasks|
  {
    var front := tasks[..|tasks| - 1];
    if p < |Survivors(env, layout, front)| {
      i := SurvivorFrom(env, layout, front, p);
      assert front[..i] == tasks[..i];
    } else {
      i := |front|;
    }
  }

  lemma {:induction false} SurvivorKept(env: Env, layout: set<string>, tasks: seq<Task>, i: nat)
    requires i < |tasks| && Survives(env, layout, tasks[i])
    ensures tasks[i] in Survivors(env, layout, tasks)
    decreases |tasks|
  {
    if i < |tasks| - 1 {
      SurvivorKept(env, layout, tasks[..|tasks| - 1], i);
    }
  }

  lemma SurvivorsAre(env: Env, layout: set<string>, tasks: seq<Task>)
    requires Named(env, tasks)
    ensures forall t :: t in Survivors(env, layout, tasks) <==> t in tasks && Survives(env, layout, t)
  {
    hide Survives;
    var rest := Survivors(env, layout, tasks);
    forall i | 0 <= i < |tasks|
      ensures Survives(env, layout, tasks[i]) ==> tasks[i] in rest
    {
      if Survives(env, layout, tasks[i]) { SurvivorKept(env, layout, tasks, i); }
    }
    forall t | t in rest
      ensures Survives(env, layout, t) && t in tasks
    {
      var p :| 0 <= p < |rest| && rest[p] == t;
      var i := SurvivorFrom(env, layout, tasks, p);
    }
  }

  /** Optimising loses no work: every flash task is either kept or has its partition in the layout,
      never both; every partition of the layout comes from a flash task that was removed; exactly the
      reboots and super updates are dropped besides, and nothing else is added; and the layout comes
      before every wipe and every dynamic flash. */
  lemma OptimisedPlanConserves(env: Env, tasks: seq<Task>, superName: string, plan: seq<Task>)
    requires Named(env, tasks)
    requires var layout := LayoutOf(env, tasks);
             var rest := Survivors(env, layout, tasks);
             var k := LayoutPlace(env, rest);
             plan == rest[..k] + [FlashSuperLayout(superName, layout)] + rest[k..]
    ensures forall i :: 0 <= i < |tasks| && tasks[i].Flash? ==>
              (tasks[i] in plan <==> FullName(env, tasks[i]).value !in LayoutOf(env, tasks))
    ensures forall i :: 0 <= i < |tasks| && !tasks[i].Flash? && !tasks[i].Reboot? && !tasks[i].UpdateSuper? ==>
              tasks[i] in plan
    ensures forall t <- plan :: !t.Reboot? && !t.UpdateSuper?
    ensures forall t <- plan :: t in tasks || t == FlashSuperLayout(superName, LayoutOf(env, tasks))
    ensures forall n <- LayoutOf(env, tasks) ::
              exists i :: 0 <= i < |tasks| && tasks[i].Flash? && FullName(env, tasks[i]) == Some(n) && tasks[i] !in plan
    ensures exists k :: 0 <= k < |plan| && plan[k] == FlashSuperLayout(superName, LayoutOf(env, tasks)) &&
                        forall q :: 0 <= q < k ==> !plan[q].Wipe? && !IsDynamic(env, plan[q])
  {
    hide Survivors;
    var layout := LayoutOf(env, tasks);
    var rest := Survivors(env, layout, tasks);
    var k := LayoutPlace(env, rest);
    var super := FlashSuperLayout(superName, layout);
    assert forall t :: t in plan <==> t in rest || t == super by {
      assert rest == rest[..k] + rest[k..];
    }
    SurvivorsAre(env, layout, tasks);
    assert plan[k] == super;
    forall n | n in layout
      ensures exists i :: 0 <= i < |tasks| && tasks[i].Flash? && FullName(env, tasks[i]) == Some(n) && tasks[i] !in plan
    {
      var i :| 0 <= i < |tasks| && IsDynamic(env, tasks[i]) && FullName(env, tasks[i]).value == n;
      assert !Survives(env, layout, tasks[i]);
    }
  }

  /** Without the layout, the resizes are those of the dynamic flash tasks, one each and in their
      order: the resize of task `i` stands where the dynamic tasks before it end. */
  lemma {:induction false} ResizeOf(env: Env, tasks: seq<Task>, i: nat)
    requires i < |tasks| && IsDynamic(env, tasks[i])
    ensures var p := |Resizes(env, tasks[..i])|;
            p < |Resizes(env, tasks)| && Resizes(env, tasks)[p] == Resize(tasks[i].partition, "0", env.slotOverride)
    decreases |tasks|
  {
    if i < |tasks| - 1 {
      var front := tasks[..|tasks| - 1];
      ResizeOf(env, front, i);
      assert front[..i] == tasks[..i];
    }
  }

  lemma {:induction false} ResizeFrom(env: Env, tasks: seq<Task>, p: nat) returns (i: nat)
    requires p < |Resizes(env, tasks)|
    ensures i < |tasks| && IsDynamic(env, tasks[i]) && |Resizes(env, tasks[..i])| == p
    decreases |tasks|
  {
    var front := tasks[..|tasks| - 1];
    if p < |Resizes(env, front)| {
      i := ResizeFrom(env, front, p);
      assert front[..i] == tasks[..i];
    } else {
      i := |front|;
    }
  }

  /** The plan with resizes is the given list with all of them inserted in one place, before every
      dynamic flash. */
  lemma ResizedPlanConserves(env: Env, tasks: seq<Task>, plan: seq<Task>)
    requires var k := ResizePlace(env, tasks);
             plan == tasks[..k] + Resizes(env, tasks) + tasks[k..]
    ensures var k, n := ResizePlace(env, tasks), |Resizes(env, tasks)|;
            && |plan| == |tasks| + n
            && plan[..k] + plan[k + n..] == tasks
            && (forall q :: k <= q < k + n ==> plan[q].Resize?)
            && (forall q :: 0 <= q < |plan| && IsDynamic(env, plan[q]) ==> q >= k + n)
  {
    var k, n := ResizePlace(env, tasks), |Resizes(env, tasks)|;
    forall q | k <= q < k + n
      ensures plan[q].Resize?
    {
      var i := ResizeFrom(env, tasks, q - k);
      ResizeOf(env, tasks, i);
    }
    forall q | 0 <= q < k
      ensures !IsDynamic(env, plan[q])
    {
      assert plan[q] == tasks[q];
    }
  }
}
