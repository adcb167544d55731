/**
 * The pods of a StatefulSet while its labels change. Deleting the set orphans its pods; the set that is created next
 * takes over those its selector matches and strands the rest.
 */
module PodMigration {
  import opened Common
  import opened StatefulSetMigration

  /** A pod, by the labels of the template it was created from. */
  type Pod = Labels

  /** The set; the pods that are its own, or wait for the next one; and the pods left behind. */
  datatype World = World(statefulSet: State, pods: seq<Pod>, stranded: seq<Pod>)

  function Adopted(pods: seq<Pod>, selector: Labels): seq<Pod> {
    if pods == [] then []
    else (if Selects(selector, pods[0]) then [pods[0]] else []) + Adopted(pods[1..], selector)
  }

  function Missed(pods: seq<Pod>, selector: Labels): seq<Pod> {
    if pods == [] then []
    else (if Selects(selector, pods[0]) then [] else [pods[0]]) + Missed(pods[1..], selector)
  }

  /** One reconcile; a set that it creates adopts what its selector matches. */
  function AfterReconcile(w: World, labels: Labels, fixed: ImmutableSpec): World {
    var next := Step(w.statefulSet, labels, fixed).0;
    if w.statefulSet.None? && next.Some? then
      World(next, Adopted(w.pods, next.value.selector), w.stranded + Missed(w.pods, next.value.selector))
    else
      w.(statefulSet := next)
  }

  /** The rollout replaces a pod by one of the current template; a set starts pods, and pods stop with or without it. */
  datatype Change =
    | Asked(labels: Labels, fixed: ImmutableSpec)
    | Observed(availableReplicas: int)
    | Rolled(i: nat)
    | Started
    | Stopped(i: nat)

  function NextWorld(w: World, c: Change): World {
    match c
    case Asked(labels, fixed) => AfterReconcile(w, labels, fixed)
    case Observed(n) => w.(statefulSet := WithAvailability(w.statefulSet, n))
    case Rolled(i) =>
      if w.statefulSet.Some? && i < |w.pods| then w.(pods := w.pods[i := w.statefulSet.value.template]) else w
    case Started =>
      if w.statefulSet.Some? then w.(pods := w.pods + [w.statefulSet.value.template]) else w
    case Stopped(i) =>
      if i < |w.pods| then w.(pods := w.pods[..i] + w.pods[i + 1..]) else w
  }

  function WorldAfter(w: World, changes: seq<Change>): World
    decreases |changes|
  {
    if changes == [] then w else WorldAfter(NextWorld(w, changes[0]), changes[1..])
  }

  lemma {:induction false} WorldAfterConcat(w: World, a: seq<Change>, b: seq<Change>)
    ensures WorldAfter(w, a + b) == WorldAfter(WorldAfter(w, a), b)
    decreases |a|
  {
    if a == [] {
      assert a + b == b;
    } else {
      assert (a + b)[0] == a[0] && (a + b)[1..] == a[1..] + b;
      WorldAfterConcat(NextWorld(w, a[0]), a[1..], b);
    }
  }

  // ---------------------------------------------------------------- who is adopted

  ghost predicate AllCarry(pods: seq<Pod>, labels: Labels) {
    forall p :: p in pods ==> Selects(labels, p)
  }

  /** Every pod is of the current revision: the status has as many updated replicas as replicas. */
  ghost predicate AllCurrent(w: World) {
    w.statefulSet.Some? && forall p :: p in w.pods ==> p == w.statefulSet.value.template
  }

  /** Every pod is either adopted or missed. */
  lemma {:induction false} AdoptionLosesNoPod(pods: seq<Pod>, selector: Labels)
    ensures multiset(Adopted(pods, selector)) + multiset(Missed(pods, selector)) == multiset(pods)
  {
    if pods != [] {
      AdoptionLosesNoPod(pods[1..], selector);
      assert pods == [pods[0]] + pods[1..];
    }
  }

  /** Exactly the pods that carry the selector are adopted, and the others missed. */
  lemma {:induction false} AdoptionSplits(pods: seq<Pod>, selector: Labels, p: Pod)
    ensures p in Adopted(pods, selector) <==> p in pods && Selects(selector, p)
    ensures p in Missed(pods, selector) <==> p in pods && !Selects(selector, p)
  {
    if pods != [] {
      AdoptionSplits(pods[1..], selector, p);
      assert pods == [pods[0]] + pods[1..];
    }
  }

  lemma AdoptedCarry(pods: seq<Pod>, selector: Labels)
    ensures AllCarry(Adopted(pods, selector), selector)
    ensures Missed(pods, selector) == [] <==> AllCarry(pods, selector)
  {
    forall p
      ensures p in Adopted(pods, selector) ==> Selects(selector, p)
      ensures p in Missed(pods, selector) <==> p in pods && !Selects(selector, p)
    {
      AdoptionSplits(pods, selector, p);
    }
    if Missed(pods, selector) != [] {
      assert Missed(pods, selector)[0] in Missed(pods, selector);
    }
  }

  /** The set's own pods match its selector. */
  ghost predicate OwnPodsMatch(w: World) {
    && Valid(w.statefulSet)
    && (w.statefulSet.Some? ==> AllCarry(w.pods, w.statefulSet.value.selector))
  }

  lemma ChangeKeepsOwnPods(w: World, c: Change)
    requires OwnPodsMatch(w)
    ensures OwnPodsMatch(NextWorld(w, c))
  {
    match c
    case Asked(labels, fixed) =>
      StepFromValid(w.statefulSet, labels, fixed);
      var next := Step(w.statefulSet, labels, fixed).0;
      if w.statefulSet.None? && next.Some? {
        AdoptedCarry(w.pods, next.value.selector);
      }
    case _ =>
  }

  /** Over every run, whatever labels are asked for, every pod of the set matches the set's selector. */
  lemma {:induction false} OwnPodsMatchOverRuns(w: World, changes: seq<Change>)
    requires OwnPodsMatch(w)
    ensures OwnPodsMatch(WorldAfter(w, changes))
    decreases |changes|
  {
    if changes != [] {
      ChangeKeepsOwnPods(w, changes[0]);
      OwnPodsMatchOverRuns(NextWorld(w, changes[0]), changes[1..]);
    }
  }

  // ---------------------------------------------------------------- one deletion

  predicate Deletes(w: World, labels: Labels, fixed: ImmutableSpec) {
    Step(w.statefulSet, labels, fixed).1 == DeletedSet
  }

  function DeletedAndRecreated(w: World, labels: Labels, fixed: ImmutableSpec): World {
    AfterReconcile(AfterReconcile(w, labels, fixed), labels, fixed)
  }

  lemma Recreated(w: World, labels: Labels, fixed: ImmutableSpec)
    requires w.statefulSet.None?
    ensures var after := AfterReconcile(w, labels, fixed);
            && after.statefulSet == Some(StatefulSet(labels, labels, fixed, 0))
            && after.stranded == w.stranded + Missed(w.pods, labels)
            && (after.stranded == w.stranded <==> AllCarry(w.pods, labels))
  {
    AdoptedCarry(w.pods, labels);
    var missed := Missed(w.pods, labels);
    assert |w.stranded + missed| == |w.stranded| + |missed|;
    assert missed == [] ==> w.stranded + missed == w.stranded;
  }

  /** A set deleted and recreated for the same labels strands no pod exactly when every pod carries them. */
  lemma PodsStrandedExactly(w: World, labels: Labels, fixed: ImmutableSpec)
    requires Deletes(w, labels, fixed)
    ensures var after := DeletedAndRecreated(w, labels, fixed);
            && after.statefulSet == Some(StatefulSet(labels, labels, fixed, 0))
            && after.stranded == w.stranded + Missed(w.pods, labels)
            && (after.stranded == w.stranded <==> AllCarry(w.pods, labels))
  {
    var deleted := w.(statefulSet := None);
    assert AfterReconcile(w, labels, fixed) == deleted;
    Recreated(deleted, labels, fixed);
  }

  /** A deletion for the labels alone strands nothing if every pod is of the current revision. */
  lemma CurrentPodsAreKept(w: World, labels: Labels, fixed: ImmutableSpec)
    requires Valid(w.statefulSet) && Deletes(w, labels, fixed)
    requires AllCurrent(w) && w.statefulSet.value.fixed == fixed
    ensures DeletedAndRecreated(w, labels, fixed).stranded == w.stranded
  {
    LabelDeletionFollowsWidening(w.statefulSet, labels, fixed);
    PodsStrandedExactly(w, labels, fixed);
  }

  /** When every pod is of the current revision, only another immutable field that changes too early strands any. */
  lemma CurrentPodsStrandedExactly(w: World, labels: Labels, fixed: ImmutableSpec)
    requires Valid(w.statefulSet) && AllCurrent(w) && w.pods != []
    ensures Deletes(w, labels, fixed) && DeletedAndRecreated(w, labels, fixed).stranded != w.stranded
            <==> w.statefulSet.value.fixed != fixed && !Selects(labels, w.statefulSet.value.template)
  {
    DeletedExactly(w.statefulSet, labels, fixed);
    assert w.pods[0] in w.pods;
    if Deletes(w, labels, fixed) {
      PodsStrandedExactly(w, labels, fixed);
    }
  }

  lemma AskedTwice(w: World, labels: Labels, fixed: ImmutableSpec)
    ensures WorldAfter(w, [Asked(labels, fixed), Asked(labels, fixed)]) == DeletedAndRecreated(w, labels, fixed)
  {
    var ask := Asked(labels, fixed);
    assert [ask, ask][1..] == [ask];
    assert WorldAfter(NextWorld(w, ask), [ask]) == NextWorld(NextWorld(w, ask), ask);
  }

  // ---------------------------------------------------------------- a whole migration

  /** A migration from labels `old_`: before its deletion, every pod is of the first or of the widened template. */
  ghost predicate BeforeDeletion(w: World, old_: Labels, labels: Labels, fixed: ImmutableSpec) {
    && w.statefulSet.Some?
    && w.statefulSet.value.selector == old_ && w.statefulSet.value.fixed == fixed
    && (w.statefulSet.value.template == old_ || w.statefulSet.value.template == labels + old_)
    && (forall p :: p in w.pods ==> p == old_ || p == w.statefulSet.value.template)
  }

  /** The set and all its pods carry `old_`. */
  ghost predicate StartsAt(w: World, old_: Labels, fixed: ImmutableSpec) {
    Settled(w.statefulSet, old_, fixed) && forall p :: p in w.pods ==> p == old_
  }

  ghost predicate AfterDeletion(w: World, labels: Labels, fixed: ImmutableSpec) {
    && Valid(w.statefulSet)
    && (w.statefulSet.Some? ==> w.statefulSet.value.selector == labels && w.statefulSet.value.fixed == fixed)
  }

  ghost predicate AskedOnlyFor(changes: seq<Change>, labels: Labels, fixed: ImmutableSpec) {
    forall c :: c in changes && c.Asked? ==> c == Asked(labels, fixed)
  }

  lemma ReconcileInMigration(w: World, old_: Labels, labels: Labels, fixed: ImmutableSpec)
    requires BeforeDeletion(w, old_, labels, fixed)
    ensures var next := AfterReconcile(w, labels, fixed);
            && next.pods == w.pods && next.stranded == w.stranded
            && (if Deletes(w, labels, fixed) then next.statefulSet == None
                else BeforeDeletion(next, old_, labels, fixed))
  {
    var template := w.statefulSet.value.template;
    assert Selects(old_, labels + template);
    assert labels + (labels + old_) == labels + old_;
    assert labels == old_ ==> labels + old_ == old_;
    StepFromValid(w.statefulSet, labels, fixed);
    var next := Step(w.statefulSet, labels, fixed).0;
    if !Deletes(w, labels, fixed) {
      assert next == w.statefulSet || next.value.template == labels + template;
    }
  }

  lemma ChangeInMigration(w: World, c: Change, old_: Labels, labels: Labels, fixed: ImmutableSpec)
    requires BeforeDeletion(w, old_, labels, fixed) && (c.Asked? ==> c == Asked(labels, fixed))
    ensures var next := NextWorld(w, c);
            && next.stranded == w.stranded
            && (BeforeDeletion(next, old_, labels, fixed) || AfterDeletion(next, labels, fixed))
  {
    match c
    case Asked(_, _) => ReconcileInMigration(w, old_, labels, fixed);
    case Rolled(i) =>
      assert forall p :: p in NextWorld(w, c).pods ==> p in w.pods || p == w.statefulSet.value.template;
    case Started =>
      assert forall p :: p in NextWorld(w, c).pods ==> p in w.pods || p == w.statefulSet.value.template;
    case Stopped(i) => assert forall p :: p in NextWorld(w, c).pods ==> p in w.pods;
    case Observed(_) =>
  }

  lemma ChangeAfterDeletion(w: World, c: Change, labels: Labels, fixed: ImmutableSpec)
    requires AfterDeletion(w, labels, fixed) && (c.Asked? ==> c == Asked(labels, fixed))
    ensures AfterDeletion(NextWorld(w, c), labels, fixed)
    ensures !Deletes(w, labels, fixed)
  {
    StepFromValid(w.statefulSet, labels, fixed);
  }

  /** In a migration the set is deleted at most once, and until then nothing is stranded. */
  lemma {:induction false} MigrationPhases(
    w: World, changes: seq<Change>, old_: Labels, labels: Labels, fixed: ImmutableSpec)
    requires BeforeDeletion(w, old_, labels, fixed) || AfterDeletion(w, labels, fixed)
    requires AskedOnlyFor(changes, labels, fixed)
    ensures var end := WorldAfter(w, changes);
            || (BeforeDeletion(w, old_, labels, fixed) && BeforeDeletion(end, old_, labels, fixed)
                && end.stranded == w.stranded)
            || (AfterDeletion(end, labels, fixed) && !Deletes(end, labels, fixed))
    decreases |changes|
  {
    if changes == [] {
      if AfterDeletion(w, labels, fixed) {
        ChangeAfterDeletion(w, Started, labels, fixed);
      }
    } else {
      var c := changes[0];
      assert c in changes && forall d :: d in changes[1..] ==> d in changes;
      if BeforeDeletion(w, old_, labels, fixed) {
        ChangeInMigration(w, c, old_, labels, fixed);
      } else {
        ChangeAfterDeletion(w, c, labels, fixed);
      }
      MigrationPhases(NextWorld(w, c), changes[1..], old_, labels, fixed);
    }
  }

  /**
   * From a settled set, after any rollouts, starts, stops and reconciles for the new labels, deleting and recreating
   * the set strands nothing if and only if every pod is of the current revision, or the old labels carry the new ones.
   */
  lemma MigrationStrandsExactly(
    w: World, changes: seq<Change>, before: World, old_: Labels, labels: Labels, fixed: ImmutableSpec)
    requires StartsAt(w, old_, fixed) && AskedOnlyFor(changes, labels, fixed) && before == WorldAfter(w, changes)
    requires Deletes(before, labels, fixed)
    ensures DeletedAndRecreated(before, labels, fixed).stranded == w.stranded <==>
            Selects(labels, old_) || AllCurrent(before)
  {
    MigrationPhases(w, changes, old_, labels, fixed);
    DeletionInMigration(before, old_, labels, fixed);
  }

  lemma DeletionInMigration(w: World, old_: Labels, labels: Labels, fixed: ImmutableSpec)
    requires BeforeDeletion(w, old_, labels, fixed) && Deletes(w, labels, fixed)
    ensures DeletedAndRecreated(w, labels, fixed).stranded == w.stranded <==> Selects(labels, old_) || AllCurrent(w)
  {
    DeletedExactly(w.statefulSet, labels, fixed);
    PodsStrandedExactly(w, labels, fixed);
    assert Selects(labels, w.statefulSet.value.template);
  }

  // ---------------------------------------------------------------- the reconcile does not wait for the rollout

  function Copies(n: nat, pod: Pod): (r: seq<Pod>)
    ensures |r| == n && forall i :: 0 <= i < n ==> r[i] == pod
  {
    if n == 0 then [] else [pod] + Copies(n - 1, pod)
  }

  function Rolls(from: nat, n: nat): seq<Change>
    requires from <= n
    decreases n - from
  {
    if from == n then [] else [Rolled(from)] + Rolls(from + 1, n)
  }

  lemma {:induction false} RollsReplaceAPrefix(w: World, from: nat, k: nat, n: nat, old_: Pod)
    requires from <= k <= n && w.statefulSet.Some?
    requires w.pods == Copies(from, w.statefulSet.value.template) + Copies(n - from, old_)
    ensures WorldAfter(w, Rolls(from, k)) ==
            w.(pods := Copies(k, w.statefulSet.value.template) + Copies(n - k, old_))
    decreases k - from
  {
    if from < k {
      var template := w.statefulSet.value.template;
      var next := NextWorld(w, Rolled(from));
      assert next.pods == Copies(from + 1, template) + Copies(n - from - 1, old_);
      assert Rolls(from, k)[1..] == Rolls(from + 1, k);
      RollsReplaceAPrefix(next, from + 1, k, n, old_);
    }
  }

  lemma {:induction false} MissedCopies(k: nat, carrying: Pod, n: nat, other: Pod, selector: Labels)
    requires Selects(selector, carrying) && !Selects(selector, other)
    ensures Missed(Copies(k, carrying) + Copies(n, other), selector) == Copies(n, other)
    decreases k + n
  {
    var pods := Copies(k, carrying) + Copies(n, other);
    if k > 0 {
      assert pods[1..] == Copies(k - 1, carrying) + Copies(n, other);
      MissedCopies(k - 1, carrying, n, other, selector);
    } else if n > 0 {
      assert pods == Copies(n, other);
      assert pods[1..] == Copies(0, carrying) + Copies(n - 1, other);
      MissedCopies(0, carrying, n - 1, other, selector);
    }
  }

  /** The new labels are asked for, k of the pods are rolled, some pod is available, and two more reconciles follow. */
  function PartialRollout(labels: Labels, fixed: ImmutableSpec, k: nat, available: int): seq<Change> {
    [Asked(labels, fixed)] + Rolls(0, k) + [Observed(available), Asked(labels, fixed), Asked(labels, fixed)]
  }

  /**
   * One available pod is all the code waits for: for every change of labels that the old ones neither carry nor
   * contradict, the pods a rollout has not reached yet are stranded, all n of them if it has not begun.
   */
  lemma RolloutRemainderIsStranded(
    old_: Labels, labels: Labels, fixed: ImmutableSpec, n: nat, k: nat, availableBefore: int, available: int)
    requires !Selects(labels, old_) && AgreeOnSharedKeys(labels, old_)
    requires k <= n && available >= 1
    ensures var start := World(Some(StatefulSet(old_, old_, fixed, availableBefore)), Copies(n, old_), []);
            WorldAfter(start, PartialRollout(labels, fixed, k, available)).stranded == Copies(n - k, old_)
  {
    var start := World(Some(StatefulSet(old_, old_, fixed, availableBefore)), Copies(n, old_), []);
    var ask := Asked(labels, fixed);
    var merged := labels + old_;
    var widened := World(Some(StatefulSet(old_, merged, fixed, availableBefore)), Copies(n, old_), []);
    assert Selects(old_, merged) && Selects(labels, merged);
    assert NextWorld(start, ask) == widened;
    assert Copies(0, merged) + Copies(n, old_) == Copies(n, old_);
    RollsReplaceAPrefix(widened, 0, k, n, old_);
    var rolled := widened.(pods := Copies(k, merged) + Copies(n - k, old_));
    var rest := [Observed(available), ask, ask];
    assert PartialRollout(labels, fixed, k, available) == [ask] + (Rolls(0, k) + rest);
    WorldAfterConcat(start, [ask], Rolls(0, k) + rest);
    assert [ask][1..] == [];
    assert WorldAfter(start, [ask]) == widened;
    WorldAfterConcat(widened, Rolls(0, k), rest);
    var seen := NextWorld(rolled, Observed(available));
    assert rest[1..] == [ask, ask];
    assert WorldAfter(rolled, rest) == WorldAfter(seen, [ask, ask]);
    AskedTwice(seen, labels, fixed);
    DeletedExactly(seen.statefulSet, labels, fixed);
    PodsStrandedExactly(seen, labels, fixed);
    MissedCopies(k, merged, n - k, old_, labels);
  }

  // ---------------------------------------------------------------- what would be enough

  /**
   * Every deletion waits until all pods are of the current revision and the template carries the new labels, and the
   * labels stay until the set is recreated; `asked` are the labels asked for last.
   */
  ghost predicate Guarded(w: World, changes: seq<Change>, asked: Labels)
    decreases |changes|
  {
    changes != [] ==>
    match changes[0]
    case Asked(labels, fixed) =>
      && (w.statefulSet.None? ==> labels == asked)
      && (Deletes(w, labels, fixed) ==> AllCurrent(w) && Selects(labels, w.statefulSet.value.template))
      && Guarded(NextWorld(w, changes[0]), changes[1..], labels)
    case _ => Guarded(NextWorld(w, changes[0]), changes[1..], asked)
  }

  lemma GuardedReconcile(w: World, labels: Labels, fixed: ImmutableSpec)
    requires OwnPodsMatch(w) && (w.statefulSet.None? ==> AllCarry(w.pods, labels))
    requires Deletes(w, labels, fixed) ==> AllCurrent(w) && Selects(labels, w.statefulSet.value.template)
    ensures var next := AfterReconcile(w, labels, fixed);
            next.stranded == w.stranded && (next.statefulSet.None? ==> AllCarry(next.pods, labels))
  {
    if w.statefulSet.None? {
      Recreated(w, labels, fixed);
    } else {
      StepFromValid(w.statefulSet, labels, fixed);
    }
  }

  lemma GuardedChange(w: World, c: Change, asked: Labels)
    requires OwnPodsMatch(w) && (w.statefulSet.None? ==> AllCarry(w.pods, asked))
    requires c.Asked? ==>
               && (w.statefulSet.None? ==> c.labels == asked)
               && (Deletes(w, c.labels, c.fixed) ==>
                     AllCurrent(w) && Selects(c.labels, w.statefulSet.value.template))
    ensures var next := NextWorld(w, c);
            && next.stranded == w.stranded
            && (next.statefulSet.None? ==> AllCarry(next.pods, if c.Asked? then c.labels else asked))
  {
    match c
    case Asked(labels, fixed) => GuardedReconcile(w, labels, fixed);
    case Stopped(i) => assert forall p :: p in NextWorld(w, c).pods ==> p in w.pods;
    case _ =>
  }

  /** Over every run guarded like that, whatever labels it asks for, no pod is ever stranded. */
  lemma {:induction false} GuardedRunsStrandNothing(w: World, changes: seq<Change>, asked: Labels)
    requires OwnPodsMatch(w) && (w.statefulSet.None? ==> AllCarry(w.pods, asked))
    requires Guarded(w, changes, asked)
    ensures WorldAfter(w, changes).stranded == w.stranded
    decreases |changes|
  {
    if changes != [] {
      var c := changes[0];
      ChangeKeepsOwnPods(w, c);
      GuardedChange(w, c, asked);
      GuardedRunsStrandNothing(NextWorld(w, c), changes[1..], if c.Asked? then c.labels else asked);
    }
  }
}
