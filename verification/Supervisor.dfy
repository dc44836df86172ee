/** The bounded owner of resident tasks.

    Tokio's join set is the set of tasks not yet joined; which task is joined next, and how it
    ended, is decided outside. Spawned metadata is numbered in spawn order, so that the ghost
    fields can say where each one went.
 */
module Supervisor {
  import opened ByteStrings
  import opened Sorting

  type TaskId = nat

  datatype Metadata = Metadata(leaseId: bytes, jobId: bytes, processId: bytes, name: bytes, generation: nat)

  datatype JoinKind = Returned(ok: bool) | Panic | Abort

  datatype Completion =
    | Finished(metadata: Metadata, ok: bool)
    | Panicked(metadata: Metadata)
    | Cancelled(metadata: Metadata)

  function CompletionOf(metadata: Metadata, kind: JoinKind): (c: Completion)
    ensures c.metadata == metadata
    ensures c.Finished? <==> kind.Returned?
    ensures c.Finished? ==> c.ok == kind.ok
    ensures c.Cancelled? <==> kind == Abort
  {
    match kind
    case Returned(ok) => Finished(metadata, ok)
    case Panic => Panicked(metadata)
    case Abort => Cancelled(metadata)
  }

  // ---- Where every spawned metadata is ----

  /** Each unjoined task holds the metadata it was spawned with, under its own number. */
  ghost predicate Held(metadata: map<TaskId, Metadata>, numberOf: map<TaskId, nat>, spawned: seq<Metadata>) {
    && numberOf.Keys == metadata.Keys
    && (forall id :: id in numberOf ==> numberOf[id] < |spawned| && spawned[numberOf[id]] == metadata[id])
    && (forall a, b :: a in numberOf && b in numberOf && numberOf[a] == numberOf[b] ==> a == b)
  }

  ghost predicate NumberHeld(numberOf: map<TaskId, nat>, n: nat) {
    exists id :: id in numberOf && numberOf[id] == n
  }

  /** Every number is either held or has been reported, never both, and reported at most once. */
  ghost predicate Settled(numberOf: map<TaskId, nat>, spawned: seq<Metadata>, reaped: seq<nat>) {
    && Distinct(reaped)
    && (forall n :: n in reaped ==> n < |spawned|)
    && (forall n :: 0 <= n < |spawned| ==> (n in reaped <==> !NumberHeld(numberOf, n)))
  }

  lemma SpawnHeld(metadata: map<TaskId, Metadata>, numberOf: map<TaskId, nat>, spawned: seq<Metadata>, id: TaskId, m: Metadata)
    requires Held(metadata, numberOf, spawned) && id !in metadata
    ensures Held(metadata[id := m], numberOf[id := |spawned|], spawned + [m])
  {
  }

  lemma SpawnSettled(metadata: map<TaskId, Metadata>, numberOf: map<TaskId, nat>, spawned: seq<Metadata>, reaped: seq<nat>, id: TaskId, m: Metadata)
    requires Held(metadata, numberOf, spawned) && Settled(numberOf, spawned, reaped) && id !in metadata
    ensures Settled(numberOf[id := |spawned|], spawned + [m], reaped)
  {
    var after := numberOf[id := |spawned|];
    forall n: nat | n < |spawned| + 1 ensures n in reaped <==> !NumberHeld(after, n) {
      if n == |spawned| {
        assert after[id] == n;
      } else if NumberHeld(numberOf, n) {
        var a :| a in numberOf && numberOf[a] == n;
        assert a in after && after[a] == n;
      }
    }
  }

  lemma ReapHeld(metadata: map<TaskId, Metadata>, numberOf: map<TaskId, nat>, spawned: seq<Metadata>, id: TaskId)
    requires Held(metadata, numberOf, spawned) && id in metadata
    ensures Held(metadata - {id}, numberOf - {id}, spawned)
  {
  }

  lemma ReapSettled(metadata: map<TaskId, Metadata>, numberOf: map<TaskId, nat>, spawned: seq<Metadata>, reaped: seq<nat>, id: TaskId)
    requires Held(metadata, numberOf, spawned) && Settled(numberOf, spawned, reaped) && id in metadata
    ensures Settled(numberOf - {id}, spawned, reaped + [numberOf[id]])
  {
    var after, gone := numberOf - {id}, numberOf[id];
    assert NumberHeld(numberOf, gone);
    forall n: nat | n < |spawned| ensures n in reaped + [gone] <==> !NumberHeld(after, n) {
      if n != gone && NumberHeld(numberOf, n) {
        var a :| a in numberOf && numberOf[a] == n;
        assert a in after && after[a] == n;
      }
    }
  }

  class ResidentProcessSupervisor {
    var tasks: set<TaskId>
    var metadata: map<TaskId, Metadata>
    const maxActive: nat

    ghost var spawned: seq<Metadata>          // everything ever spawned, in order
    ghost var numberOf: map<TaskId, nat>      // the number of each task not yet joined
    ghost var reaped: seq<nat>                // the numbers reported in completions, in order

    /** Task ids and metadata keys coincide, the cap holds, and every spawned metadata is either held
        for exactly one unjoined task or has been reported exactly once. */
    ghost predicate Valid()
      reads this
    {
      && metadata.Keys == tasks && |metadata| <= maxActive && maxActive >= 1
      && Held(metadata, numberOf, spawned) && Settled(numberOf, spawned, reaped)
    }

    constructor (limit: nat)
      ensures Valid() && metadata == map[] && spawned == [] && reaped == []
      ensures maxActive == if limit == 0 then 1 else limit
    {
      tasks, metadata := {}, map[];
      maxActive := if limit == 0 then 1 else limit;
      spawned, numberOf, reaped := [], map[], [];
    }

    predicate IsFull()
      reads this
    {
      |metadata| >= maxActive
    }

    /** Refused, without any change, exactly at the cap; `id` is the fresh id the runtime assigns. */
    method Spawn(m: Metadata, id: TaskId) returns (ok: bool)
      requires Valid() && id !in tasks
      modifies this
      ensures Valid() && (ok <==> |old(metadata)| < maxActive)
      ensures !ok ==> metadata == old(metadata) && spawned == old(spawned) && reaped == old(reaped)
      ensures ok ==> metadata == old(metadata)[id := m] && spawned == old(spawned) + [m] && reaped == old(reaped)
    {
      hide Held, Settled;
      if IsFull() {
        return false;
      }
      SpawnHeld(metadata, numberOf, spawned, id, m);
      SpawnSettled(metadata, numberOf, spawned, reaped, id, m);
      tasks := tasks + {id};
      metadata := metadata[id := m];
      numberOf := numberOf[id := |spawned|];
      spawned := spawned + [m];
      assert metadata.Keys == old(metadata).Keys + {id};
      return true;
    }

    /** The metadata of a joined task is there to be removed, and is reported under its number. */
    method Complete(id: TaskId, kind: JoinKind) returns (c: Completion, ghost number: nat)
      requires Valid() && id in tasks
      modifies this
      ensures Valid()
      ensures c == CompletionOf(old(metadata)[id], kind)
      ensures metadata == old(metadata) - {id} && |metadata| == |old(metadata)| - 1
      ensures spawned == old(spawned) && reaped == old(reaped) + [number]
      ensures number < |spawned| && spawned[number] == c.metadata
    {
      HeldAt(metadata, numberOf, spawned, id);
      hide Held, Settled;
      ReapHeld(metadata, numberOf, spawned, id);
      ReapSettled(metadata, numberOf, spawned, reaped, id);
      WithoutTask(metadata, id);
      c := CompletionOf(metadata[id], kind);
      number := numberOf[id];
      reaped := reaped + [number];
      tasks := tasks - {id};
      metadata := metadata - {id};
      numberOf := numberOf - {id};
    }

    /** `ready` is a task that has ended, if any has. */
    method TryReap(ready: Option<(TaskId, JoinKind)>) returns (r: Option<Completion>)
      requires Valid() && (ready.Some? ==> ready.value.0 in tasks)
      modifies this
      ensures Valid() && spawned == old(spawned)
      ensures ready.None? ==> r.None? && metadata == old(metadata) && reaped == old(reaped)
      ensures ready.Some? ==>
                && r == Some(CompletionOf(old(metadata)[ready.value.0], ready.value.1))
                && metadata == old(metadata) - {ready.value.0} && |reaped| == |old(reaped)| + 1
    {
      hide Held, Settled;
      if ready.None? {
        return None;
      }
      var c, _ := Complete(ready.value.0, ready.value.1);
      return Some(c);
    }

    /** Every task is joined and reported once; nothing is left, and then every metadata ever spawned
        has been reported. */
    method Shutdown(ending: TaskId -> JoinKind) returns (completions: seq<Completion>, ghost order: seq<TaskId>)
      requires Valid()
      modifies this
      ensures Valid() && tasks == {} && metadata == map[] && spawned == old(spawned)
      ensures |completions| == |order| == |old(metadata)| && Distinct(order)
      ensures forall i :: 0 <= i < |order| ==>
                (order[i] in old(metadata) && completions[i] == CompletionOf(old(metadata)[order[i]], ending(order[i])))
      ensures forall n :: 0 <= n < |spawned| ==> n in reaped
    {
      hide Held, Settled, CompletionOf;
      completions, order := [], [];
      while tasks != {}
        invariant Valid() && spawned == old(spawned)
        invariant |completions| == |order| && |order| + |metadata| == |old(metadata)| && Distinct(order)
        invariant forall i :: 0 <= i < |order| ==>
                    (&& order[i] in old(metadata) && order[i] !in metadata
                     && completions[i] == CompletionOf(old(metadata)[order[i]], ending(order[i])))
        invariant forall id :: id in metadata ==> id in old(metadata) && metadata[id] == old(metadata)[id]
        decreases tasks
      {
        var id :| id in tasks;
        var c, _ := Complete(id, ending(id));
        completions := completions + [c];
        order := order + [id];
      }
      assert metadata.Keys == {};
      NothingHeld(metadata, numberOf, spawned, reaped);
    }
  }

  lemma WithoutTask(metadata: map<TaskId, Metadata>, id: TaskId)
    requires id in metadata
    ensures (metadata - {id}).Keys == metadata.Keys - {id} && |metadata - {id}| == |metadata| - 1
  {
    assert (metadata - {id}).Keys == metadata.Keys - {id};
    assert |metadata - {id}| == |(metadata - {id}).Keys| && |metadata| == |metadata.Keys|;
  }

  lemma HeldAt(metadata: map<TaskId, Metadata>, numberOf: map<TaskId, nat>, spawned: seq<Metadata>, id: TaskId)
    requires Held(metadata, numberOf, spawned) && id in metadata
    ensures id in numberOf && numberOf[id] < |spawned| && spawned[numberOf[id]] == metadata[id]
  {
  }

  lemma NothingHeld(metadata: map<TaskId, Metadata>, numberOf: map<TaskId, nat>, spawned: seq<Metadata>, reaped: seq<nat>)
    requires Held(metadata, numberOf, spawned) && Settled(numberOf, spawned, reaped) && metadata == map[]
    ensures forall n :: 0 <= n < |spawned| ==> n in reaped
  {
    forall n: nat | n < |spawned| ensures n in reaped {
      assert !NumberHeld(numberOf, n);
    }
  }
}
