/**
 The pending record of one subagent and the actors that race on it: completion
 callbacks, cancel calls and orphan clean-ups. Each actor is a sequence of storage
 accesses with await points between them, interleaved arbitrarily with the others.
 */
module Subagents {
  import opened Option

  datatype SubagentState = Running | Completed | Failed | Canceled

  // ---------- one record and the actors racing on it ----------

  /** Where an actor is; each constructor names the access it does next. */
  datatype Actor =
    | CancelLook                                        // cancel: read the record
    | Aborting                                          // cancel: abort the child session
    | ListActive                                        // clean-up: list the running records
    | UpdateRead(target: SubagentState, delivers: bool)   // updateState: read
    | UpdateSave(target: SubagentState, delivers: bool)   // updateState: write the record it read back
    | Delivering                                        // completion: hand the result to the parent
    | Deleting                                          // delete the record

  datatype System = System(record: Option<SubagentState>, actors: map<nat, Actor>, deletions: nat)

  datatype Event =
    | StartCompletion(id: nat, success: bool)
    | StartCancel(id: nat)
    | StartCleanup(id: nat)
    | Step(id: nat)
    | Crash(id: nat)

  function Spawn(s: System, id: nat, a: Actor): System {
    if id in s.actors then s else s.(actors := s.actors[id := a])
  }

  function Move(s: System, id: nat, a: Actor): System {
    s.(actors := s.actors[id := a])
  }

  function Leave(s: System, id: nat): System {
    s.(actors := s.actors - {id})
  }

  /** One access of one actor. */
  function Advance(s: System, id: nat): System
    requires id in s.actors
  {
    match s.actors[id]
    case CancelLook => if s.record == Some(Running) then Move(s, id, Aborting) else Leave(s, id)
    case Aborting => Move(s, id, UpdateRead(Canceled, false))
    case ListActive => if s.record == Some(Running) then Move(s, id, UpdateRead(Failed, false)) else Leave(s, id)
    case UpdateRead(target, delivers) =>
      if s.record.Some? then Move(s, id, UpdateSave(target, delivers))
      else Move(s, id, if delivers then Delivering else Deleting)
    case UpdateSave(target, delivers) =>
      Move(s, id, if delivers then Delivering else Deleting).(record := Some(target))
    case Delivering => Move(s, id, Deleting)
    case Deleting => Leave(s, id).(record := None, deletions := s.deletions + 1)
  }

  function Next(s: System, e: Event): System {
    match e
    case StartCompletion(id, success) => Spawn(s, id, UpdateRead(if success then Completed else Failed, true))
    case StartCancel(id) => Spawn(s, id, CancelLook)
    case StartCleanup(id) => Spawn(s, id, ListActive)
    case Step(id) => if id in s.actors then Advance(s, id) else s
    case Crash(id) => Leave(s, id)
  }

  function Run(s: System, events: seq<Event>): System
    decreases events
  {
    if events == [] then s else Run(Next(s, events[0]), events[1..])
  }

  /** The record as `start_subagent` leaves it. */
  const STARTED := System(Some(Running), map[], 0)

  // ---------- the store: each actor without interleaving ----------

  function Stage(a: Actor): nat {
    match a
    case CancelLook => 6
    case Aborting => 5
    case ListActive => 5
    case UpdateRead(_, _) => 4
    case UpdateSave(_, _) => 3
    case Delivering => 2
    case Deleting => 1
  }

  /** The actor takes all its steps. */
  function Finish(s: System, id: nat): System
    decreases if id in s.actors then Stage(s.actors[id]) else 0
  {
    if id in s.actors then Finish(Next(s, Step(id)), id) else s
  }

  /** What a lone actor makes of the record. */
  function RunAlone(record: Option<SubagentState>, a: Actor): Option<SubagentState> {
    Finish(System(record, map[0 := a], 0), 0).record
  }

  /** A lone cancel or clean-up deletes a running record and leaves any other alone; every other actor deletes. */
  lemma {:induction false} FinishExact(s: System, id: nat)
    requires id in s.actors
    ensures Finish(s, id).record ==
      if (s.actors[id].CancelLook? || s.actors[id].ListActive?) && s.record != Some(Running) then s.record else None
    decreases Stage(s.actors[id])
  {
    var t := Next(s, Step(id));
    assert Finish(s, id) == Finish(t, id);
    if id in t.actors {
      FinishExact(t, id);
    }
  }

  /** The actor takes the steps of its `updateState`: the read, and the write if it read a record. */
  function Updated(s: System, id: nat): System {
    var t := Next(s, Step(id));
    if s.record.Some? then Next(t, Step(id)) else t
  }

  class PendingStore {
    var records: map<string, SubagentState>

    function Entry(id: string): Option<SubagentState>
      reads this
    {
      if id in records then Some(records[id]) else None
    }

    constructor ()
      ensures records == map[]
    {
      records := map[];
    }

    /** The write of an actor between its read and its delete. */
    method Save(id: string, state: SubagentState)
      modifies this
      ensures records == old(records)[id := state]
      ensures forall s: System, n: nat, delivers: bool ::
        n in s.actors && s.actors[n] == UpdateSave(state, delivers) ==> Advance(s, n).record == Entry(id)
    {
      records := records[id := state];
    }

    method Delete(id: string)
      modifies this
      ensures records == old(records) - {id}
      ensures forall s: System, n: nat :: n in s.actors && s.actors[n] == Deleting ==> Advance(s, n).record == Entry(id)
    {
      records := records - {id};
    }

    /** Read, and save only what was there. */
    method UpdateState(id: string, state: SubagentState)
      modifies this
      ensures records == if id in old(records) then old(records)[id := state] else old(records)
      ensures forall s: System, n: nat, delivers: bool ::
        n in s.actors && s.actors[n] == UpdateRead(state, delivers) && s.record == old(Entry(id)) ==>
          Updated(s, n).record == Entry(id)
    {
      if id in records {
        Save(id, state);
      }
    }

    method ListActive() returns (active: seq<string>)
      ensures forall id :: id in active <==> Entry(id) == Some(Running)
    {
      active := [];
      var rest := set id | id in records && records[id] == Running;
      while rest != {}
        invariant forall id :: id in records && records[id] == Running <==> id in active || id in rest
        decreases rest
      {
        var id :| id in rest;
        active := active + [id];
        rest := rest - {id};
      }
    }

    /** The completion callback, with nobody in between. */
    method Complete(id: string, success: bool)
      modifies this
      ensures Entry(id) == RunAlone(old(Entry(id)), UpdateRead(if success then Completed else Failed, true))
      ensures forall other :: other != id ==> Entry(other) == old(Entry(other))
    {
      FinishExact(System(Entry(id), map[0 := UpdateRead(if success then Completed else Failed, true)], 0), 0);
      UpdateState(id, if success then Completed else Failed);
      Delete(id);
    }

    /** cancel_subagent, with nobody in between. */
    method Cancel(id: string) returns (pending: Option<SubagentState>)
      modifies this
      ensures pending == old(Entry(id)) && Entry(id) == RunAlone(old(Entry(id)), CancelLook)
      ensures forall other :: other != id ==> Entry(other) == old(Entry(other))
    {
      pending := Entry(id);
      FinishExact(System(pending, map[0 := CancelLook], 0), 0);
      if pending != Some(Running) {
        return;
      }
      UpdateState(id, Canceled);
      Delete(id);
    }

    /** The connect hook: with somebody to tell, it is a clean-up of every record. */
    method OnConnect(hasBroadcast: bool) returns (active: seq<string>)
      modifies this
      ensures forall id :: id in active <==> old(Entry(id)) == Some(Running)
      ensures forall id ::
        Entry(id) == if hasBroadcast then RunAlone(old(Entry(id)), Actor.ListActive) else old(Entry(id))
    {
      active := ListActive();
      if |active| > 0 && hasBroadcast {
        for k := 0 to |active|
          invariant records == old(records) - set id | id in active[..k]
        {
          assert active[..k + 1] == active[..k] + [active[k]];
          UpdateState(active[k], Failed);
          Delete(active[k]);
        }
        assert active[..|active|] == active;
      }
      forall id ensures RunAlone(old(Entry(id)), Actor.ListActive) ==
        if old(Entry(id)) == Some(Running) then None else old(Entry(id))
      {
        FinishExact(System(old(Entry(id)), map[0 := Actor.ListActive], 0), 0);
      }
    }
  }

  // ---------- runs without crashes ----------

  /** An actor past its save that will still delete. */
  predicate WillDelete(a: Actor) {
    a.Delivering? || a.Deleting?
  }

  /** After a deletion, a record that is there again was put back by an actor that will still delete it. */
  ghost predicate Recoverable(s: System) {
    s.deletions > 0 && s.record.Some? ==> exists id :: id in s.actors && WillDelete(s.actors[id])
  }

  ghost predicate NoCrash(events: seq<Event>) {
    forall k :: 0 <= k < |events| ==> !events[k].Crash?
  }

  lemma {:induction false} NextRecoverable(s: System, e: Event)
    requires Recoverable(s) && !e.Crash?
    ensures Recoverable(Next(s, e))
  {
    var s' := Next(s, e);
    if s'.deletions > 0 && s'.record.Some? {
      if e.Step? && e.id in s.actors && s.actors[e.id].UpdateSave? {
        assert e.id in s'.actors && WillDelete(s'.actors[e.id]);
      } else {
        assert s.deletions > 0 && s.record.Some?;
        var id :| id in s.actors && WillDelete(s.actors[id]);
        assert id in s'.actors && WillDelete(s'.actors[id]);
      }
    }
  }

  lemma {:induction false} RunRecoverable(s: System, events: seq<Event>)
    requires Recoverable(s) && NoCrash(events)
    ensures Recoverable(Run(s, events))
    decreases events
  {
    if events != [] {
      NextRecoverable(s, events[0]);
      RunRecoverable(Next(s, events[0]), events[1..]);
    }
  }

  /**
   Whatever actors there are and however they interleave: once some actor has deleted
   and none is between its save and its delete, no record is left.
   */
  lemma {:induction false} QuietMeansGone(events: seq<Event>)
    requires NoCrash(events)
    ensures var s := Run(STARTED, events);
      s.deletions > 0 && (forall id :: id in s.actors ==> !WillDelete(s.actors[id])) ==> s.record == None
  {
    RunRecoverable(STARTED, events);
  }

  lemma {:induction false} RunLast(s: System, events: seq<Event>, e: Event)
    ensures Run(s, events + [e]) == Next(Run(s, events), e)
    decreases events
  {
    if events == [] {
      assert events + [e] == [e] && [e][1..] == [];
    } else {
      assert (events + [e])[1..] == events[1..] + [e];
      RunLast(Next(s, events[0]), events[1..], e);
    }
  }

  /** The record can come back in between: a save that read before the delete resurrects it. */
  lemma {:induction false} DeletedRecordReturns()
    ensures exists events, e ::
      var s := Run(STARTED, events);
      && NoCrash(events + [e]) && s.deletions > 0 && s.record == None
      && Run(STARTED, events + [e]).record == Some(Canceled)
  {
    var e1 := [] + [StartCancel(0)];
    var e2 := e1 + [Step(0)];
    var e3 := e2 + [Step(0)];
    var e4 := e3 + [Step(0)];
    var e5 := e4 + [StartCompletion(1, true)];
    var e6 := e5 + [Step(1)];
    var e7 := e6 + [Step(1)];
    var e8 := e7 + [Step(1)];
    var e9 := e8 + [Step(1)];
    RunLast(STARTED, [], StartCancel(0));
    RunLast(STARTED, e1, Step(0));
    RunLast(STARTED, e2, Step(0));
    RunLast(STARTED, e3, Step(0));
    assert Run(STARTED, e4) == System(Some(Running), map[0 := UpdateSave(Canceled, false)], 0);
    RunLast(STARTED, e4, StartCompletion(1, true));
    RunLast(STARTED, e5, Step(1));
    RunLast(STARTED, e6, Step(1));
    RunLast(STARTED, e7, Step(1));
    RunLast(STARTED, e8, Step(1));
    assert Run(STARTED, e9).record == None && Run(STARTED, e9).deletions == 1;
    RunLast(STARTED, e9, Step(0));
    assert NoCrash(e9 + [Step(0)]);
  }

  // ---------- crashes ----------

  /** Events that can happen once the completion callback is gone for good. */
  ghost predicate NoCompletion(events: seq<Event>) {
    forall k :: 0 <= k < |events| ==> !events[k].StartCompletion?
  }

  /** A record that is not running, with only actors that look before they act. */
  ghost predicate Stuck(s: System) {
    && s.record.Some? && s.record.value != Running
    && forall id :: id in s.actors ==> s.actors[id].CancelLook? || s.actors[id].ListActive?
  }

  lemma {:induction false} StuckStays(s: System, events: seq<Event>)
    requires Stuck(s) && NoCompletion(events)
    ensures Run(s, events).record == s.record
    decreases events
  {
    if events != [] {
      var e := events[0];
      assert Stuck(Next(s, e)) && Next(s, e).record == s.record;
      StuckStays(Next(s, e), events[1..]);
    }
  }

  /**
   A record left behind with no actor at work can still be cleared by cancel calls and
   reconnects exactly when its state is running.
   */
  lemma {:induction false} LeftoverClearedIff(s: System)
    requires s.actors == map[] && s.record.Some?
    ensures (exists events :: NoCompletion(events) && Run(s, events).record == None) <==> s.record == Some(Running)
  {
    if s.record == Some(Running) {
      CleanupClears(s);
    } else {
      forall events | NoCompletion(events) ensures Run(s, events).record != None {
        StuckStays(s, events);
      }
    }
  }

  lemma {:induction false} CleanupClears(s: System)
    requires s.actors == map[] && s.record == Some(Running)
    ensures exists events :: NoCompletion(events) && Run(s, events).record == None
  {
    var e1 := [] + [StartCleanup(0)];
    var e2 := e1 + [Step(0)];
    var e3 := e2 + [Step(0)];
    var e4 := e3 + [Step(0)];
    var e5 := e4 + [Step(0)];
    RunLast(s, [], StartCleanup(0));
    RunLast(s, e1, Step(0));
    RunLast(s, e2, Step(0));
    RunLast(s, e3, Step(0));
    RunLast(s, e4, Step(0));
    assert NoCompletion(e5) && Run(s, e5).record == None;
  }

  /** A crash between the save and the delete of a completion leaves such a record for good. */
  lemma {:induction false} CrashLeaksRecord()
    ensures exists events ::
      var s := Run(STARTED, events);
      s.actors == map[] && s.record == Some(Completed) &&
      forall more :: NoCompletion(more) ==> Run(s, more).record == Some(Completed)
  {
    var e1 := [] + [StartCompletion(0, true)];
    var e2 := e1 + [Step(0)];
    var e3 := e2 + [Step(0)];
    var e4 := e3 + [Crash(0)];
    RunLast(STARTED, [], StartCompletion(0, true));
    RunLast(STARTED, e1, Step(0));
    RunLast(STARTED, e2, Step(0));
    RunLast(STARTED, e3, Crash(0));
    var s := Run(STARTED, e4);
    assert s.actors == map[] && s.record == Some(Completed);
    forall more | NoCompletion(more) ensures Run(s, more).record == Some(Completed) {
      StuckStays(s, more);
    }
  }

  // ---------- what the record's state says ----------

  /** Some event so far explains the state: a completion of that outcome, a cancel, or a clean-up. */
  ghost predicate Explained(events: seq<Event>, state: SubagentState) {
    match state
    case Running => true
    case Completed => exists k, id :: 0 <= k < |events| && events[k] == StartCompletion(id, true)
    case Failed =>
      exists k, id :: 0 <= k < |events| && (events[k] == StartCompletion(id, false) || events[k] == StartCleanup(id))
    case Canceled => exists k, id :: 0 <= k < |events| && events[k] == StartCancel(id)
  }

  /** Also what actors are about to write is explained, and only completions hand over a result. */
  ghost predicate AllExplained(events: seq<Event>, s: System) {
    && (s.record.Some? ==> Explained(events, s.record.value))
    && forall id :: id in s.actors ==>
         match s.actors[id]
         case CancelLook => Explained(events, Canceled)
         case Aborting => Explained(events, Canceled)
         case ListActive => Explained(events, Failed)
         case UpdateRead(target, delivers) => Explained(events, target) && (delivers ==> IsCompletion(events, id))
         case UpdateSave(target, delivers) => Explained(events, target) && (delivers ==> IsCompletion(events, id))
         case Delivering => IsCompletion(events, id)
         case Deleting => true
  }

  ghost predicate IsCompletion(events: seq<Event>, id: nat) {
    StartCompletion(id, true) in events || StartCompletion(id, false) in events
  }

  lemma {:induction false} ExplainedLater(events: seq<Event>, e: Event, state: SubagentState)
    ensures Explained(events, state) ==> Explained(events + [e], state)
    ensures (match e
             case StartCompletion(_, success) => Explained(events + [e], if success then Completed else Failed)
             case StartCancel(_) => Explained(events + [e], Canceled)
             case StartCleanup(_) => Explained(events + [e], Failed)
             case _ => true)
  {
    var all := events + [e];
    assert forall k :: 0 <= k < |events| ==> all[k] == events[k];
    assert all[|events|] == e;
  }

  lemma {:induction false} StepExplained(events: seq<Event>, s: System, e: Event)
    requires AllExplained(events, s)
    ensures AllExplained(events + [e], Next(s, e))
  {
    forall state ensures Explained(events, state) ==> Explained(events + [e], state) {
      ExplainedLater(events, e, state);
    }
    ExplainedLater(events, e, Running);
  }

  /**
   In every run the record is running, or completed after a successful completion
   started, or failed after a failed one or a clean-up, or canceled after a cancel.
   */
  lemma {:induction false} StateExplained(events: seq<Event>)
    ensures AllExplained(events, Run(STARTED, events))
    decreases |events|
  {
    if events != [] {
      var init, e := events[..|events| - 1], events[|events| - 1];
      assert events == init + [e];
      StateExplained(init);
      RunLast(STARTED, init, e);
      StepExplained(init, Run(STARTED, init), e);
    }
  }

  // ---------- delivery ----------

  /** A completion that has not handed its result over yet. */
  predicate OwesResult(a: Actor) {
    match a
    case UpdateRead(_, delivers) => delivers
    case UpdateSave(_, delivers) => delivers
    case Delivering => true
    case _ => false
  }

  /** Event `k` is the step at which the actor hands its result over. */
  ghost predicate HandsOver(s: System, events: seq<Event>, k: nat, id: nat)
    requires k < |events|
  {
    var before := Run(s, events[..k]);
    events[k] == Step(id) && id in before.actors && before.actors[id].Delivering?
  }

  lemma {:induction false} HandsOverLater(s: System, events: seq<Event>, k: nat, id: nat)
    requires k + 1 < |events| && HandsOver(Next(s, events[0]), events[1..], k, id)
    ensures HandsOver(s, events, k + 1, id)
  {
    assert events[..k + 1][1..] == events[1..][..k];
  }

  /** A completion that does not crash hands its result over before it is gone, whatever the others do. */
  lemma {:induction false} ResultHandedOver(s: System, events: seq<Event>, id: nat) returns (k: nat)
    requires id in s.actors && OwesResult(s.actors[id])
    requires id !in Run(s, events).actors && Crash(id) !in events
    ensures k < |events| && HandsOver(s, events, k, id)
    decreases |events|
  {
    if events[0] == Step(id) && s.actors[id].Delivering? {
      assert events[..0] == [];
      return 0;
    }
    assert events[0] in events;
    k := ResultHandedOver(Next(s, events[0]), events[1..], id);
    HandsOverLater(s, events, k, id);
    k := k + 1;
  }
}
