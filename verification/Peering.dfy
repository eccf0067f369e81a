/**
 The peering handshake between agents. Requests, responses and callbacks may be
 delayed, duplicated or lost, and a handshake handler may be interrupted between its
 look-up and its write.
 */
module Peering {
  import opened Option

  datatype Status = Accepted | Pending | Rejected

  datatype Policy = AutoAllow | AutoDisallow | UserApproval

  function StatusFromPolicy(p: Policy): Status {
    match p
    case AutoAllow => Accepted
    case AutoDisallow => Rejected
    case UserApproval => Pending
  }

  /** Without a configured policy everybody of the same owner is allowed. */
  function ResolvePolicy(sameOwnerPolicy: Option<Policy>): Policy {
    if sameOwnerPolicy.Some? then sameOwnerPolicy.value else AutoAllow
  }

  function Lookup(m: map<string, Status>, k: string): Option<Status> {
    if k in m then Some(m[k]) else None
  }

  // ---------- one agent ----------

  /** The peer records an agent stores. */
  datatype Records = Records(inbound: map<string, Status>, outbound: map<string, Status>)

  function Admitted(r: Records, sender: string, status: Status): Records {
    r.(inbound := r.inbound[sender := status])
  }

  /** An approval or a denial changes an existing record and creates none. */
  function Decided(r: Records, peer: string, status: Status): Records {
    if peer in r.inbound then r.(inbound := r.inbound[peer := status]) else r
  }

  function Answered(r: Records, target: string, status: Status): Records {
    r.(outbound := r.outbound[target := status])
  }

  /** A callback changes an existing record and creates none. */
  function Noticed(r: Records, sender: string, status: Status): Records {
    if sender in r.outbound then r.(outbound := r.outbound[sender := status]) else r
  }

  function WithoutInbound(r: Records, peer: string): Records {
    r.(inbound := r.inbound - {peer})
  }

  function WithoutOutbound(r: Records, peer: string): Records {
    r.(outbound := r.outbound - {peer})
  }

  class Agent {
    const policy: Policy
    var inbound: map<string, Status>
    var outbound: map<string, Status>

    function Held(): Records
      reads this
    {
      Records(inbound, outbound)
    }

    constructor (sameOwnerPolicy: Option<Policy>)
      ensures sameOwnerPolicy == None ==> policy == AutoAllow
      ensures sameOwnerPolicy.Some? ==> policy == sameOwnerPolicy.value
      ensures Held() == Records(map[], map[])
    {
      policy, inbound, outbound := ResolvePolicy(sameOwnerPolicy), map[], map[];
    }

    /** /agent-handshake up to the await of the request body. */
    method LookUpSender(sender: string) returns (known: Option<Status>)
      ensures known == Lookup(Held().inbound, sender)
    {
      known := if sender in inbound then Some(inbound[sender]) else None;
    }

    /** /agent-handshake after the request body has arrived. */
    method AdmitSender(sender: string) returns (status: Status)
      modifies this`inbound
      ensures status == StatusFromPolicy(policy) && Held() == Admitted(old(Held()), sender, status)
    {
      status := StatusFromPolicy(policy);
      inbound := inbound[sender := status];
    }

    /** The whole handler, with nothing in between. */
    method HandleHandshake(sender: string) returns (status: Status)
      modifies this`inbound
      ensures match Lookup(old(Held()).inbound, sender)
        case Some(known) => status == known && Held() == old(Held())
        case None => status == StatusFromPolicy(policy) && Held() == Admitted(old(Held()), sender, status)
    {
      var existing := LookUpSender(sender);
      if existing.Some? {
        return existing.value;
      }
      status := AdmitSender(sender);
    }

    /** Approve or deny; the answer is the status of the callback to send, if there was a record. */
    method Decide(peer: string, status: Status) returns (callback: Option<Status>)
      requires status != Pending
      modifies this`inbound
      ensures Held() == Decided(old(Held()), peer, status)
      ensures callback == if peer in old(inbound) then Some(status) else None
    {
      if peer !in inbound {
        return None;
      }
      inbound := inbound[peer := status];
      return Some(status);
    }

    /** /agent-handshake-approve. */
    method HandleApprove(peer: string) returns (callback: Option<Status>)
      modifies this`inbound
      ensures inbound == if peer in old(inbound) then old(inbound)[peer := Accepted] else old(inbound)
      ensures callback == if peer in old(inbound) then Some(Accepted) else None
    {
      callback := Decide(peer, Accepted);
    }

    /** /agent-handshake-deny. */
    method HandleDeny(peer: string) returns (callback: Option<Status>)
      modifies this`inbound
      ensures inbound == if peer in old(inbound) then old(inbound)[peer := Rejected] else old(inbound)
      ensures callback == if peer in old(inbound) then Some(Rejected) else None
    {
      callback := Decide(peer, Rejected);
    }

    /** /agent-handshake-callback. */
    method HandleCallback(sender: string, status: Status) returns (valid: bool)
      modifies this`outbound
      ensures valid <==> status != Pending
      ensures Held() == if valid then Noticed(old(Held()), sender, status) else old(Held())
    {
      if status == Pending {
        return false;
      }
      if sender in outbound {
        outbound := outbound[sender := status];
      }
      return true;
    }

    /** The end of requestPeer, once the response has arrived. */
    method FinishRequest(target: string, status: Status)
      modifies this`outbound
      ensures Held() == Answered(old(Held()), target, status)
    {
      outbound := outbound[target := status];
    }

    method RevokePeer(peer: string)
      modifies this
      ensures Held() == WithoutOutbound(WithoutInbound(old(Held()), peer), peer)
    {
      inbound := inbound - {peer};
      outbound := outbound - {peer};
    }

    method IsPeerAuthorized(peer: string) returns (r: bool)
      ensures r <==> Lookup(Held().inbound, peer) == Some(Accepted)
    {
      r := peer in inbound && inbound[peer] == Accepted;
    }
  }

  // ---------- all agents and the network ----------

  /**
   `checked` counts the handlers between their look-up and their write, by sender and
   owner. A message is in its set as long as it may still arrive, late or again.
   */
  datatype State = State(
    agents: map<string, Records>,
    requests: set<(string, string)>,
    checked: multiset<(string, string)>,
    responses: set<(string, string, Status)>,
    callbacks: set<(string, string, Status)>)

  const INITIAL := State(map[], {}, multiset{}, {}, {})

  datatype Event =
    | SendRequest(sender: string, owner: string)
    | CheckHandshake(sender: string, owner: string)
    | CommitHandshake(sender: string, owner: string)
    | DeliverResponse(sender: string, owner: string, status: Status)
    | Approve(owner: string, peer: string)
    | Deny(owner: string, peer: string)
    | DeliverCallback(owner: string, peer: string, status: Status)
    | DropInbound(owner: string, peer: string)
    | DropOutbound(owner: string, peer: string)
    | LoseRequest(sender: string, owner: string)
    | LoseResponse(sender: string, owner: string, status: Status)
    | LoseCallback(owner: string, peer: string, status: Status)

  function At(s: State, name: string): Records {
    if name in s.agents then s.agents[name] else Records(map[], map[])
  }

  function Put(s: State, name: string, r: Records): State {
    s.(agents := s.agents[name := r])
  }

  function DecideAndNotify(s: State, owner: string, peer: string, status: Status): State {
    if peer !in At(s, owner).inbound then s
    else Put(s, owner, Decided(At(s, owner), peer, status)).(callbacks := s.callbacks + {(owner, peer, status)})
  }

  /** One step; an event that is not enabled changes nothing. */
  function Next(policies: string -> Policy, s: State, e: Event): State {
    match e
    case SendRequest(a, b) => s.(requests := s.requests + {(a, b)})
    case CheckHandshake(a, b) =>
      if (a, b) !in s.requests then s
      else
        var known := Lookup(At(s, b).inbound, a);
        if known.Some? then s.(responses := s.responses + {(a, b, known.value)})
        else s.(checked := s.checked + multiset{(a, b)})
    case CommitHandshake(a, b) =>
      if (a, b) !in s.checked then s
      else
        var status := StatusFromPolicy(policies(b));
        Put(s, b, Admitted(At(s, b), a, status)).(
          responses := s.responses + {(a, b, status)}, checked := s.checked - multiset{(a, b)})
    case DeliverResponse(a, b, status) =>
      if (a, b, status) !in s.responses then s else Put(s, a, Answered(At(s, a), b, status))
    case Approve(b, a) => DecideAndNotify(s, b, a, Accepted)
    case Deny(b, a) => DecideAndNotify(s, b, a, Rejected)
    case DeliverCallback(b, a, status) =>
      if (b, a, status) !in s.callbacks then s else Put(s, a, Noticed(At(s, a), b, status))
    case DropInbound(b, a) => Put(s, b, WithoutInbound(At(s, b), a))
    case DropOutbound(a, b) => Put(s, a, WithoutOutbound(At(s, a), b))
    case LoseRequest(a, b) => s.(requests := s.requests - {(a, b)})
    case LoseResponse(a, b, status) => s.(responses := s.responses - {(a, b, status)})
    case LoseCallback(b, a, status) => s.(callbacks := s.callbacks - {(b, a, status)})
  }

  function Run(policies: string -> Policy, s: State, events: seq<Event>): State {
    if events == [] then s
    else Next(policies, Run(policies, s, events[..|events| - 1]), events[|events| - 1])
  }

  /** The state after the first `n` events of a run from nothing. */
  function After(policies: string -> Policy, events: seq<Event>, n: nat): State
    requires n <= |events|
  {
    Run(policies, INITIAL, events[..n])
  }

  lemma {:induction false} AfterStep(policies: string -> Policy, events: seq<Event>, n: nat)
    requires n < |events|
    ensures After(policies, events, n + 1) == Next(policies, After(policies, events, n), events[n])
  {
    assert events[..n + 1][..n] == events[..n];
  }

  // ---------- what an event writes ----------

  /** One status: the owner's inbound or outbound record of the peer. */
  datatype Slot = Inbound(owner: string, peer: string) | Outbound(owner: string, peer: string)

  function Read(s: State, slot: Slot): Option<Status> {
    match slot
    case Inbound(owner, peer) => Lookup(At(s, owner).inbound, peer)
    case Outbound(owner, peer) => Lookup(At(s, owner).outbound, peer)
  }

  /** The status an event puts into the slot, Some(None) for a deletion, None if it leaves the slot alone. */
  function Effect(policies: string -> Policy, s: State, e: Event, slot: Slot): Option<Option<Status>> {
    match e
    case CommitHandshake(a, b) =>
      if slot == Inbound(b, a) && (a, b) in s.checked then Some(Some(StatusFromPolicy(policies(b)))) else None
    case Approve(b, a) => if slot == Inbound(b, a) && Read(s, slot).Some? then Some(Some(Accepted)) else None
    case Deny(b, a) => if slot == Inbound(b, a) && Read(s, slot).Some? then Some(Some(Rejected)) else None
    case DropInbound(b, a) => if slot == Inbound(b, a) then Some(None) else None
    case DeliverResponse(a, b, status) =>
      if slot == Outbound(a, b) && (a, b, status) in s.responses then Some(Some(status)) else None
    case DeliverCallback(b, a, status) =>
      if slot == Outbound(a, b) && (b, a, status) in s.callbacks && Read(s, slot).Some? then Some(Some(status))
      else None
    case DropOutbound(a, b) => if slot == Outbound(a, b) then Some(None) else None
    case _ => None
  }

  lemma {:induction false} EffectExact(policies: string -> Policy, s: State, e: Event, slot: Slot)
    ensures Read(Next(policies, s, e), slot) ==
      var w := Effect(policies, s, e, slot); if w.Some? then w.value else Read(s, slot)
  {
    match e
    case Approve(b, a) => DecisionReads(s, b, a, Accepted, slot);
    case Deny(b, a) => DecisionReads(s, b, a, Rejected, slot);
    case CommitHandshake(_, _) => CommitReads(policies, s, e, slot);
    case DeliverResponse(_, _, _) => DeliveryReads(policies, s, e, slot);
    case DeliverCallback(_, _, _) => DeliveryReads(policies, s, e, slot);
    case DropInbound(_, _) => DropReads(policies, s, e, slot);
    case DropOutbound(_, _) => DropReads(policies, s, e, slot);
    case _ => assert Next(policies, s, e).agents == s.agents;
  }

  lemma {:induction false} CommitReads(policies: string -> Policy, s: State, e: Event, slot: Slot)
    requires e.CommitHandshake?
    ensures Read(Next(policies, s, e), slot) ==
      var w := Effect(policies, s, e, slot); if w.Some? then w.value else Read(s, slot)
  {}

  lemma {:induction false} DeliveryReads(policies: string -> Policy, s: State, e: Event, slot: Slot)
    requires e.DeliverResponse? || e.DeliverCallback?
    ensures Read(Next(policies, s, e), slot) ==
      var w := Effect(policies, s, e, slot); if w.Some? then w.value else Read(s, slot)
  {}

  lemma {:induction false} DropReads(policies: string -> Policy, s: State, e: Event, slot: Slot)
    requires e.DropInbound? || e.DropOutbound?
    ensures Read(Next(policies, s, e), slot) ==
      var w := Effect(policies, s, e, slot); if w.Some? then w.value else Read(s, slot)
  {}

  lemma {:induction false} DecisionReads(s: State, owner: string, peer: string, status: Status, slot: Slot)
    ensures Read(DecideAndNotify(s, owner, peer, status), slot) ==
      if slot == Inbound(owner, peer) && Read(s, slot).Some? then Some(status) else Read(s, slot)
  {}

  function EffectAt(policies: string -> Policy, events: seq<Event>, n: nat, slot: Slot): Option<Option<Status>>
    requires n < |events|
  {
    Effect(policies, After(policies, events, n), events[n], slot)
  }

  /** The n-th event was the last of the first `len` to write the slot. */
  ghost predicate LastWriter(policies: string -> Policy, events: seq<Event>, len: nat, n: nat, slot: Slot) {
    && n < len <= |events| && EffectAt(policies, events, n, slot).Some?
    && forall m :: n < m < len ==> EffectAt(policies, events, m, slot).None?
  }

  /** The n-th event was the last to write the slot, and it put this status there. */
  ghost predicate LastWrote(
      policies: string -> Policy, events: seq<Event>, len: nat, n: nat, slot: Slot, status: Status) {
    LastWriter(policies, events, len, n, slot) && EffectAt(policies, events, n, slot) == Some(Some(status))
  }

  lemma {:induction false} LastWroteStep(
      policies: string -> Policy, events: seq<Event>, len: nat, n: nat, slot: Slot, status: Status)
    requires len < |events|
    ensures LastWrote(policies, events, len + 1, n, slot, status) <==>
      if n == len then EffectAt(policies, events, len, slot) == Some(Some(status))
      else LastWrote(policies, events, len, n, slot, status) && EffectAt(policies, events, len, slot).None?
  {}

  lemma {:induction false} LastWriteDecides(
      policies: string -> Policy, events: seq<Event>, len: nat, slot: Slot, status: Status)
    requires len <= |events|
    ensures Read(After(policies, events, len), slot) == Some(status) <==>
      exists n: nat :: LastWrote(policies, events, len, n, slot, status)
    decreases len
  {
    if len > 0 {
      var last := len - 1;
      LastWriteDecides(policies, events, last, slot, status);
      AfterStep(policies, events, last);
      EffectExact(policies, After(policies, events, last), events[last], slot);
      forall n: nat
        ensures LastWrote(policies, events, len, n, slot, status) <==>
          if n == last then EffectAt(policies, events, last, slot) == Some(Some(status))
          else LastWrote(policies, events, last, n, slot, status) && EffectAt(policies, events, last, slot).None?
      {
        LastWroteStep(policies, events, last, n, slot, status);
      }
      if EffectAt(policies, events, last, slot) == Some(Some(status)) {
        assert LastWrote(policies, events, len, last, slot, status);
      }
    }
  }

  /** A record has a status exactly when the last event that wrote it put that status there. */
  lemma {:induction false} RecordIsLastWrite(policies: string -> Policy, events: seq<Event>, slot: Slot, status: Status)
    ensures Read(Run(policies, INITIAL, events), slot) == Some(status) <==>
      exists n: nat :: LastWrote(policies, events, |events|, n, slot, status)
  {
    assert events[..|events|] == events;
    LastWriteDecides(policies, events, |events|, slot, status);
  }

  // ---------- outbound statuses come from inbound ones ----------

  /** At some point up to `len` the owner's inbound record of the peer had this status. */
  ghost predicate Ever(
      policies: string -> Policy, events: seq<Event>, len: nat, owner: string, peer: string, status: Status) {
    exists n :: 0 <= n <= len && n <= |events| && Read(After(policies, events, n), Inbound(owner, peer)) == Some(status)
  }

  /** A's outbound record of B, or a message on the wire, says that B's record of A has this status. */
  ghost predicate Claims(s: State, a: string, b: string, status: Status) {
    Read(s, Outbound(a, b)) == Some(status) || (a, b, status) in s.responses || (b, a, status) in s.callbacks
  }

  lemma {:induction false} ResponseStep(
      policies: string -> Policy, s: State, e: Event, a: string, b: string, status: Status)
    requires (a, b, status) in Next(policies, s, e).responses && (a, b, status) !in s.responses
    ensures e == CheckHandshake(a, b) ==> Read(s, Inbound(b, a)) == Some(status)
    ensures e != CheckHandshake(a, b) ==> Read(Next(policies, s, e), Inbound(b, a)) == Some(status)
  {
    EffectExact(policies, s, e, Inbound(b, a));
  }

  lemma {:induction false} CallbackStep(
      policies: string -> Policy, s: State, e: Event, a: string, b: string, status: Status)
    requires (b, a, status) in Next(policies, s, e).callbacks && (b, a, status) !in s.callbacks
    ensures Read(Next(policies, s, e), Inbound(b, a)) == Some(status)
  {
    EffectExact(policies, s, e, Inbound(b, a));
  }

  /** A claim is an old one, or true of the inbound record just before or just after the step. */
  lemma {:induction false} ClaimsStep(
      policies: string -> Policy, s: State, e: Event, a: string, b: string, status: Status)
    requires Claims(Next(policies, s, e), a, b, status)
    ensures Claims(s, a, b, status) || Read(s, Inbound(b, a)) == Some(status) ||
            Read(Next(policies, s, e), Inbound(b, a)) == Some(status)
  {
    var s' := Next(policies, s, e);
    if (a, b, status) in s'.responses && (a, b, status) !in s.responses {
      ResponseStep(policies, s, e, a, b, status);
    } else if (b, a, status) in s'.callbacks && (b, a, status) !in s.callbacks {
      CallbackStep(policies, s, e, a, b, status);
    } else {
      EffectExact(policies, s, e, Outbound(a, b));
    }
  }

  /** Every outbound status and every status on the wire was once the inbound status it speaks of. */
  lemma {:induction false} Provenance(
      policies: string -> Policy, events: seq<Event>, len: nat, a: string, b: string, status: Status)
    requires len <= |events| && Claims(After(policies, events, len), a, b, status)
    ensures Ever(policies, events, len, b, a, status)
    decreases len
  {
    if len > 0 {
      var last := len - 1;
      AfterStep(policies, events, last);
      ClaimsStep(policies, After(policies, events, last), events[last], a, b, status);
      if Read(After(policies, events, len), Inbound(b, a)) != Some(status) {
        if Claims(After(policies, events, last), a, b, status) {
          Provenance(policies, events, last, a, b, status);
        } else {
          assert Read(After(policies, events, last), Inbound(b, a)) == Some(status);
        }
      }
    }
  }

  /** Whenever A counts itself accepted (or rejected) by B, B's record of A had that status at an earlier step. */
  lemma {:induction false} OutboundWasInbound(
      policies: string -> Policy, events: seq<Event>, len: nat, a: string, b: string, status: Status)
    requires len <= |events| && Read(After(policies, events, len), Outbound(a, b)) == Some(status)
    ensures Ever(policies, events, len, b, a, status)
  {
    Provenance(policies, events, len, a, b, status);
  }

  // ---------- who is authorised ----------

  /** The events that put a status into the owner's inbound record of the peer, and the status each puts there. */
  predicate Puts(policies: string -> Policy, e: Event, owner: string, peer: string, status: Status) {
    match status
    case Accepted =>
      e == Approve(owner, peer) || (e == CommitHandshake(peer, owner) && policies(owner) == AutoAllow)
    case Rejected =>
      e == Deny(owner, peer) || (e == CommitHandshake(peer, owner) && policies(owner) == AutoDisallow)
    case Pending => e == CommitHandshake(peer, owner) && policies(owner) == UserApproval
  }

  lemma {:induction false} PutsExact(
      policies: string -> Policy, s: State, e: Event, owner: string, peer: string, status: Status)
    requires Effect(policies, s, e, Inbound(owner, peer)).Some?
    ensures Effect(policies, s, e, Inbound(owner, peer)) == Some(Some(status)) <==>
      Puts(policies, e, owner, peer, status)
  {}

  /**
   In every run and under every policy, an inbound record has a status exactly when the
   last event that wrote it is one that puts that status there.
   */
  lemma {:induction false} InboundStatusIff(
      policies: string -> Policy, events: seq<Event>, owner: string, peer: string, status: Status)
    ensures Read(Run(policies, INITIAL, events), Inbound(owner, peer)) == Some(status) <==>
      exists n: nat ::
        && LastWriter(policies, events, |events|, n, Inbound(owner, peer))
        && Puts(policies, events[n], owner, peer, status)
  {
    var slot := Inbound(owner, peer);
    RecordIsLastWrite(policies, events, slot, status);
    forall n: nat
      ensures LastWrote(policies, events, |events|, n, slot, status) <==>
        LastWriter(policies, events, |events|, n, slot) && Puts(policies, events[n], owner, peer, status)
    {
      if LastWriter(policies, events, |events|, n, slot) {
        PutsExact(policies, After(policies, events, n), events[n], owner, peer, status);
      }
    }
  }

  /**
   A peer is authorised exactly when the last event that wrote its record was an
   approval, or a handshake with an owner that allows everybody; a denial, revocation
   or, under the other policies, a renewed handshake ends it.
   */
  lemma {:induction false} AuthorizedIffApproved(
      policies: string -> Policy, events: seq<Event>, owner: string, peer: string)
    ensures Read(Run(policies, INITIAL, events), Inbound(owner, peer)) == Some(Accepted) <==>
      exists n: nat ::
        && LastWriter(policies, events, |events|, n, Inbound(owner, peer))
        && (|| events[n] == Approve(owner, peer)
            || (events[n] == CommitHandshake(peer, owner) && policies(owner) == AutoAllow))
  {
    InboundStatusIff(policies, events, owner, peer, Accepted);
  }

  // ---------- repeated handshakes ----------

  lemma {:induction false} RunStep(policies: string -> Policy, s: State, events: seq<Event>, e: Event)
    ensures Run(policies, s, events + [e]) == Next(policies, Run(policies, s, events), e)
  {
    assert (events + [e])[..|events|] == events;
  }

  ghost predicate OnlyHandshakes(events: seq<Event>) {
    forall k :: 0 <= k < |events| ==> events[k].SendRequest? || events[k].CheckHandshake? || events[k].CommitHandshake?
  }

  lemma {:induction false} KeptByHandshakes(
      policies: string -> Policy, s: State, events: seq<Event>, a: string, b: string)
    requires OnlyHandshakes(events) && Read(s, Inbound(b, a)).Some?
    requires (a, b) in s.checked ==> Read(s, Inbound(b, a)) == Some(StatusFromPolicy(policies(b)))
    ensures var s' := Run(policies, s, events);
      Read(s', Inbound(b, a)) == Read(s, Inbound(b, a)) && ((a, b) in s'.checked ==> (a, b) in s.checked)
    decreases events
  {
    if events != [] {
      var init, e := events[..|events| - 1], events[|events| - 1];
      KeptByHandshakes(policies, s, init, a, b);
      EffectExact(policies, Run(policies, s, init), e, Inbound(b, a));
    }
  }

  /**
   Handshakes, however many and however interrupted, never change an existing status,
   except when a handler had looked the sender up before the record was there and the
   record no longer has the policy's status.
   */
  lemma {:induction false} HandshakesKeepIff(policies: string -> Policy, s: State, a: string, b: string)
    requires Read(s, Inbound(b, a)).Some?
    ensures (forall events :: OnlyHandshakes(events) ==>
               Read(Run(policies, s, events), Inbound(b, a)) == Read(s, Inbound(b, a))) <==>
      ((a, b) in s.checked ==> Read(s, Inbound(b, a)) == Some(StatusFromPolicy(policies(b))))
  {
    if (a, b) in s.checked && Read(s, Inbound(b, a)) != Some(StatusFromPolicy(policies(b))) {
      var events := [] + [CommitHandshake(a, b)];
      RunStep(policies, s, [], CommitHandshake(a, b));
      assert OnlyHandshakes(events) && Read(Run(policies, s, events), Inbound(b, a)) != Read(s, Inbound(b, a));
    } else {
      forall events | OnlyHandshakes(events)
        ensures Read(Run(policies, s, events), Inbound(b, a)) == Read(s, Inbound(b, a))
      {
        KeptByHandshakes(policies, s, events, a, b);
      }
    }
  }

  /** `n` handshakes in a row, each handled without interruption. */
  function Handshakes(policies: string -> Policy, s: State, a: string, b: string, n: nat): State {
    if n == 0 then s
    else
      var t := Next(policies, Handshakes(policies, s, a, b, n - 1), SendRequest(a, b));
      Next(policies, Next(policies, t, CheckHandshake(a, b)), CommitHandshake(a, b))
  }

  /**
   Uninterrupted handshakes keep an existing status and give a new peer the policy's;
   repeating them changes nothing, every response says the same, and no other record
   is touched.
   */
  lemma {:induction false} HandshakeIdempotent(policies: string -> Policy, s: State, a: string, b: string, n: nat)
    requires (a, b) !in s.checked && n > 0
    ensures var s' := Handshakes(policies, s, a, b, n);
      var status := match Read(s, Inbound(b, a)) case Some(known) => known case None => StatusFromPolicy(policies(b));
      && Read(s', Inbound(b, a)) == Some(status)
      && s'.responses == s.responses + {(a, b, status)} && s'.checked == s.checked && s'.callbacks == s.callbacks
      && (forall slot :: slot != Inbound(b, a) ==> Read(s', slot) == Read(s, slot))
    decreases n
  {
    if n > 1 {
      HandshakeIdempotent(policies, s, a, b, n - 1);
    }
    OneHandshake(policies, Handshakes(policies, s, a, b, n - 1), a, b);
  }

  /** A new peer is accepted, rejected or left pending, and answered so, as the policy says. */
  lemma {:induction false} FirstHandshake(policies: string -> Policy, s: State, a: string, b: string, n: nat)
    requires Read(s, Inbound(b, a)).None? && (a, b) !in s.checked && n > 0
    ensures var s' := Handshakes(policies, s, a, b, n);
      && (policies(b) == AutoAllow ==>
            Read(s', Inbound(b, a)) == Some(Accepted) && s'.responses == s.responses + {(a, b, Accepted)})
      && (policies(b) == AutoDisallow ==>
            Read(s', Inbound(b, a)) == Some(Rejected) && s'.responses == s.responses + {(a, b, Rejected)})
      && (policies(b) == UserApproval ==>
            Read(s', Inbound(b, a)) == Some(Pending) && s'.responses == s.responses + {(a, b, Pending)})
  {
    HandshakeIdempotent(policies, s, a, b, n);
  }

  lemma {:induction false} Asked(policies: string -> Policy, s: State, a: string, b: string)
    ensures var t := Next(policies, Next(policies, s, SendRequest(a, b)), CheckHandshake(a, b));
      var known := Read(s, Inbound(b, a));
      && t.agents == s.agents && t.callbacks == s.callbacks
      && t.responses == (if known.Some? then s.responses + {(a, b, known.value)} else s.responses)
      && t.checked == (if known.Some? then s.checked else s.checked + multiset{(a, b)})
  {}

  lemma {:induction false} OneHandshake(policies: string -> Policy, s: State, a: string, b: string)
    requires (a, b) !in s.checked
    ensures var t := Next(policies, Next(policies, s, SendRequest(a, b)), CheckHandshake(a, b));
      var s' := Next(policies, t, CommitHandshake(a, b));
      var status := match Read(s, Inbound(b, a)) case Some(known) => known case None => StatusFromPolicy(policies(b));
      && Read(s', Inbound(b, a)) == Some(status)
      && s'.responses == s.responses + {(a, b, status)} && s'.checked == s.checked && s'.callbacks == s.callbacks
      && (forall slot :: slot != Inbound(b, a) ==> Read(s', slot) == Read(s, slot))
  {
    var t := Next(policies, Next(policies, s, SendRequest(a, b)), CheckHandshake(a, b));
    Asked(policies, s, a, b);
    forall slot ensures Read(Next(policies, t, CommitHandshake(a, b)), slot) ==
      if slot == Inbound(b, a) && (a, b) in t.checked then Some(StatusFromPolicy(policies(b))) else Read(s, slot)
    {
      EffectExact(policies, t, CommitHandshake(a, b), slot);
    }
  }

  /** Two handlers of one sender have looked it up, and found nothing. */
  lemma {:induction false} BothChecked(policies: string -> Policy, a: string, b: string)
    ensures var s := Run(policies, INITIAL, [SendRequest(a, b), CheckHandshake(a, b), CheckHandshake(a, b)]);
      s.checked == multiset{(a, b), (a, b)} && Read(s, Inbound(b, a)) == None
  {
    var e1 := [] + [SendRequest(a, b)];
    var e2 := e1 + [CheckHandshake(a, b)];
    RunStep(policies, INITIAL, [], SendRequest(a, b));
    RunStep(policies, INITIAL, e1, CheckHandshake(a, b));
    RunStep(policies, INITIAL, e2, CheckHandshake(a, b));
    assert e2 + [CheckHandshake(a, b)] == [SendRequest(a, b), CheckHandshake(a, b), CheckHandshake(a, b)];
  }

  lemma {:induction false} CommitStep(policies: string -> Policy, s: State, a: string, b: string)
    requires (a, b) in s.checked
    ensures var s' := Next(policies, s, CommitHandshake(a, b));
      && s'.checked == s.checked - multiset{(a, b)}
      && Read(s', Inbound(b, a)) == Some(StatusFromPolicy(policies(b)))
  {}

  lemma {:induction false} ApproveStep(policies: string -> Policy, s: State, a: string, b: string)
    requires Read(s, Inbound(b, a)).Some?
    ensures var s' := Next(policies, s, Approve(b, a));
      && s'.requests == s.requests && s'.checked == s.checked && s'.responses == s.responses
      && s'.callbacks == s.callbacks + {(b, a, Accepted)}
      && Read(s', Inbound(b, a)) == Some(Accepted) && Read(s', Outbound(a, b)) == Read(s, Outbound(a, b))
  {}

  /** Two handlers of one sender both find no record; the later write undoes an approval made in between. */
  lemma {:induction false} InterruptedHandshakeOverwrites(policies: string -> Policy, a: string, b: string)
    requires policies(b) == UserApproval
    ensures exists events, e ::
      Read(Run(policies, INITIAL, events), Inbound(b, a)) == Some(Accepted) &&
      e == CommitHandshake(a, b) &&
      Read(Run(policies, INITIAL, events + [e]), Inbound(b, a)) == Some(Pending)
  {
    var e3 := [SendRequest(a, b), CheckHandshake(a, b), CheckHandshake(a, b)];
    var e5 := (e3 + [CommitHandshake(a, b)]) + [Approve(b, a)];
    BothChecked(policies, a, b);
    CommitThenApprove(policies, Run(policies, INITIAL, e3), a, b);
    RunStep(policies, INITIAL, e3, CommitHandshake(a, b));
    RunStep(policies, INITIAL, e3 + [CommitHandshake(a, b)], Approve(b, a));
    CommitStep(policies, Run(policies, INITIAL, e5), a, b);
    RunStep(policies, INITIAL, e5, CommitHandshake(a, b));
  }

  lemma {:induction false} CommitThenApprove(policies: string -> Policy, s: State, a: string, b: string)
    requires s.checked == multiset{(a, b), (a, b)}
    ensures var s' := Next(policies, Next(policies, s, CommitHandshake(a, b)), Approve(b, a));
      (a, b) in s'.checked && Read(s', Inbound(b, a)) == Some(Accepted)
  {
    CommitStep(policies, s, a, b);
    ApproveStep(policies, Next(policies, s, CommitHandshake(a, b)), a, b);
  }

  // ---------- revocation ----------

  ghost predicate NoLookUps(events: seq<Event>, sender: string, owner: string) {
    forall k :: 0 <= k < |events| ==> events[k] != CheckHandshake(sender, owner)
  }

  lemma {:induction false} StaysRevoked(
      policies: string -> Policy, s: State, events: seq<Event>, owner: string, peer: string)
    requires NoLookUps(events, peer, owner)
    requires Read(s, Inbound(owner, peer)).None? && (peer, owner) !in s.checked
    ensures var s' := Run(policies, s, events); Read(s', Inbound(owner, peer)).None? && (peer, owner) !in s'.checked
    decreases events
  {
    if events != [] {
      var init, e := events[..|events| - 1], events[|events| - 1];
      StaysRevoked(policies, s, init, owner, peer);
      EffectExact(policies, Run(policies, s, init), e, Inbound(owner, peer));
    }
  }

  /**
   Once the inbound record is deleted, nothing but a handshake that looks the peer up
   afresh brings one back (no approval, denial or message), exactly when no handler had
   looked the peer up before and was still to write.
   */
  lemma {:induction false} InboundRevocationHoldsIff(
      policies: string -> Policy, s: State, owner: string, peer: string)
    ensures (forall events :: NoLookUps(events, peer, owner) ==>
               InboundGone(Run(policies, Next(policies, s, DropInbound(owner, peer)), events), owner, peer)) <==>
      (peer, owner) !in s.checked
  {
    var s1 := Next(policies, s, DropInbound(owner, peer));
    EffectExact(policies, s, DropInbound(owner, peer), Inbound(owner, peer));
    if (peer, owner) in s.checked {
      InboundBack(policies, s1, owner, peer);
    } else {
      forall events | NoLookUps(events, peer, owner) ensures InboundGone(Run(policies, s1, events), owner, peer) {
        StaysRevoked(policies, s1, events, owner, peer);
      }
    }
  }

  ghost predicate InboundGone(s: State, owner: string, peer: string) {
    Read(s, Inbound(owner, peer)).None?
  }

  ghost predicate OutboundGone(s: State, owner: string, peer: string) {
    Read(s, Outbound(owner, peer)).None?
  }

  /** A handler that looked the peer up before brings the record back. */
  lemma {:induction false} InboundBack(policies: string -> Policy, s: State, owner: string, peer: string)
    requires (peer, owner) in s.checked
    ensures exists events :: NoLookUps(events, peer, owner) && NoLookUps(events, owner, peer) &&
                             !InboundGone(Run(policies, s, events), owner, peer)
  {
    var events := [] + [CommitHandshake(peer, owner)];
    RunStep(policies, s, [], CommitHandshake(peer, owner));
    EffectExact(policies, s, CommitHandshake(peer, owner), Inbound(owner, peer));
    assert NoLookUps(events, peer, owner) && NoLookUps(events, owner, peer);
    assert !InboundGone(Run(policies, s, events), owner, peer);
  }

  /** An answer of the peer to the owner's request is under way, or about to be given. */
  ghost predicate AnswerComing(s: State, owner: string, peer: string) {
    (owner, peer) in s.checked || exists status :: (owner, peer, status) in s.responses
  }

  lemma {:induction false} NoAnswerStep(policies: string -> Policy, s: State, e: Event, owner: string, peer: string)
    requires e != CheckHandshake(owner, peer) && !AnswerComing(s, owner, peer)
    ensures !AnswerComing(Next(policies, s, e), owner, peer)
  {}

  lemma {:induction false} OutboundStaysRevoked(
      policies: string -> Policy, s: State, events: seq<Event>, owner: string, peer: string)
    requires NoLookUps(events, owner, peer)
    requires OutboundGone(s, owner, peer) && !AnswerComing(s, owner, peer)
    ensures var s' := Run(policies, s, events); OutboundGone(s', owner, peer) && !AnswerComing(s', owner, peer)
    decreases events
  {
    if events != [] {
      var init, e := events[..|events| - 1], events[|events| - 1];
      OutboundStaysRevoked(policies, s, init, owner, peer);
      NoAnswerStep(policies, Run(policies, s, init), e, owner, peer);
      EffectExact(policies, Run(policies, s, init), e, Outbound(owner, peer));
    }
  }

  /** A response that may still arrive brings the outbound record back, and so does a handler that will answer. */
  lemma {:induction false} OutboundBack(policies: string -> Policy, s: State, owner: string, peer: string)
    requires AnswerComing(s, owner, peer)
    ensures exists events :: NoLookUps(events, peer, owner) && NoLookUps(events, owner, peer) &&
                             !OutboundGone(Run(policies, s, events), owner, peer)
  {
    if status :| (owner, peer, status) in s.responses {
      var events := [] + [DeliverResponse(owner, peer, status)];
      RunStep(policies, s, [], DeliverResponse(owner, peer, status));
      EffectExact(policies, s, DeliverResponse(owner, peer, status), Outbound(owner, peer));
      assert NoLookUps(events, peer, owner) && NoLookUps(events, owner, peer);
      assert !OutboundGone(Run(policies, s, events), owner, peer);
    } else {
      CommitAndAnswer(policies, s, owner, peer);
    }
  }

  lemma {:induction false} CommitAndAnswer(policies: string -> Policy, s: State, owner: string, peer: string)
    requires (owner, peer) in s.checked
    ensures exists events :: NoLookUps(events, peer, owner) && NoLookUps(events, owner, peer) &&
                             !OutboundGone(Run(policies, s, events), owner, peer)
  {
    var commit, answer := CommitHandshake(owner, peer), DeliverResponse(owner, peer, StatusFromPolicy(policies(peer)));
    var events := ([] + [commit]) + [answer];
    var t := Next(policies, s, commit);
    RunStep(policies, s, [], commit);
    RunStep(policies, s, [] + [commit], answer);
    EffectExact(policies, t, answer, Outbound(owner, peer));
    assert NoLookUps(events, peer, owner) && NoLookUps(events, owner, peer);
    assert !OutboundGone(Run(policies, s, events), owner, peer);
  }

  /**
   Once the outbound record is deleted, nothing but a fresh look-up of the owner by the
   peer brings one back (no callback), exactly when no answer of the peer was coming:
   no response that may still arrive, and no handler that had found no record.
   */
  lemma {:induction false} OutboundRevocationHoldsIff(
      policies: string -> Policy, s: State, owner: string, peer: string)
    ensures (forall events :: NoLookUps(events, owner, peer) ==>
               OutboundGone(Run(policies, Next(policies, s, DropOutbound(owner, peer)), events), owner, peer)) <==>
      !AnswerComing(s, owner, peer)
  {
    var s1 := Next(policies, s, DropOutbound(owner, peer));
    EffectExact(policies, s, DropOutbound(owner, peer), Outbound(owner, peer));
    if AnswerComing(s, owner, peer) {
      OutboundBack(policies, s1, owner, peer);
    } else {
      forall events | NoLookUps(events, owner, peer) ensures OutboundGone(Run(policies, s1, events), owner, peer) {
        OutboundStaysRevoked(policies, s1, events, owner, peer);
      }
    }
  }

  /** revokePeer: the inbound record is deleted, then the outbound one. */
  function Revoked(policies: string -> Policy, s: State, owner: string, peer: string): State {
    Next(policies, Next(policies, s, DropInbound(owner, peer)), DropOutbound(owner, peer))
  }

  lemma {:induction false} RevokedState(policies: string -> Policy, s: State, owner: string, peer: string)
    ensures var s' := Revoked(policies, s, owner, peer);
      && At(s', owner) == WithoutOutbound(WithoutInbound(At(s, owner), peer), peer)
      && InboundGone(s', owner, peer) && OutboundGone(s', owner, peer)
      && s'.checked == s.checked && s'.responses == s.responses
  {}

  /**
   After a revocation both records stay away until one of the two looks the other up
   afresh, exactly when nothing is under way between them: no handler of either that
   had found no record, and no response to the revoking agent.
   */
  lemma {:induction false} RevocationHoldsIff(policies: string -> Policy, s: State, owner: string, peer: string)
    ensures (forall events :: NoLookUps(events, peer, owner) && NoLookUps(events, owner, peer) ==>
               var s' := Run(policies, Revoked(policies, s, owner, peer), events);
               InboundGone(s', owner, peer) && OutboundGone(s', owner, peer)) <==>
      (peer, owner) !in s.checked && !AnswerComing(s, owner, peer)
  {
    var s2 := Revoked(policies, s, owner, peer);
    RevokedState(policies, s, owner, peer);
    if (peer, owner) in s.checked {
      InboundBack(policies, s2, owner, peer);
    } else if AnswerComing(s, owner, peer) {
      OutboundBack(policies, s2, owner, peer);
    } else {
      forall events | NoLookUps(events, peer, owner) && NoLookUps(events, owner, peer)
        ensures InboundGone(Run(policies, s2, events), owner, peer)
        ensures OutboundGone(Run(policies, s2, events), owner, peer)
      {
        StaysRevoked(policies, s2, events, owner, peer);
        OutboundStaysRevoked(policies, s2, events, owner, peer);
      }
    }
  }

  // ---------- lost callbacks ----------

  /** The n-th event gave A an answer from B, and A has not dropped the record since. */
  ghost predicate AnsweredAt(policies: string -> Policy, events: seq<Event>, len: nat, n: nat, a: string, b: string) {
    && n < len <= |events|
    && events[n].DeliverResponse? && EffectAt(policies, events, n, Outbound(a, b)).Some?
    && forall m :: n < m < len ==> events[m] != DropOutbound(a, b)
  }

  lemma {:induction false} AnsweredAtStep(
      policies: string -> Policy, events: seq<Event>, len: nat, n: nat, a: string, b: string)
    requires len < |events|
    ensures AnsweredAt(policies, events, len + 1, n, a, b) <==>
      if n == len then events[n].DeliverResponse? && EffectAt(policies, events, n, Outbound(a, b)).Some?
      else AnsweredAt(policies, events, len, n, a, b) && events[len] != DropOutbound(a, b)
  {}

  lemma {:induction false} KnownIffAnswered(
      policies: string -> Policy, events: seq<Event>, len: nat, a: string, b: string)
    requires len <= |events|
    ensures Read(After(policies, events, len), Outbound(a, b)).Some? <==>
      exists n: nat :: AnsweredAt(policies, events, len, n, a, b)
    decreases len
  {
    if len > 0 {
      var last := len - 1;
      KnownIffAnswered(policies, events, last, a, b);
      AfterStep(policies, events, last);
      EffectExact(policies, After(policies, events, last), events[last], Outbound(a, b));
      forall n: nat
        ensures AnsweredAt(policies, events, len, n, a, b) <==>
          if n == last then events[n].DeliverResponse? && EffectAt(policies, events, n, Outbound(a, b)).Some?
          else AnsweredAt(policies, events, last, n, a, b) && events[last] != DropOutbound(a, b)
      {
        AnsweredAtStep(policies, events, last, n, a, b);
      }
      if events[last].DeliverResponse? && EffectAt(policies, events, last, Outbound(a, b)).Some? {
        assert AnsweredAt(policies, events, len, last, a, b);
      }
    }
  }

  /**
   A callback that arrives is lost exactly when no response has been delivered since
   A last dropped its record; otherwise A then has the callback's status.
   */
  lemma {:induction false} CallbackLostIff(
      policies: string -> Policy, events: seq<Event>, a: string, b: string, status: Status)
    requires (b, a, status) in Run(policies, INITIAL, events).callbacks
    ensures var s := Run(policies, INITIAL, events);
      var s' := Next(policies, s, DeliverCallback(b, a, status));
      && (Read(s', Outbound(a, b)) != Some(status) <==>
            !exists n: nat :: AnsweredAt(policies, events, |events|, n, a, b))
      && (Read(s', Outbound(a, b)) != Some(status) ==> forall slot :: Read(s', slot) == Read(s, slot))
  {
    assert events[..|events|] == events;
    KnownIffAnswered(policies, events, |events|, a, b);
    var s := Run(policies, INITIAL, events);
    forall slot ensures Read(Next(policies, s, DeliverCallback(b, a, status)), slot) ==
      var w := Effect(policies, s, DeliverCallback(b, a, status), slot); if w.Some? then w.value else Read(s, slot)
    {
      EffectExact(policies, s, DeliverCallback(b, a, status), slot);
    }
  }

  /** Everything sent has arrived, and yet A stays pending while B has accepted. */
  ghost predicate LeftPending(s: State, events: seq<Event>, a: string, b: string) {
    && DeliverCallback(b, a, Accepted) in events && DeliverResponse(a, b, Pending) in events
    && s.requests == {(a, b)} && s.responses == {(a, b, Pending)} && s.callbacks == {(b, a, Accepted)}
    && Read(s, Outbound(a, b)) == Some(Pending) && Read(s, Inbound(b, a)) == Some(Accepted)
  }

  lemma {:induction false} Answer(policies: string -> Policy, a: string, b: string)
    requires policies(b) == UserApproval
    ensures var s := Run(policies, INITIAL, [SendRequest(a, b), CheckHandshake(a, b), CommitHandshake(a, b)]);
      && s.requests == {(a, b)} && s.responses == {(a, b, Pending)} && s.callbacks == {}
      && Read(s, Outbound(a, b)) == None && Read(s, Inbound(b, a)) == Some(Pending)
  {
    var e1 := [] + [SendRequest(a, b)];
    var e2 := e1 + [CheckHandshake(a, b)];
    RunStep(policies, INITIAL, [], SendRequest(a, b));
    RunStep(policies, INITIAL, e1, CheckHandshake(a, b));
    RunStep(policies, INITIAL, e2, CommitHandshake(a, b));
    assert e2 + [CommitHandshake(a, b)] == [SendRequest(a, b), CheckHandshake(a, b), CommitHandshake(a, b)];
  }

  /** The callback arrives first and finds nothing; then the response arrives. */
  lemma {:induction false} Overtake(policies: string -> Policy, s: State, a: string, b: string)
    requires s.responses == {(a, b, Pending)} && s.callbacks == {(b, a, Accepted)}
    requires Read(s, Outbound(a, b)) == None && Read(s, Inbound(b, a)) == Some(Accepted)
    ensures var t := Next(policies, s, DeliverCallback(b, a, Accepted));
      var s' := Next(policies, t, DeliverResponse(a, b, Pending));
      && s'.requests == s.requests && s'.responses == s.responses && s'.callbacks == s.callbacks
      && Read(s', Outbound(a, b)) == Some(Pending) && Read(s', Inbound(b, a)) == Some(Accepted)
  {
    var t := Next(policies, s, DeliverCallback(b, a, Accepted));
    EffectExact(policies, s, DeliverCallback(b, a, Accepted), Outbound(a, b));
    EffectExact(policies, s, DeliverCallback(b, a, Accepted), Inbound(b, a));
    EffectExact(policies, t, DeliverResponse(a, b, Pending), Outbound(a, b));
    EffectExact(policies, t, DeliverResponse(a, b, Pending), Inbound(b, a));
  }

  lemma {:induction false} RunTwo(policies: string -> Policy, s: State, events: seq<Event>, d: Event, e: Event)
    ensures Run(policies, s, events + [d] + [e]) == Next(policies, Next(policies, Run(policies, s, events), d), e)
  {
    RunStep(policies, s, events, d);
    RunStep(policies, s, events + [d], e);
  }

  /** After the answer and the approval, the callback overtakes the answer. */
  lemma {:induction false} Overtaken(policies: string -> Policy, events: seq<Event>, a: string, b: string)
    requires var s := Run(policies, INITIAL, events);
      && s.requests == {(a, b)} && s.responses == {(a, b, Pending)} && s.callbacks == {(b, a, Accepted)}
      && Read(s, Outbound(a, b)) == None && Read(s, Inbound(b, a)) == Some(Accepted)
    ensures var all := events + [DeliverCallback(b, a, Accepted)] + [DeliverResponse(a, b, Pending)];
      LeftPending(Run(policies, INITIAL, all), all, a, b)
  {
    var all := events + [DeliverCallback(b, a, Accepted)] + [DeliverResponse(a, b, Pending)];
    RunTwo(policies, INITIAL, events, DeliverCallback(b, a, Accepted), DeliverResponse(a, b, Pending));
    Overtake(policies, Run(policies, INITIAL, events), a, b);
    assert all[|events|] == DeliverCallback(b, a, Accepted) && all[|events| + 1] == DeliverResponse(a, b, Pending);
  }

  lemma {:induction false} AnsweredThenApproved(policies: string -> Policy, a: string, b: string)
    requires policies(b) == UserApproval
    ensures var answer := [SendRequest(a, b), CheckHandshake(a, b), CommitHandshake(a, b)];
      var s := Run(policies, INITIAL, answer + [Approve(b, a)]);
      && s.requests == {(a, b)} && s.responses == {(a, b, Pending)} && s.callbacks == {(b, a, Accepted)}
      && Read(s, Outbound(a, b)) == None && Read(s, Inbound(b, a)) == Some(Accepted)
  {
    var answer := [SendRequest(a, b), CheckHandshake(a, b), CommitHandshake(a, b)];
    Answer(policies, a, b);
    ApproveStep(policies, Run(policies, INITIAL, answer), a, b);
    RunStep(policies, INITIAL, answer, Approve(b, a));
  }

  function OvertakingRun(a: string, b: string): seq<Event> {
    [SendRequest(a, b), CheckHandshake(a, b), CommitHandshake(a, b)] + [Approve(b, a)]
      + [DeliverCallback(b, a, Accepted)] + [DeliverResponse(a, b, Pending)]
  }

  /** A callback that overtakes the handshake response finds no outbound record and is dropped. */
  lemma {:induction false} OvertakingCallbackLost(policies: string -> Policy, a: string, b: string)
    requires policies(b) == UserApproval
    ensures LeftPending(Run(policies, INITIAL, OvertakingRun(a, b)), OvertakingRun(a, b), a, b)
  {
    AnsweredThenApproved(policies, a, b);
    Overtaken(policies, [SendRequest(a, b), CheckHandshake(a, b), CommitHandshake(a, b)] + [Approve(b, a)], a, b);
  }
}
