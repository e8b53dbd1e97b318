/** Ownership of backend tickets across concurrent installs and unhooks (adapters/dobby/dobby_host.cpp:15-139).
    Each method is one critical section of the ownership mutex; any order of them is an interleaving of calls. */
module DobbyTickets {
  datatype PhysicalState = Preparing | Installed | RecoveryRequired

  datatype Transaction = Transaction(ticket: nat, state: PhysicalState)

  datatype Result = Success | NeverPublished | AfterPublished | FailedRecoveryRequired

  /** An install between its two critical sections, or done. `backup` tells whether it has handed out a backup. */
  datatype Call =
    | Refused
    | Committing(target: nat, ticket: nat)
    | Done(target: nat, ticket: nat, result: Result, backup: bool)

  /** What the backend answers to a prepare. */
  datatype Prepared = Prepared(ok: bool, ticket: nat, hasOriginal: bool, hasMemory: bool)

  /** What it answers to the commit, and to the abort that may follow. */
  datatype Committed = Committed(
    ok: bool, handle: nat, everPublished: bool, mayBePatched: bool, recovery: bool, abortOk: bool)

  /** The ticket the backend still holds after a failed commit. */
  function HandleLeft(c: Committed, ticket: nat): nat {
    if c.handle == ticket && !c.everPublished && !c.mayBePatched && !c.recovery && c.abortOk then 0 else c.handle
  }

  function ResultOf(c: Committed, ticket: nat): Result {
    if c.ok then Success
    else if HandleLeft(c, ticket) != 0 then FailedRecoveryRequired
    else if c.everPublished then AfterPublished
    else NeverPublished
  }

  predicate Matches(call: Call, t: Transaction) {
    match t.state
    case Preparing => call.Committing? && call.ticket == t.ticket
    case Installed => call.Done? && call.result == Success && call.ticket == t.ticket
    case RecoveryRequired => call.Done? && call.result == FailedRecoveryRequired && call.ticket == t.ticket
  }

  /** Whether a call must still own its ticket, unless an unhook has released it since. */
  predicate Owes(call: Call) {
    call.Committing? || (call.Done? && (call.result == Success || call.result == FailedRecoveryRequired))
  }

  class Host {
    var owned: map<nat, Transaction>
    var calls: map<nat, Call>
    ghost var holder: map<nat, nat>
    ghost var released: set<nat>

    /** The owned tickets are exactly those of the calls that owe one and have not been unhooked, each in the state
        its call's result says. */
    ghost predicate Valid()
      reads this
    {
      && owned.Keys == holder.Keys
      && (forall target :: target in owned ==>
            && holder[target] in calls && Owes(calls[holder[target]]) && calls[holder[target]].target == target
            && Matches(calls[holder[target]], owned[target]) && holder[target] !in released)
      && (forall id :: id in calls && Owes(calls[id]) && id !in released ==>
            calls[id].target in holder && holder[calls[id].target] == id)
      && (forall id :: id in released ==> id in calls && calls[id].Done?)
    }

    constructor ()
      ensures Valid() && owned == map[] && calls == map[]
    {
      owned, calls, holder, released := map[], map[], map[], {};
    }

    /** Install up to the point where it gives the mutex back. */
    method Reserve(id: nat, target: nat, argumentsOk: bool, answer: Prepared)
      requires Valid() && id !in calls
      modifies this
      ensures Valid() && released == old(released)
      ensures var reserves := argumentsOk && target !in old(owned)
                              && answer.ok && answer.ticket != 0 && answer.hasOriginal && answer.hasMemory;
              && calls == old(calls)[id := if reserves then Committing(target, answer.ticket) else Refused]
              && owned == if reserves then old(owned)[target := Transaction(answer.ticket, Preparing)] else old(owned)
    {
      if !argumentsOk || target in owned || !answer.ok || answer.ticket == 0 || !answer.hasOriginal || !answer.hasMemory {
        calls := calls[id := Refused];
        return;
      }
      owned := owned[target := Transaction(answer.ticket, Preparing)];
      calls := calls[id := Committing(target, answer.ticket)];
      holder := holder[target := id];
    }

    /** The rest of the install, once the backend has answered. */
    method Finish(id: nat, answer: Committed) returns (result: Result)
      requires Valid() && id in calls && calls[id].Committing?
      modifies this
      ensures Valid() && released == old(released)
      ensures var call := old(calls)[id];
              && result == ResultOf(answer, call.ticket)
              && calls == old(calls)[id := Done(call.target, call.ticket, result, result != NeverPublished)]
              && call.target in old(owned) && old(owned)[call.target] == Transaction(call.ticket, Preparing)
              && owned == match result
                          case Success => old(owned)[call.target := Transaction(call.ticket, Installed)]
                          case FailedRecoveryRequired => old(owned)[call.target := Transaction(call.ticket, RecoveryRequired)]
                          case _ => old(owned) - {call.target}
      ensures result == Success <==> answer.ok
      ensures result == FailedRecoveryRequired <==>
                && !answer.ok && answer.handle != 0
                && (answer.handle != old(calls)[id].ticket || answer.everPublished || answer.mayBePatched || answer.recovery
                    || !answer.abortOk)
      ensures result == AfterPublished ==> answer.everPublished
      ensures result == NeverPublished ==> !answer.everPublished
    {
      var target, ticket := calls[id].target, calls[id].ticket;
      assert holder[target] == id;
      if answer.ok {
        Publish(id, Installed, Success);
        return Success;
      }
      var handle := answer.handle;
      if handle == ticket && !answer.everPublished && !answer.mayBePatched && !answer.recovery {
        if answer.abortOk {
          handle := 0;
        }
      }
      if handle != 0 {
        Publish(id, RecoveryRequired, FailedRecoveryRequired);
        return FailedRecoveryRequired;
      }
      result := if answer.everPublished then AfterPublished else NeverPublished;
      Erase(id, result);
    }

    /** The ticket stays, in the state that goes with the result. */
    method Publish(id: nat, state: PhysicalState, result: Result)
      requires Valid() && id in calls && calls[id].Committing?
      requires (state == Installed && result == Success) || (state == RecoveryRequired && result == FailedRecoveryRequired)
      modifies this`owned, this`calls
      ensures Valid()
      ensures calls == old(calls)[id := Done(old(calls)[id].target, old(calls)[id].ticket, result, true)]
      ensures owned == old(owned)[old(calls)[id].target := Transaction(old(calls)[id].ticket, state)]
    {
      var target, ticket := calls[id].target, calls[id].ticket;
      assert holder[target] == id;
      if target in owned && owned[target].ticket == ticket {
        owned := owned[target := Transaction(ticket, state)];
      }
      calls := calls[id := Done(target, ticket, result, true)];
    }

    method Erase(id: nat, result: Result)
      requires Valid() && id in calls && calls[id].Committing? && result in {NeverPublished, AfterPublished}
      modifies this`owned, this`calls, this`holder
      ensures Valid()
      ensures calls == old(calls)[id := Done(old(calls)[id].target, old(calls)[id].ticket, result, result != NeverPublished)]
      ensures owned == old(owned) - {old(calls)[id].target}
    {
      var target, ticket := calls[id].target, calls[id].ticket;
      assert holder[target] == id;
      owned := owned - {target};
      holder := holder - {target};
      calls := calls[id := Done(target, ticket, result, result != NeverPublished)];
    }

    /** Never takes a ticket from an install that is still at work; a ticket the backend cannot release stays. */
    method Unhook(target: nat, backendOk: bool) returns (ok: bool)
      requires Valid()
      modifies this
      ensures Valid() && calls == old(calls)
      ensures ok <==> target in old(owned) && old(owned)[target].state != Preparing && backendOk
      ensures owned == if ok then old(owned) - {target} else old(owned)
      ensures ok ==> exists id :: id in calls && id !in old(released) && Matches(calls[id], old(owned)[target])
                                  && calls[id].target == target && released == old(released) + {id}
      ensures !ok ==> released == old(released)
    {
      if target !in owned || owned[target].state == Preparing || !backendOk {
        return false;
      }
      ghost var id := holder[target];
      owned := owned - {target};
      holder := holder - {target};
      released := released + {id};
      return true;
    }

    /** While an install is between its critical sections, its target is owned by its ticket, in preparation; no other
        install of that target is under way. */
    lemma NeverStolen(id: nat, other: nat)
      requires Valid() && id in calls && calls[id].Committing?
      ensures calls[id].target in owned && owned[calls[id].target] == Transaction(calls[id].ticket, Preparing)
      ensures other in calls && calls[other].Committing? && calls[other].target == calls[id].target ==> other == id
    {
      assert holder[calls[id].target] == id;
    }

    /** No ticket is lost: a call that reported success or asked for recovery owns its ticket, in the matching state,
        until an unhook has released it; other failures own nothing. */
    lemma NoTicketLost(id: nat)
      requires Valid() && id in calls && calls[id].Done?
      ensures var call := calls[id];
              (call.result == Success || call.result == FailedRecoveryRequired) && id !in released ==>
                && call.target in owned
                && owned[call.target] == Transaction(call.ticket, if call.result == Success then Installed else RecoveryRequired)
      ensures forall target :: target in owned && !Owes(calls[id]) ==> holder[target] != id
    {
      if Owes(calls[id]) && id !in released {
        assert holder[calls[id].target] == id;
      }
    }
  }
}
