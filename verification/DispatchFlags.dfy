/**
 The polling flag, read off the history: an agent's flag is set exactly when a poll has handed
 it out and neither a clearing of all flags nor a login of its own came after.
 */
module DispatchFlags {
  import opened Wrappers
  import opened Dispatch
  import opened DispatchRegistry
  import opened DispatchPolling

  /** The `j`-th event takes back the turn of the agent with that dn. */
  predicate TakesBack(events: seq<Event>, j: nat, dn: string)
    requires j < |events|
  {
    ClearsAt([], events, j) || (events[j].Login? && events[j].dn == dn)
  }

  /** The `k`-th event handed the agent out, and nothing since has taken that back. */
  predicate HandedLast(events: seq<Event>, k: nat, dn: string)
    requires k < |events|
  {
    HandedAt([], events, k) == Some(dn) && forall j | k < j < |events| :: !TakesBack(events, j, dn)
  }

  ghost predicate HasHadItsTurn(events: seq<Event>, dn: string) {
    exists k | 0 <= k < |events| :: HandedLast(events, k, dn)
  }

  /** What an event says about an earlier moment does not depend on later events. */
  lemma Earlier(events: seq<Event>, e: Event, k: nat, dn: string)
    requires k < |events|
    ensures HandedAt([], events + [e], k) == HandedAt([], events, k)
    ensures TakesBack(events + [e], k, dn) == TakesBack(events, k, dn)
  {
    assert (events + [e])[..k] == events[..k];
  }

  lemma TurnStep(events: seq<Event>, e: Event, dn: string)
    ensures var after := events + [e];
            HasHadItsTurn(after, dn) <==>
            || HandedAt([], after, |events|) == Some(dn)
            || (HasHadItsTurn(events, dn) && !TakesBack(after, |events|, dn))
  {
    var after := events + [e];
    forall k | 0 <= k < |events|
      ensures HandedLast(after, k, dn) <==> HandedLast(events, k, dn) && !TakesBack(after, |events|, dn)
    {
      Earlier(events, e, k, dn);
      forall j | 0 <= j < |events|
        ensures TakesBack(after, j, dn) == TakesBack(events, j, dn)
      {
        Earlier(events, e, j, dn);
      }
    }
    if HasHadItsTurn(after, dn) {
      var k :| 0 <= k < |after| && HandedLast(after, k, dn);
      assert k < |events| ==> HandedLast(events, k, dn);
    }
    if HandedAt([], after, |events|) == Some(dn) {
      assert HandedLast(after, |events|, dn);
    }
    if HasHadItsTurn(events, dn) && !TakesBack(after, |events|, dn) {
      var k :| 0 <= k < |events| && HandedLast(events, k, dn);
      assert HandedLast(after, k, dn);
    }
  }

  ghost predicate FlagsRight(events: seq<Event>, reg: Registry) {
    forall i | 0 <= i < |reg| :: reg[i].polling <==> HasHadItsTurn(events, reg[i].dn)
  }

  /** Where an agent's flag comes from in one step that is not a poll. */
  lemma FlagKept(reg: Registry, e: Event, i: nat)
    requires Distinct(reg) && !e.Poll? && i < |Apply(reg, e)|
    ensures var r := Apply(reg, e)[i];
            if e.Login? && e.dn == r.dn then !r.polling
            else exists j | 0 <= j < |reg| :: reg[j].dn == r.dn && reg[j].polling == r.polling
  {
    hide IndexOf;
    var next := Apply(reg, e);
    if e.Logout? {
      var gone := IndexOf(reg, e.dn);
      var j := if gone < |reg| && i >= gone then i + 1 else i;
      assert next[i] == reg[j];
    } else if i < |reg| {
      assert next[i].dn == reg[i].dn;
      assert next[i].polling == reg[i].polling || (e.Login? && e.dn == next[i].dn);
    }
  }

  lemma FlagStep(events: seq<Event>, e: Event)
    requires Distinct(Run([], events)) && FlagsRight(events, Run([], events))
    ensures FlagsRight(events + [e], Run([], events + [e]))
  {
    hide HasHadItsTurn, Distinct, PollAgents;
    var reg, after := Run([], events), events + [e];
    assert after[..|events|] == events;
    var next := Apply(reg, e);
    forall i | 0 <= i < |next|
      ensures next[i].polling <==> HasHadItsTurn(after, next[i].dn)
    {
      TurnStep(events, e, next[i].dn);
      if e.Poll? {
        PollHandsOut(reg);
        assert next[i].dn == reg[i].dn;
        HandedIsIndex(reg, i);
      } else {
        FlagKept(reg, e, i);
      }
    }
  }

  /** With distinct dns, the agent handed out is the one at that position. */
  lemma HandedIsIndex(reg: Registry, i: nat)
    requires Distinct(reg) && i < |reg|
    ensures var handed := PollAgents(reg).1;
            handed.Some? ==> handed.value < |reg| && (reg[handed.value].dn == reg[i].dn <==> handed.value == i)
  {
    PollHandsOut(reg);
  }

  /** The flag law, over every history. */
  lemma {:induction false} FlagLaw(events: seq<Event>)
    ensures FlagsRight(events, Run([], events))
  {
    if events == [] {
    } else {
      var before, e := events[..|events| - 1], events[|events| - 1];
      assert events == before + [e];
      FlagLaw(before);
      RunKeepsDistinct([], before);
      FlagStep(before, e);
    }
  }
}
