/**
 Polling over whole runs: when a poll hands out nobody, how the agents take turns, and why
 nobody is handed out twice within a round.
 */
module DispatchPolling {
  import opened Wrappers
  import opened Arithmetic
  import opened Dispatch
  import opened DispatchRegistry

  // ----- One poll -----

  /**
   A poll hands out the first ready agent that was not polled, or, when all were polled and so
   all flags are cleared, the first ready agent; it changes nothing else.
   */
  lemma PollHandsOut(reg: Registry)
    ensures var (next, handed) := PollAgents(reg);
            && |next| == |reg|
            && (handed.Some? ==>
                  && handed.value < |reg|
                  && reg[handed.value].status == Ready
                  && (reg[handed.value].polling ==> AllPolled(reg))
                  && (forall k | 0 <= k < handed.value :: reg[k].status == Ready ==> reg[k].polling && !AllPolled(reg)))
            && (forall k | 0 <= k < |reg| ::
                  next[k] == reg[k].(polling := handed == Some(k) || (reg[k].polling && !AllPolled(reg))))
  {
    var s := Searched(reg);
    assert forall k | 0 <= k < |reg| :: s[k] == reg[k].(polling := reg[k].polling && !AllPolled(reg));
  }

  /**
   Exactly when a poll hands out nobody: no agent is ready, or some agent is unpolled and every
   such agent is not ready. So a ready agent can be passed over while it waits its turn behind
   an agent that is not ready.
   */
  lemma PollNull(reg: Registry)
    ensures PollAgents(reg).1.None? <==>
            || (forall k | 0 <= k < |reg| :: reg[k].status != Ready)
            || (!AllPolled(reg) && forall k | 0 <= k < |reg| :: !reg[k].polling ==> reg[k].status != Ready)
  {
    PollHandsOut(reg);
    var s := Searched(reg);
    var i := FirstAvailable(s);
    if i == |s| {
      forall k | 0 <= k < |reg|
        ensures !Available(s[k])
      {
      }
      if AllPolled(reg) {
        assert forall k | 0 <= k < |reg| :: s[k] == reg[k].(polling := false);
      }
    }
  }

  /** The polled agent is ready, the unpolled one is not, and a poll hands out neither. */
  lemma ReadyYetNull()
    ensures var reg := [Record("1", "91", "", true, Ready), Record("2", "92", "", false, NotReady)];
            PollAgents(reg) == (reg, None)
  {
    var reg := [Record("1", "91", "", true, Ready), Record("2", "92", "", false, NotReady)];
    assert !reg[1].polling;
    assert FirstAvailable(reg[1..]) == 1 by {
      assert reg[1..][1..] == [];
    }
  }

  function PollTimes(reg: Registry, k: nat): Registry
    decreases k
  {
    if k == 0 then reg else PollTimes(PollAgents(reg).0, k - 1)
  }

  /** Who the poll after `k` others hands out. */
  function Handed(reg: Registry, k: nat): Option<nat> {
    PollAgents(PollTimes(reg, k)).1
  }

  /** A poll that hands out nobody is followed by no better one, until some other step. */
  lemma {:induction false} NullStays(reg: Registry, k: nat)
    requires PollAgents(reg).1.None?
    ensures Handed(reg, k).None?
    decreases k
  {
    if k == 0 {
    } else {
      var next := PollAgents(reg).0;
      PollHandsOut(reg);
      PollNull(reg);
      PollNull(next);
      NullStays(next, k - 1);
    }
  }

  // ----- Taking turns -----

  predicate AllReady(reg: Registry) {
    forall k | 0 <= k < |reg| :: reg[k].status == Ready
  }

  /** The list with exactly the first `m` flags set. */
  function Marked(reg: Registry, m: nat): Registry {
    seq(|reg|, i requires 0 <= i < |reg| => reg[i].(polling := i < m))
  }

  lemma MarkedPoll(reg: Registry, m: nat)
    requires AllReady(reg) && 0 < |reg| && m <= |reg|
    ensures PollAgents(Marked(reg, m)) ==
            if m < |reg| then (Marked(reg, m + 1), Some(m)) else (Marked(reg, 1), Some(0))
  {
    var marked := Marked(reg, m);
    if m < |reg| {
      assert !marked[m].polling;
      FirstAvailableIs(marked, m);
      assert marked[m := marked[m].(polling := true)] == Marked(reg, m + 1);
    } else {
      assert AllPolled(marked);
      assert Searched(marked) == Marked(reg, 0);
      FirstAvailableIs(Marked(reg, 0), 0);
      assert Marked(reg, 0)[0 := Marked(reg, 0)[0].(polling := true)] == Marked(reg, 1);
    }
  }

  lemma {:induction false} RotationFrom(reg: Registry, m: nat, k: nat)
    requires AllReady(reg) && 0 < |reg| && m <= |reg|
    ensures Handed(Marked(reg, m), k) == Some((m + k) % |reg|)
    decreases k
  {
    hide PollAgents, Marked;
    MarkedPoll(reg, m);
    if k == 0 {
      Wrap(m, |reg|);
    } else {
      RotationFrom(reg, if m < |reg| then m + 1 else 1, k - 1);
      Wrap(k, |reg|);
    }
  }

  /** With all agents ready and all flags clear, the polls go round the list, in order. */
  lemma Rotation(reg: Registry, k: nat)
    requires AllReady(reg) && 0 < |reg|
    requires forall i | 0 <= i < |reg| :: !reg[i].polling
    ensures Handed(reg, k) == Some(k % |reg|)
  {
    assert reg == Marked(reg, 0);
    RotationFrom(reg, 0, k);
  }

  function Unpolled(reg: Registry): (n: nat)
    ensures n <= |reg|
    ensures n == 0 <==> AllPolled(reg)
    ensures n == |reg| <==> forall i | 0 <= i < |reg| :: !reg[i].polling
  {
    if reg == [] then 0 else
      assert forall i | 1 <= i < |reg| :: reg[i] == reg[1..][i - 1];
      (if reg[0].polling then 0 else 1) + Unpolled(reg[1..])
  }

  lemma {:induction false} UnpolledAfter(reg: Registry, i: nat)
    requires i < |reg| && !reg[i].polling
    ensures Unpolled(reg[i := reg[i].(polling := true)]) == Unpolled(reg) - 1
    decreases i
  {
    var next := reg[i := reg[i].(polling := true)];
    if i == 0 {
      assert next[1..] == reg[1..];
    } else {
      assert next[1..] == reg[1..][i - 1 := reg[1..][i - 1].(polling := true)];
      UnpolledAfter(reg[1..], i - 1);
    }
  }

  /** A poll within a round: one more flag is set, and the flag was clear. */
  lemma PollInRound(reg: Registry) returns (i: nat)
    requires AllReady(reg) && !AllPolled(reg)
    ensures i < |reg| && !reg[i].polling
    ensures PollAgents(reg) == (reg[i := reg[i].(polling := true)], Some(i))
    ensures Unpolled(reg[i := reg[i].(polling := true)]) == Unpolled(reg) - 1
    ensures Marked(reg[i := reg[i].(polling := true)], |reg|) == Marked(reg, |reg|)
    ensures AllReady(reg[i := reg[i].(polling := true)])
  {
    i := FirstAvailable(reg);
    UnpolledAfter(reg, i);
  }

  lemma AllMarked(reg: Registry)
    requires AllPolled(reg)
    ensures Marked(reg, |reg|) == reg
  {
    assert forall i | 0 <= i < |reg| :: reg[i] == reg[i].(polling := true);
  }

  /** The rest of a round: as many polls as there are unpolled agents reach each of them. */
  lemma {:induction false} RestOfRound(reg: Registry, p: nat) returns (k: nat)
    requires AllReady(reg) && p < |reg|
    ensures PollTimes(reg, Unpolled(reg)) == Marked(reg, |reg|)
    ensures !reg[p].polling ==> k < Unpolled(reg) && Handed(reg, k) == Some(p)
    decreases Unpolled(reg)
  {
    hide PollAgents, Marked, Unpolled, AllReady;
    k := 0;
    if AllPolled(reg) {
      AllMarked(reg);
    } else {
      var i := PollInRound(reg);
      var next := reg[i := reg[i].(polling := true)];
      var later := RestOfRound(next, p);
      if p != i {
        k := later + 1;
      }
    }
  }

  lemma {:induction false} PollTimesSum(reg: Registry, a: nat, b: nat)
    ensures PollTimes(reg, a + b) == PollTimes(PollTimes(reg, a), b)
    decreases a
  {
    hide PollAgents;
    if a == 0 {
    } else {
      PollTimesSum(PollAgents(reg).0, a - 1, b);
    }
  }

  /** With all agents ready, whatever the flags, fewer than twice as many polls as there are
      agents reach every one of them. */
  lemma EveryoneServed(reg: Registry, p: nat)
    requires AllReady(reg) && p < |reg|
    ensures exists k | 0 <= k < 2 * |reg| - 1 :: Handed(reg, k) == Some(p)
  {
    hide PollAgents, Marked;
    var u := Unpolled(reg);
    var k := RestOfRound(reg, p);
    if reg[p].polling {
      PollTimesSum(reg, u, p);
      RotationFrom(reg, |reg|, p);
      Wrap(p, |reg|);
      assert Handed(reg, u + p) == Some(p);
    }
  }

  // ----- Nobody twice in a round -----

  /** Who the `i`-th event of a run hands out, if it is a poll that hands out an agent. */
  function HandedAt(reg: Registry, events: seq<Event>, i: nat): Option<string>
    requires i < |events|
  {
    var before := Run(reg, events[..i]);
    var handed := PollAgents(before).1;
    if events[i].Poll? && handed.Some? && handed.value < |before| then Some(before[handed.value].dn) else None
  }

  /** The `i`-th event of a run is a poll that clears every flag. */
  predicate ClearsAt(reg: Registry, events: seq<Event>, i: nat)
    requires i < |events|
  {
    events[i].Poll? && AllPolled(Run(reg, events[..i]))
  }

  /** If an agent has that dn, its flag is set. */
  predicate Polled(reg: Registry, dn: string) {
    forall i | 0 <= i < |reg| :: reg[i].dn == dn ==> reg[i].polling
  }

  lemma StepKeepsPolled(reg: Registry, e: Event, dn: string)
    requires Polled(reg, dn)
    requires e.Poll? ==> !AllPolled(reg)
    requires e.Login? ==> e.dn != dn
    ensures Polled(Apply(reg, e), dn)
  {
    hide IndexOf, FirstAvailable;
  }

  lemma PollSetsFlag(reg: Registry)
    requires Distinct(reg) && PollAgents(reg).1.Some?
    ensures PollAgents(reg).1.value < |reg|
    ensures Polled(PollAgents(reg).0, reg[PollAgents(reg).1.value].dn)
  {
    PollHandsOut(reg);
  }

  /** But for a poll that clears the flags, whoever is handed out was not polled before. */
  lemma HandedUnpolled(reg: Registry, events: seq<Event>, i: nat)
    requires i < |events| && HandedAt(reg, events, i).Some? && !ClearsAt(reg, events, i)
    ensures !Polled(Run(reg, events[..i]), HandedAt(reg, events, i).value)
  {
    var before := Run(reg, events[..i]);
    PollHandsOut(before);
    assert !before[PollAgents(before).1.value].polling;
  }

  lemma RunStep(reg: Registry, events: seq<Event>, i: nat)
    requires i < |events|
    ensures Run(reg, events[..i + 1]) == Apply(Run(reg, events[..i]), events[i])
  {
    assert events[..i + 1][..i] == events[..i];
  }

  lemma {:induction false} StaysPolled(reg: Registry, events: seq<Event>, start: nat, stop: nat, dn: string)
    requires start <= stop <= |events|
    requires Polled(Run(reg, events[..start]), dn)
    requires forall k | start <= k < stop :: !ClearsAt(reg, events, k)
    requires forall k | start <= k < stop :: events[k].Login? ==> events[k].dn != dn
    ensures Polled(Run(reg, events[..stop]), dn)
    decreases stop - start
  {
    if start < stop {
      RunStep(reg, events, start);
      assert !ClearsAt(reg, events, start);
      StepKeepsPolled(Run(reg, events[..start]), events[start], dn);
      StaysPolled(reg, events, start + 1, stop, dn);
    }
  }

  /**
   In any run of requests, events and polls, an agent handed out twice was handed out on either
   side of a clearing of all the flags, or logged in again in between.
   */
  lemma NoDoubleHandOut(reg: Registry, events: seq<Event>, i: nat, j: nat)
    requires Distinct(reg) && i < j < |events|
    requires HandedAt(reg, events, i).Some? && HandedAt(reg, events, i) == HandedAt(reg, events, j)
    ensures || (exists k | i < k <= j :: ClearsAt(reg, events, k))
            || (exists k | i < k < j :: events[k].Login? && events[k].dn == HandedAt(reg, events, i).value)
  {
    var dn := HandedAt(reg, events, i).value;
    if (forall k | i < k <= j :: !ClearsAt(reg, events, k)) &&
       (forall k | i < k < j :: events[k].Login? ==> events[k].dn != dn) {
      RunKeepsDistinct(reg, events[..i]);
      PollSetsFlag(Run(reg, events[..i]));
      RunStep(reg, events, i);
      StaysPolled(reg, events, i + 1, j, dn);
      HandedUnpolled(reg, events, j);
    }
  }

  /** Whoever is handed out was ready at that moment. */
  lemma HandedWasReady(reg: Registry, events: seq<Event>, i: nat)
    requires i < |events| && HandedAt(reg, events, i).Some?
    ensures exists r <- Run(reg, events[..i]) :: r.dn == HandedAt(reg, events, i).value && r.status == Ready
  {
    var before := Run(reg, events[..i]);
    PollHandsOut(before);
    assert before[PollAgents(before).1.value] in before;
  }
}
