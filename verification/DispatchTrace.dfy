/**
 What an agent's record says, read off the history: its status and call identifier are those
 of the latest events about its dn, whatever happened to other agents in between.
 */
module DispatchTrace {
  import opened Wrappers
  import opened Dispatch
  import opened DispatchRegistry

  /** What an event can settle about an agent. */
  datatype Aspect = Registration | CurrentStatus | CurrentCall

  /** The event is about the agent with that dn and settles that aspect of it. */
  predicate Settles(e: Event, dn: string, aspect: Aspect) {
    !e.Poll? && e.dn == dn &&
    match aspect
    case Registration => e.Login? || e.Logout?
    case CurrentStatus => e.Login? || e.SetReady? || e.SetNotReady? || e.SetLeave? || e.Hangup?
    case CurrentCall => e.Create? || e.Hangup? || e.Logout?
  }

  /** The latest event that settles an aspect of the agent with that dn. */
  function Latest(events: seq<Event>, dn: string, aspect: Aspect): (r: Option<nat>)
    ensures r.None? ==> forall i | 0 <= i < |events| :: !Settles(events[i], dn, aspect)
    ensures r.Some? ==>
              && r.value < |events| && Settles(events[r.value], dn, aspect)
              && forall i | r.value < i < |events| :: !Settles(events[i], dn, aspect)
  {
    if events == [] then None
    else if Settles(events[|events| - 1], dn, aspect) then Some(|events| - 1)
    else Latest(events[..|events| - 1], dn, aspect)
  }

  /** An agent is registered from a login until the next logout. */
  predicate Registered(events: seq<Event>, dn: string) {
    var k := Latest(events, dn, Registration);
    k.Some? && events[k.value].Login?
  }

  function StatusSet(e: Event): Status {
    match e
    case SetNotReady(_) => NotReady
    case SetLeave(_) => Leave
    case _ => Ready
  }

  /** The call an agent is in: that of the latest channel created for it while it was
      registered, if no hangup and no logout came after. */
  function CallOf(events: seq<Event>, dn: string): string {
    var k := Latest(events, dn, CurrentCall);
    if k.Some? && events[k.value].Create? && Registered(events[..k.value], dn) then events[k.value].uuid else ""
  }

  /** What the history says about an agent. */
  predicate AsHistorySays(events: seq<Event>, r: Record) {
    var login, status := Latest(events, r.dn, Registration), Latest(events, r.dn, CurrentStatus);
    && login.Some? && events[login.value].Login? && r.agent == events[login.value].agent
    && status.Some? && r.status == StatusSet(events[status.value])
    && r.uuid == CallOf(events, r.dn)
  }

  predicate DirectoryLaw(events: seq<Event>, d: Directory, dn: string) {
    && (dn in d.records <==> Registered(events, dn))
    && (dn in d.records ==> d.records[dn].dn == dn && AsHistorySays(events, d.records[dn]))
    && (dn !in d.records ==> CallOf(events, dn) == "")
  }

  const EMPTY: Directory := Directory([], map[])

  lemma LatestStep(events: seq<Event>, e: Event, dn: string, aspect: Aspect)
    ensures Latest(events + [e], dn, aspect) ==
            if Settles(e, dn, aspect) then Some(|events|) else Latest(events, dn, aspect)
  {
    assert (events + [e])[..|events|] == events;
  }

  lemma HistoryStep(events: seq<Event>, e: Event, dn: string)
    ensures Registered(events + [e], dn) ==
            if Settles(e, dn, Registration) then e.Login? else Registered(events, dn)
    ensures CallOf(events + [e], dn) ==
            if !Settles(e, dn, CurrentCall) then CallOf(events, dn)
            else if e.Create? && Registered(events, dn) then e.uuid
            else ""
  {
    LatestStep(events, e, dn, Registration);
    LatestStep(events, e, dn, CurrentCall);
    assert (events + [e])[..|events|] == events;
    var k := Latest(events, dn, CurrentCall);
    if k.Some? {
      assert (events + [e])[..k.value] == events[..k.value];
    }
  }

  /** Steps about other agents, and polls, leave the record as it was, but for its polling flag. */
  lemma OtherStep(d: Directory, e: Event, dn: string)
    requires e.Poll? || e.dn != dn
    requires dn in d.records ==> d.records[dn].dn == dn
    ensures dn in ApplyToDirectory(d, e).records <==> dn in d.records
    ensures dn in d.records ==>
              var after := ApplyToDirectory(d, e).records[dn];
              after == d.records[dn].(polling := after.polling)
  {
  }

  lemma LawStep(events: seq<Event>, e: Event, d: Directory, dn: string)
    requires DirectoryLaw(events, d, dn)
    ensures DirectoryLaw(events + [e], ApplyToDirectory(d, e), dn)
  {
    HistoryStep(events, e, dn);
    LatestStep(events, e, dn, Registration);
    LatestStep(events, e, dn, CurrentStatus);
    if e.Poll? || e.dn != dn {
      OtherStep(d, e, dn);
    }
  }

  lemma {:induction false} LawHolds(events: seq<Event>, dn: string)
    ensures DirectoryLaw(events, RunDirectory(EMPTY, events), dn)
  {
    if events == [] {
    } else {
      var before, e := events[..|events| - 1], events[|events| - 1];
      assert events == before + [e];
      LawHolds(before, dn);
      LawStep(before, e, RunDirectory(EMPTY, before), dn);
    }
  }

  /**
   The trace law: after any history an agent with that dn is in the list exactly when it is
   registered, and its name, status and call are what the latest events about it say.
   */
  lemma TraceLaw(events: seq<Event>, dn: string)
    ensures var reg := Run([], events);
            var i := IndexOf(reg, dn);
            && (i < |reg| <==> Registered(events, dn))
            && (i < |reg| ==> AsHistorySays(events, reg[i]))
  {
    RunRefines(EMPTY, [], events);
    LawHolds(events, dn);
    Lookup(RunDirectory(EMPTY, events), Run([], events), dn);
  }
}
