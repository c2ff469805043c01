/**
 The registry over whole runs: the list of agents behaves as a map from dn to record kept in
 order of registration, and what a record says is decided by the events of its own dn.
 */
module DispatchRegistry {
  import opened Wrappers
  import opened Dispatch

  // ----- One agent per dn -----

  predicate Distinct(reg: Registry) {
    forall i, j | 0 <= i < j < |reg| :: reg[i].dn != reg[j].dn
  }

  lemma StepKeepsDistinct(reg: Registry, e: Event)
    requires Distinct(reg)
    ensures Distinct(Apply(reg, e))
  {
    hide Apply, IndexOf;
    assert e.Login? ==> Apply(reg, e) == LogIn(reg, e.dn, e.agent) by { ApplyIs(reg, e); }
    assert e.Logout? ==> Apply(reg, e) == LogOut(reg, e.dn) by { ApplyIs(reg, e); }
    if e.Login? {
      LoginKeepsDistinct(reg, e.dn, e.agent);
    } else if e.Logout? {
      LogoutKeepsDistinct(reg, e.dn);
    } else {
      DnsKept(reg, e);
    }
  }

  lemma DnsKept(reg: Registry, e: Event)
    requires !e.Login? && !e.Logout?
    ensures |Apply(reg, e)| == |reg| && forall i | 0 <= i < |reg| :: Apply(reg, e)[i].dn == reg[i].dn
  {
    hide IndexOf, FirstAvailable;
  }

  lemma ApplyIs(reg: Registry, e: Event)
    ensures e.Login? ==> Apply(reg, e) == LogIn(reg, e.dn, e.agent)
    ensures e.Logout? ==> Apply(reg, e) == LogOut(reg, e.dn)
  {
  }

  lemma LoginKeepsDistinct(reg: Registry, dn: string, agent: string)
    requires Distinct(reg)
    ensures Distinct(LogIn(reg, dn, agent))
  {
  }

  lemma LogoutKeepsDistinct(reg: Registry, dn: string)
    requires Distinct(reg)
    ensures Distinct(LogOut(reg, dn))
  {
    var next, i := LogOut(reg, dn), IndexOf(reg, dn);
    assert i < |reg| ==> forall k | 0 <= k < |next| :: next[k] == reg[if k < i then k else k + 1];
  }

  lemma {:induction false} RunKeepsDistinct(reg: Registry, events: seq<Event>)
    requires Distinct(reg)
    ensures Distinct(Run(reg, events))
  {
    if events == [] {
    } else {
      RunKeepsDistinct(reg, events[..|events| - 1]);
      StepKeepsDistinct(Run(reg, events[..|events| - 1]), events[|events| - 1]);
    }
  }

  lemma IndexOfSelf(reg: Registry, i: nat)
    requires Distinct(reg) && i < |reg|
    ensures IndexOf(reg, reg[i].dn) == i
  {
  }

  // ----- A map in order of registration -----

  /** The dns in order of registration, and the record of each. */
  datatype Directory = Directory(order: seq<string>, records: map<string, Record>)

  /** `d` has the agents of the list, in its order. */
  predicate Represents(d: Directory, reg: Registry) {
    && |d.order| == |reg|
    && (forall i | 0 <= i < |reg| :: d.order[i] == reg[i].dn)
    && (forall i | 0 <= i < |reg| :: reg[i].dn in d.records && d.records[reg[i].dn] == reg[i])
    && (forall dn <- d.records :: dn in d.order)
  }

  function Without(order: seq<string>, dn: string): seq<string> {
    if order == [] then []
    else if order[0] == dn then order[1..]
    else [order[0]] + Without(order[1..], dn)
  }

  function Update(d: Directory, dn: string, f: Record -> Record): Directory {
    if dn in d.records then d.(records := d.records[dn := f(d.records[dn])]) else d
  }

  /** The first dn in `order` whose agent is available. */
  function FirstIn(order: seq<string>, records: map<string, Record>): Option<string> {
    if order == [] then None
    else if order[0] in records && Available(records[order[0]]) then Some(order[0])
    else FirstIn(order[1..], records)
  }

  function SearchedRecords(records: map<string, Record>): map<string, Record> {
    if forall dn <- records :: records[dn].polling
    then map dn <- records :: records[dn].(polling := false)
    else records
  }

  function ApplyToDirectory(d: Directory, e: Event): Directory {
    match e
    case Login(dn, agent) =>
      if dn in d.records then Update(d, dn, (r: Record) => r.(agent := agent, polling := false, status := Ready))
      else Directory(d.order + [dn], d.records[dn := Record(dn, agent, "", false, Ready)])
    case Logout(dn) => if dn in d.records then Directory(Without(d.order, dn), d.records - {dn}) else d
    case SetReady(dn) => Update(d, dn, (r: Record) => r.(status := Ready))
    case SetNotReady(dn) => Update(d, dn, (r: Record) => r.(status := NotReady))
    case SetLeave(dn) => Update(d, dn, (r: Record) => r.(status := Leave))
    case Create(dn, uuid) => Update(d, dn, (r: Record) => r.(uuid := uuid))
    case Hangup(dn) => Update(d, dn, (r: Record) => r.(status := Ready, uuid := ""))
    case Poll =>
      var records := SearchedRecords(d.records);
      var first := FirstIn(d.order, records);
      if first.None? then d.(records := records)
      else Update(d.(records := records), first.value, (r: Record) => r.(polling := true))
  }

  /** First-match search in the list is lookup in the map. */
  lemma Lookup(d: Directory, reg: Registry, dn: string)
    requires Represents(d, reg)
    ensures var i := IndexOf(reg, dn);
            if dn in d.records then i < |reg| && d.records[dn] == reg[i] else i == |reg|
  {
    if dn in d.records {
      var k :| 0 <= k < |d.order| && d.order[k] == dn;
      assert reg[k].dn == dn;
    }
  }

  /** Changing one record in place, other than its dn. */
  lemma UpdateRefines(d: Directory, reg: Registry, dn: string, f: Record -> Record)
    requires Distinct(reg) && Represents(d, reg) && forall r :: f(r).dn == r.dn
    ensures var i := IndexOf(reg, dn);
            Represents(Update(d, dn, f), if i < |reg| then reg[i := f(reg[i])] else reg)
  {
    hide IndexOf;
    Lookup(d, reg, dn);
    var i := IndexOf(reg, dn);
    if i < |reg| {
      var next, after := reg[i := f(reg[i])], Update(d, dn, f);
      forall k | 0 <= k < |next|
        ensures next[k].dn in after.records && after.records[next[k].dn] == next[k]
      {
        assert k != i ==> reg[k].dn != reg[i].dn;
      }
      assert after.order == d.order && after.records.Keys == d.records.Keys;
    }
  }

  lemma LoginRefines(d: Directory, reg: Registry, dn: string, agent: string)
    requires Distinct(reg) && Represents(d, reg)
    ensures Represents(ApplyToDirectory(d, Login(dn, agent)), LogIn(reg, dn, agent))
  {
    Lookup(d, reg, dn);
    if dn in d.records {
      UpdateRefines(d, reg, dn, (r: Record) => r.(agent := agent, polling := false, status := Ready));
    } else {
      var order := d.order + [dn];
      assert order[|d.order|] == dn && forall k | 0 <= k < |d.order| :: order[k] == d.order[k];
    }
  }

  lemma {:induction false} WithoutAt(order: seq<string>, i: nat)
    requires i < |order| && forall k | 0 <= k < i :: order[k] != order[i]
    ensures Without(order, order[i]) == order[..i] + order[i + 1..]
  {
    if i == 0 {
    } else {
      WithoutAt(order[1..], i - 1);
      assert order[..i] == [order[0]] + order[1..][..i - 1];
    }
  }

  lemma LogoutRefines(d: Directory, reg: Registry, dn: string)
    requires Distinct(reg) && Represents(d, reg)
    ensures Represents(ApplyToDirectory(d, Logout(dn)), LogOut(reg, dn))
  {
    Lookup(d, reg, dn);
    var i := IndexOf(reg, dn);
    if i < |reg| {
      WithoutAt(d.order, i);
      RemovalRefines(d, reg, i);
    }
  }

  /** Removing the agent at position `i`, from the list, the order and the map. */
  lemma RemovalRefines(d: Directory, reg: Registry, i: nat)
    requires Distinct(reg) && Represents(d, reg) && i < |reg|
    ensures Represents(Directory(d.order[..i] + d.order[i + 1..], d.records - {reg[i].dn}), reg[..i] + reg[i + 1..])
  {
    var next := reg[..i] + reg[i + 1..];
    var order, records := d.order[..i] + d.order[i + 1..], d.records - {reg[i].dn};
    forall k | 0 <= k < |next|
      ensures order[k] == next[k].dn && next[k].dn in records && records[next[k].dn] == next[k]
    {
      var was := if k < i then k else k + 1;
      assert next[k] == reg[was] && order[k] == d.order[was];
      assert reg[was].dn != reg[i].dn;
    }
    forall dn <- records
      ensures dn in order
    {
      var was :| 0 <= was < |d.order| && d.order[was] == dn;
      assert was != i;
      assert order[if was < i then was else was - 1] == dn;
    }
  }

  /** After a logout no agent has that dn. */
  lemma LogoutRemoves(reg: Registry, dn: string)
    requires Distinct(reg)
    ensures forall r <- LogOut(reg, dn) :: r.dn != dn
  {
  }

  lemma {:induction false} FirstInIs(order: seq<string>, reg: Registry, records: map<string, Record>)
    requires |order| == |reg| && forall i | 0 <= i < |reg| :: order[i] == reg[i].dn
    requires forall i | 0 <= i < |reg| :: reg[i].dn in records && records[reg[i].dn] == reg[i]
    ensures var i := FirstAvailable(reg);
            FirstIn(order, records) == if i < |reg| then Some(reg[i].dn) else None
  {
    if reg == [] {
    } else {
      FirstInIs(order[1..], reg[1..], records);
    }
  }

  lemma PollRefines(d: Directory, reg: Registry)
    requires Distinct(reg) && Represents(d, reg)
    ensures Represents(ApplyToDirectory(d, Poll), PollAgents(reg).0)
  {
    hide IndexOf, FirstAvailable, AllPolled, Cleared;
    var searched := Directory(d.order, SearchedRecords(d.records));
    SearchedRefines(d, reg);
    FirstInIs(d.order, Searched(reg), searched.records);
    var i := FirstAvailable(Searched(reg));
    if i < |reg| {
      IndexOfSelf(Searched(reg), i);
      UpdateRefines(searched, Searched(reg), Searched(reg)[i].dn, (r: Record) => r.(polling := true));
    }
  }

  lemma SearchedRefines(d: Directory, reg: Registry)
    requires Represents(d, reg)
    ensures Represents(Directory(d.order, SearchedRecords(d.records)), Searched(reg))
  {
    assert AllPolled(reg) ==> forall dn <- d.records :: d.records[dn].polling by {
      forall dn <- d.records
        ensures AllPolled(reg) ==> d.records[dn].polling
      {
        Lookup(d, reg, dn);
      }
    }
  }

  /**
   The list of agents, searched from the front, simulates the directory: every step does to the
   one what it does to the other, and keeps the dns distinct.
   */
  lemma StepRefines(d: Directory, reg: Registry, e: Event)
    requires Distinct(reg) && Represents(d, reg)
    ensures Distinct(Apply(reg, e))
    ensures Represents(ApplyToDirectory(d, e), Apply(reg, e))
  {
    hide Represents, Distinct, IndexOf, PollAgents;
    StepKeepsDistinct(reg, e);
    match e
    case Login(dn, agent) => LoginRefines(d, reg, dn, agent);
    case Logout(dn) => LogoutRefines(d, reg, dn);
    case SetReady(dn) => UpdateRefines(d, reg, dn, (r: Record) => r.(status := Ready));
    case SetNotReady(dn) => UpdateRefines(d, reg, dn, (r: Record) => r.(status := NotReady));
    case SetLeave(dn) => UpdateRefines(d, reg, dn, (r: Record) => r.(status := Leave));
    case Create(dn, uuid) => UpdateRefines(d, reg, dn, (r: Record) => r.(uuid := uuid));
    case Hangup(dn) => HangupRefines(d, reg, dn);
    case Poll => PollRefines(d, reg);
  }

  lemma HangupRefines(d: Directory, reg: Registry, dn: string)
    requires Distinct(reg) && Represents(d, reg)
    ensures Represents(ApplyToDirectory(d, Hangup(dn)), Apply(reg, Hangup(dn)))
  {
    hide Represents, IndexOf;
    UpdateRefines(d, reg, dn, (r: Record) => r.(status := Ready, uuid := ""));
    var i := IndexOf(reg, dn);
    if i < |reg| {
      var once := WithStatus(reg, dn, Ready);
      assert Distinct(once) && once[i].dn == dn;
      IndexOfSelf(once, i);
      assert Apply(reg, Hangup(dn)) == reg[i := reg[i].(status := Ready, uuid := "")];
    }
  }

  function RunDirectory(d: Directory, events: seq<Event>): Directory {
    if events == [] then d else ApplyToDirectory(RunDirectory(d, events[..|events| - 1]), events[|events| - 1])
  }

  lemma {:induction false} RunRefines(d: Directory, reg: Registry, events: seq<Event>)
    requires Distinct(reg) && Represents(d, reg)
    ensures Distinct(Run(reg, events))
    ensures Represents(RunDirectory(d, events), Run(reg, events))
  {
    if events == [] {
    } else {
      RunRefines(d, reg, events[..|events| - 1]);
      StepRefines(RunDirectory(d, events[..|events| - 1]), Run(reg, events[..|events| - 1]), events[|events| - 1]);
    }
  }
}
