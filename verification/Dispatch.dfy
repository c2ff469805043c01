/**
 The agent registry and the automatic call distribution as values: what each request, event
 and poll does to the list of agents. One request, event or poll is one atomic step.
 */
module Dispatch {
  import opened Wrappers

  datatype Status = Unknown | LoggedIn | LoggedOut | NotReady | Ready | Busy | Idle | Leave

  datatype Record = Record(dn: string, agent: string, uuid: string, polling: bool, status: Status)

  type Registry = seq<Record>

  datatype Event =
    | Login(dn: string, agent: string)
    | Logout(dn: string)
    | SetReady(dn: string)
    | SetNotReady(dn: string)
    | SetLeave(dn: string)
    | Create(dn: string, uuid: string)
    | Hangup(dn: string)
    | Poll

  /** The first agent with that dn, or the end of the list. */
  function IndexOf(reg: Registry, dn: string): (i: nat)
    ensures i <= |reg|
    ensures i < |reg| ==> reg[i].dn == dn
    ensures forall k | 0 <= k < i :: reg[k].dn != dn
  {
    if reg == [] || reg[0].dn == dn then 0 else 1 + IndexOf(reg[1..], dn)
  }

  // ----- Requests and events -----

  function LogIn(reg: Registry, dn: string, agent: string): Registry {
    var i := IndexOf(reg, dn);
    if i < |reg| then reg[i := reg[i].(agent := agent, polling := false, status := Ready)]
    else reg + [Record(dn, agent, "", false, Ready)]
  }

  function LogOut(reg: Registry, dn: string): Registry {
    var i := IndexOf(reg, dn);
    if i < |reg| then reg[..i] + reg[i + 1..] else reg
  }

  function WithStatus(reg: Registry, dn: string, status: Status): Registry {
    var i := IndexOf(reg, dn);
    if i < |reg| then reg[i := reg[i].(status := status)] else reg
  }

  function WithUuid(reg: Registry, dn: string, uuid: string): Registry {
    var i := IndexOf(reg, dn);
    if i < |reg| then reg[i := reg[i].(uuid := uuid)] else reg
  }

  // ----- Polling -----

  predicate AllPolled(reg: Registry) {
    forall i | 0 <= i < |reg| :: reg[i].polling
  }

  function Cleared(reg: Registry): Registry {
    seq(|reg|, i requires 0 <= i < |reg| => reg[i].(polling := false))
  }

  predicate Available(r: Record) {
    !r.polling && r.status == Ready
  }

  /** The first agent that is ready and not polled, or the end of the list. */
  function FirstAvailable(reg: Registry): (i: nat)
    ensures i <= |reg|
    ensures i < |reg| ==> Available(reg[i])
    ensures forall k | 0 <= k < i :: !Available(reg[k])
  {
    if reg == [] || Available(reg[0]) then 0 else 1 + FirstAvailable(reg[1..])
  }

  lemma FirstAvailableIs(reg: Registry, i: nat)
    requires i <= |reg| && (forall k | 0 <= k < i :: !Available(reg[k]))
    requires i < |reg| ==> Available(reg[i])
    ensures FirstAvailable(reg) == i
  {
  }

  /** The list that a poll searches: with every flag cleared, if every flag was set. */
  function Searched(reg: Registry): Registry {
    if AllPolled(reg) then Cleared(reg) else reg
  }

  /** `get_available_agent`: the new list, and the position of the agent handed out. */
  function PollAgents(reg: Registry): (Registry, Option<nat>) {
    var searched := Searched(reg);
    var i := FirstAvailable(searched);
    if i < |searched| then (searched[i := searched[i].(polling := true)], Some(i)) else (searched, None)
  }

  // ----- Runs -----

  function Apply(reg: Registry, e: Event): Registry {
    match e
    case Login(dn, agent) => LogIn(reg, dn, agent)
    case Logout(dn) => LogOut(reg, dn)
    case SetReady(dn) => WithStatus(reg, dn, Ready)
    case SetNotReady(dn) => WithStatus(reg, dn, NotReady)
    case SetLeave(dn) => WithStatus(reg, dn, Leave)
    case Create(dn, uuid) => WithUuid(reg, dn, uuid)
    case Hangup(dn) => WithUuid(WithStatus(reg, dn, Ready), dn, "")
    case Poll => PollAgents(reg).0
  }

  function Run(reg: Registry, events: seq<Event>): Registry {
    if events == [] then reg else Apply(Run(reg, events[..|events| - 1]), events[|events| - 1])
  }
}
