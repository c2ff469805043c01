/**
 The service's shared list of agents, as objects changed in place by requests, events and
 polls. Each method is proved against what `Dispatch` says the step does to the list.
 */
module CallServices {
  import opened Dispatch
  import opened DispatchRegistry

  class Agent {
    var dn: string
    var agent: string
    var uuid: string
    var polling: bool
    var status: Status

    ghost function View(): Record
      reads this
    {
      Record(dn, agent, uuid, polling, status)
    }

    constructor ()
      ensures View() == Record("", "", "", false, Unknown)
    {
      dn, agent, uuid, polling, status := "", "", "", false, Unknown;
    }
  }

  ghost function Views(agents: seq<Agent>): (reg: Registry)
    reads agents
    ensures |reg| == |agents|
    ensures forall i | 0 <= i < |agents| :: reg[i] == agents[i].View()
  {
    if agents == [] then [] else [agents[0].View()] + Views(agents[1..])
  }

  class CallService {
    var agents: seq<Agent>

    /** No agent object is in the list twice, and no two have the same dn. */
    ghost predicate Valid()
      reads this, agents
    {
      && (forall i, j | 0 <= i < j < |agents| :: agents[i] != agents[j])
      && Distinct(View())
    }

    ghost function View(): Registry
      reads this, agents
    {
      Views(agents)
    }

    constructor ()
      ensures Valid() && View() == []
    {
      agents := [];
    }

    /** `std::find_if` by dn. */
    method Find(dn: string) returns (i: nat)
      ensures i == IndexOf(View(), dn)
    {
      i := 0;
      while i < |agents| && agents[i].dn != dn
        invariant i <= |agents|
        invariant forall k | 0 <= k < i :: agents[k].dn != dn
      {
        i := i + 1;
      }
      FirstMatch(View(), dn, i);
    }

    /** A new agent joins ready and unpolled; one that is in the list becomes so, keeping its call. */
    method Login(dn: string, agent: string)
      requires Valid()
      modifies this, agents
      ensures Valid()
      ensures View() == Apply(old(View()), Event.Login(dn, agent))
      ensures var i := IndexOf(old(View()), dn);
              View() == if i < |old(View())|
                        then old(View())[i := old(View())[i].(agent := agent, polling := false, status := Ready)]
                        else old(View()) + [Record(dn, agent, "", false, Ready)]
    {
      hide Views, Distinct, IndexOf;
      StepKeepsDistinct(View(), Event.Login(dn, agent));
      var newcomer := Newcomer(dn, agent);
      assert View() == old(View()) && newcomer !in agents;
      var i := Find(dn);
      if i < |agents| {
        Refresh(agents[i], i, agent);
      } else {
        agents := agents + [newcomer];
        assert View() == old(View()) + [newcomer.View()];
      }
    }

    static method Newcomer(dn: string, agent: string) returns (p: Agent)
      ensures fresh(p) && p.View() == Record(dn, agent, "", false, Ready)
    {
      p := new Agent();
      p.dn, p.agent := dn, agent;
      p.polling, p.status := false, Ready;
    }

    /** Makes an agent of the list ready and unpolled, under a new name. */
    method Refresh(p: Agent, ghost i: nat, agent: string)
      requires Valid() && i < |agents| && p == agents[i]
      modifies p
      ensures View() == old(View())[i := old(View())[i].(agent := agent, polling := false, status := Ready)]
    {
      hide Views, Distinct;
      p.agent, p.polling, p.status := agent, false, Ready;
    }

    /** The agent leaves the list; the answer says whether there was one. */
    method Logout(dn: string) returns (found: bool)
      requires Valid()
      modifies this
      ensures Valid()
      ensures found <==> IndexOf(old(View()), dn) < |old(View())|
      ensures View() == Apply(old(View()), Event.Logout(dn))
      ensures found ==> var i := IndexOf(old(View()), dn); View() == old(View())[..i] + old(View())[i + 1..]
    {
      hide Views, Distinct, IndexOf;
      StepKeepsDistinct(View(), Event.Logout(dn));
      var i := Find(dn);
      found := i < |agents|;
      if found {
        agents := agents[..i] + agents[i + 1..];
      }
      assert View() == LogOut(old(View()), dn);
    }

    /** What the ready, not-ready and leave requests share. */
    method ChangeStatus(dn: string, status: Status) returns (found: bool)
      requires Valid()
      modifies agents
      ensures Valid()
      ensures found <==> IndexOf(old(View()), dn) < |old(View())|
      ensures View() == WithStatus(old(View()), dn, status)
    {
      hide Views, IndexOf;
      var i := Find(dn);
      found := i < |agents|;
      if found {
        var p := agents[i];
        p.status := status;
      }
      assert View() == WithStatus(old(View()), dn, status);
    }

    method SetReady(dn: string) returns (found: bool)
      requires Valid()
      modifies agents
      ensures Valid()
      ensures found <==> IndexOf(old(View()), dn) < |old(View())|
      ensures View() == Apply(old(View()), Event.SetReady(dn))
      ensures found ==>
                var i := IndexOf(old(View()), dn);
                View() == old(View())[i := old(View())[i].(status := Ready)]
    {
      found := ChangeStatus(dn, Ready);
    }

    method SetNotReady(dn: string) returns (found: bool)
      requires Valid()
      modifies agents
      ensures Valid()
      ensures found <==> IndexOf(old(View()), dn) < |old(View())|
      ensures View() == Apply(old(View()), Event.SetNotReady(dn))
      ensures found ==>
                var i := IndexOf(old(View()), dn);
                View() == old(View())[i := old(View())[i].(status := NotReady)]
    {
      found := ChangeStatus(dn, NotReady);
    }

    method SetLeave(dn: string) returns (found: bool)
      requires Valid()
      modifies agents
      ensures Valid()
      ensures found <==> IndexOf(old(View()), dn) < |old(View())|
      ensures View() == Apply(old(View()), Event.SetLeave(dn))
      ensures found ==>
                var i := IndexOf(old(View()), dn);
                View() == old(View())[i := old(View())[i].(status := Leave)]
    {
      found := ChangeStatus(dn, Leave);
    }

    /** CHANNEL_CREATE: the called agent, if there is one, is in the new call. */
    method ChannelCreate(destination: string, uuid: string)
      requires Valid()
      modifies agents
      ensures Valid()
      ensures View() == Apply(old(View()), Create(destination, uuid))
      ensures var i := IndexOf(old(View()), destination);
              View() == if i < |old(View())| then old(View())[i := old(View())[i].(uuid := uuid)] else old(View())
    {
      hide Views, Distinct, IndexOf;
      StepKeepsDistinct(View(), Create(destination, uuid));
      var i := Find(destination);
      if i < |agents| {
        var p := agents[i];
        p.uuid := uuid;
      }
      assert View() == WithUuid(old(View()), destination, uuid);
    }

    /** CHANNEL_HANGUP_COMPLETE: the called agent, if there is one, is ready and in no call. */
    method ChannelHangupComplete(destination: string)
      requires Valid()
      modifies agents
      ensures Valid()
      ensures View() == Apply(old(View()), Hangup(destination))
      ensures var i := IndexOf(old(View()), destination);
              View() == if i < |old(View())| then old(View())[i := old(View())[i].(status := Ready, uuid := "")]
                        else old(View())
    {
      hide Views, Distinct;
      StepKeepsDistinct(View(), Hangup(destination));
      HangupAtOnce(View(), destination);
      for i := 0 to |agents|
        invariant View() == old(View()) && agents == old(agents)
        invariant forall k | 0 <= k < i :: agents[k].dn != destination
      {
        if agents[i].dn == destination {
          var p := agents[i];
          p.status, p.uuid := Ready, "";
          FirstMatch(old(View()), destination, i);
          assert View() == old(View())[i := old(View())[i].(status := Ready, uuid := "")];
          return;
        }
      }
      FirstMatch(View(), destination, |agents|);
    }

    /** Takes back the turn that an agent was given. */
    method ResetAgent(p: Agent)
      requires Valid()
      modifies p
      ensures Valid()
      ensures |View()| == |old(View())|
      ensures forall k | 0 <= k < |agents| ::
                View()[k] == if agents[k] == p then old(View())[k].(polling := false) else old(View())[k]
    {
      hide Views;
      p.polling := false;
    }

    /**
     The next agent in turn, or null. If every flag is set they are all cleared first; then the
     first ready agent whose flag is clear is handed out, and its flag set.
     */
    method GetAvailableAgent() returns (found: Agent?)
      requires Valid()
      modifies agents
      ensures Valid()
      ensures View() == Apply(old(View()), Poll)
      ensures var handed := PollAgents(old(View())).1;
              if handed.Some? then handed.value < |agents| && found == agents[handed.value] else found == null
    {
      hide Views, Searched, FirstAvailable, Distinct;
      StepKeepsDistinct(View(), Poll);
      ClearIfAllPolled();
      label Clear:
      for i := 0 to |agents|
        invariant View() == old@Clear(View()) && agents == old(agents)
        invariant forall k | 0 <= k < i :: !Available(View()[k])
      {
        if !agents[i].polling && agents[i].status == Ready {
          var p := agents[i];
          p.polling := true;
          FirstAvailableIs(Searched(old(View())), i);
          assert View() == Searched(old(View()))[i := Searched(old(View()))[i].(polling := true)];
          return p;
        }
      }
      FirstAvailableIs(View(), |agents|);
      return null;
    }

    /** The first half of the poll: a search for a clear flag, and a sweep if there is none. */
    method ClearIfAllPolled()
      requires Valid()
      modifies agents
      ensures Valid()
      ensures View() == Searched(old(View()))
    {
      hide Views;
      var it := 0;
      while it < |agents| && agents[it].polling
        invariant it <= |agents|
        invariant forall k | 0 <= k < it :: agents[k].polling
      {
        it := it + 1;
      }
      if it == |agents| {
        for i := 0 to |agents|
          invariant agents == old(agents)
          invariant forall k | 0 <= k < |agents| ::
              agents[k].View() == old(agents[k].View()).(polling := if k < i then false else old(agents[k].polling))
        {
          agents[i].polling := false;
        }
        assert View() == Cleared(old(View()));
      } else {
        assert !old(View())[it].polling;
      }
    }
  }

  lemma HangupAtOnce(reg: Registry, dn: string)
    ensures var i := IndexOf(reg, dn);
            Apply(reg, Hangup(dn)) == if i < |reg| then reg[i := reg[i].(status := Ready, uuid := "")] else reg
  {
    var i := IndexOf(reg, dn);
    if i < |reg| {
      FirstMatch(WithStatus(reg, dn, Ready), dn, i);
    }
  }

  lemma FirstMatch(reg: Registry, dn: string, i: nat)
    requires i <= |reg| && (forall k | 0 <= k < i :: reg[k].dn != dn)
    requires i < |reg| ==> reg[i].dn == dn
    ensures IndexOf(reg, dn) == i
  {
  }
}
