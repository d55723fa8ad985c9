/** The gateway's agent registry: announcements lease an agent for 60 seconds
    (`AgentManager`). */
module AgentLeases {

  const AGENT_TIMEOUT_SECONDS: nat := 60

  type Addr = string
  type Id = string

  datatype AgentInfo = AgentInfo(address: Addr, agentId: Id, lastAnnounce: nat)

  type Agents = map<Id, AgentInfo>

  datatype Lookup = Found(agent: AgentInfo) | NotFound

  /** Unsigned 64-bit difference: a clock that went back makes it huge. */
  function Elapsed(now: nat, since: nat): int {
    if now >= since then now - since else now - since + 0x1_0000_0000_0000_0000
  }

  predicate Expired(a: AgentInfo, now: nat) {
    Elapsed(now, a.lastAnnounce) > AGENT_TIMEOUT_SECONDS
  }

  // ----- What the operations do to the registry

  /** A known id only has its lease renewed: the address stays the first one seen. */
  function Announced(agents: Agents, id: Id, addr: Addr, now: nat): Agents {
    if id in agents then agents[id := agents[id].(lastAnnounce := now)]
    else agents[id := AgentInfo(addr, id, now)]
  }

  function Cleaned(agents: Agents, now: nat): Agents {
    map id | id in agents && !Expired(agents[id], now) :: agents[id]
  }

  function LookedUp(agents: Agents, id: Id, now: nat): Lookup {
    if id in agents && !Expired(agents[id], now) then Found(agents[id]) else NotFound
  }

  function LiveIds(agents: Agents, now: nat): set<Id> {
    set id | id in agents && !Expired(agents[id], now)
  }

  function Active(agents: Agents, now: nat): set<AgentInfo> {
    set id | id in agents && !Expired(agents[id], now) :: agents[id]
  }

  /** The list when every record but those under the ids in `todo` has been looked at. */
  ghost predicate ListedSoFar(agents: Agents, now: nat, todo: set<Id>, active: seq<AgentInfo>) {
    && (forall a :: a in active <==> exists id :: id in LiveIds(agents, now) - todo && a == agents[id])
    && |active| == |LiveIds(agents, now) - todo|
  }

  lemma ListedOne(agents: Agents, now: nat, todo: set<Id>, active: seq<AgentInfo>, id: Id)
    requires ListedSoFar(agents, now, todo, active) && id in todo && id in agents
    ensures Expired(agents[id], now) ==> ListedSoFar(agents, now, todo - {id}, active)
    ensures !Expired(agents[id], now) ==> ListedSoFar(agents, now, todo - {id}, active + [agents[id]])
  {
    hide Expired;
    var live, more := LiveIds(agents, now) - todo, LiveIds(agents, now) - (todo - {id});
    assert more == if Expired(agents[id], now) then live else live + {id};
    forall a | a in active + [agents[id]] && !Expired(agents[id], now)
      ensures exists k :: k in more && a == agents[k]
    {
      if a != agents[id] {
        var k :| k in live && a == agents[k];
        assert k in more;
      }
    }
  }

  class AgentManager {
    /** The hash of an address in decimal. */
    const idOf: Addr -> Id
    var agents: Agents

    constructor (idOf: Addr -> Id)
      ensures this.idOf == idOf && agents == map[]
    {
      this.idOf := idOf;
      agents := map[];
    }

    method AddAgent(addr: Addr, now: nat)
      modifies this
      ensures agents == Announced(old(agents), idOf(addr), addr, now)
    {
      var id := idOf(addr);
      if id in agents {
        agents := agents[id := agents[id].(lastAnnounce := now)];
      } else {
        agents := agents[id := AgentInfo(addr, id, now)];
      }
    }

    method GetAgentById(id: Id, now: nat) returns (r: Lookup)
      ensures r == LookedUp(agents, id, now)
    {
      if id in agents {
        if Elapsed(now, agents[id].lastAnnounce) > AGENT_TIMEOUT_SECONDS {
          return NotFound;
        }
        return Found(agents[id]);
      }
      return NotFound;
    }

    method GetActiveAgents(now: nat) returns (active: seq<AgentInfo>)
      ensures (set a | a in active) == Active(agents, now)
      ensures |active| == |LiveIds(agents, now)|
    {
      active := [];
      var todo := agents.Keys;
      while todo != {}
        invariant todo <= agents.Keys
        invariant ListedSoFar(agents, now, todo, active)
        decreases |todo|
      {
        hide ListedSoFar, Expired;
        var id :| id in todo;
        ListedOne(agents, now, todo, active, id);
        todo := todo - {id};
        if !Expired(agents[id], now) {
          active := active + [agents[id]];
        }
      }
      assert LiveIds(agents, now) - todo == LiveIds(agents, now);
    }

    method CleanupExpiredAgents(now: nat)
      modifies this
      ensures agents == Cleaned(old(agents), now)
    {
      var todo := agents.Keys;
      while todo != {}
        invariant todo <= agents.Keys <= old(agents).Keys
        invariant forall id :: id in old(agents) ==>
          (id in agents <==> id in todo || !Expired(old(agents)[id], now))
        invariant forall id :: id in agents ==> agents[id] == old(agents)[id]
        decreases |todo|
      {
        var id :| id in todo;
        todo := todo - {id};
        if Elapsed(now, agents[id].lastAnnounce) > AGENT_TIMEOUT_SECONDS {
          agents := agents - {id};
        }
      }
    }
  }

  // ----- Runs

  datatype Event = Announce(addr: Addr, at: nat) | Cleanup(at: nat)

  function Handle(idOf: Addr -> Id, agents: Agents, e: Event): Agents {
    match e
    case Announce(addr, at) => Announced(agents, idOf(addr), addr, at)
    case Cleanup(at) => Cleaned(agents, at)
  }

  function Run(idOf: Addr -> Id, es: seq<Event>): Agents {
    if es == [] then map[] else Handle(idOf, Run(idOf, es[..|es| - 1]), es[|es| - 1])
  }

  /** The clock never goes back, and has not passed `now`. */
  ghost predicate Clocked(es: seq<Event>, now: nat) {
    && (forall i, j :: 0 <= i < j < |es| ==> es[i].at <= es[j].at)
    && forall i :: 0 <= i < |es| ==> es[i].at <= now
  }

  ghost predicate CollisionFree(idOf: Addr -> Id, es: seq<Event>) {
    forall i, j :: 0 <= i < |es| && 0 <= j < |es| && es[i].Announce? && es[j].Announce? ==>
      idOf(es[i].addr) == idOf(es[j].addr) ==> es[i].addr == es[j].addr
  }

  /** The newest announcement of an address, or -1. */
  function LastAnnounced(addr: Addr, es: seq<Event>): int {
    if es == [] then -1
    else
      var e := es[|es| - 1];
      if e.Announce? && e.addr == addr then e.at else LastAnnounced(addr, es[..|es| - 1])
  }

  /** Announced at most 60 seconds before `now`. */
  predicate Leased(addr: Addr, es: seq<Event>, now: nat) {
    LastAnnounced(addr, es) >= 0 && now - LastAnnounced(addr, es) <= AGENT_TIMEOUT_SECONDS
  }

  /** The specification of the registry: what lookups at `now` may see. An expired record may still
      be there or have been cleaned up. */
  ghost predicate Tracks(idOf: Addr -> Id, agents: Agents, es: seq<Event>, now: nat) {
    && (forall id :: id in agents ==>
          var a := agents[id];
          a.agentId == id == idOf(a.address) && a.lastAnnounce == LastAnnounced(a.address, es))
    && (forall addr :: Leased(addr, es, now) ==> idOf(addr) in agents && agents[idOf(addr)].address == addr)
  }

  lemma {:induction false} WasAnnounced(addr: Addr, es: seq<Event>)
    requires LastAnnounced(addr, es) >= 0
    ensures exists i :: 0 <= i < |es| && es[i] == Announce(addr, LastAnnounced(addr, es))
    decreases |es|
  {
    var n := |es| - 1;
    if !(es[n].Announce? && es[n].addr == addr) {
      WasAnnounced(addr, es[..n]);
      var i :| 0 <= i < n && es[..n][i] == Announce(addr, LastAnnounced(addr, es));
      assert es[i] == es[..n][i];
    }
  }

  lemma {:induction false} AnnouncedInTime(addr: Addr, es: seq<Event>, now: nat)
    requires Clocked(es, now)
    ensures -1 <= LastAnnounced(addr, es) <= now
    decreases |es|
  {
    if es != [] {
      AnnouncedInTime(addr, es[..|es| - 1], now);
    }
  }

  lemma TracksLater(idOf: Addr -> Id, agents: Agents, es: seq<Event>, now: nat, later: nat)
    requires Tracks(idOf, agents, es, now) && now <= later
    ensures Tracks(idOf, agents, es, later)
  {
    forall addr | Leased(addr, es, later) ensures Leased(addr, es, now) {}
  }

  /** A record under the id of an announced address is that address's record. */
  lemma SameAddress(idOf: Addr -> Id, agents: Agents, es: seq<Event>, addr: Addr, now: nat)
    requires Tracks(idOf, agents, es, now) && idOf(addr) in agents
    requires CollisionFree(idOf, es + [Announce(addr, now)])
    ensures agents[idOf(addr)].address == addr
  {
    var a := agents[idOf(addr)];
    var es' := es + [Announce(addr, now)];
    WasAnnounced(a.address, es);
    var i :| 0 <= i < |es| && es[i] == Announce(a.address, LastAnnounced(a.address, es));
    assert es'[i] == es[i] && es'[|es|] == Announce(addr, now);
  }

  lemma AnnounceTracks(idOf: Addr -> Id, agents: Agents, es: seq<Event>, addr: Addr, now: nat)
    requires Clocked(es, now) && Tracks(idOf, agents, es, now)
    requires CollisionFree(idOf, es + [Announce(addr, now)])
    ensures Tracks(idOf, Announced(agents, idOf(addr), addr, now), es + [Announce(addr, now)], now)
  {
    var es' := es + [Announce(addr, now)];
    assert es'[..|es|] == es;
    var id := idOf(addr);
    if id in agents {
      SameAddress(idOf, agents, es, addr, now);
    }
    forall other | other != addr && Leased(other, es', now)
      ensures idOf(other) in agents && agents[idOf(other)].address == other && idOf(other) != id
    {
      assert Leased(other, es, now);
      WasAnnounced(other, es);
      var i :| 0 <= i < |es| && es[i] == Announce(other, LastAnnounced(other, es));
      assert es'[i] == es[i] && es'[|es|] == Announce(addr, now);
    }
    forall k | k in Announced(agents, id, addr, now)
      ensures var a := Announced(agents, id, addr, now)[k];
        a.agentId == k == idOf(a.address) && a.lastAnnounce == LastAnnounced(a.address, es')
    {
    }
  }

  lemma CleanupTracks(idOf: Addr -> Id, agents: Agents, es: seq<Event>, now: nat)
    requires Clocked(es, now) && Tracks(idOf, agents, es, now)
    ensures Tracks(idOf, Cleaned(agents, now), es + [Cleanup(now)], now)
  {
    var es' := es + [Cleanup(now)];
    assert es'[..|es|] == es;
    assert forall addr :: LastAnnounced(addr, es') == LastAnnounced(addr, es);
    forall addr | Leased(addr, es', now) ensures idOf(addr) in Cleaned(agents, now) {
      assert Leased(addr, es, now);
      AnnouncedInTime(addr, es, now);
    }
  }

  lemma {:induction false} RunTracks(idOf: Addr -> Id, es: seq<Event>, now: nat)
    requires Clocked(es, now) && CollisionFree(idOf, es)
    ensures Tracks(idOf, Run(idOf, es), es, now)
    decreases |es|
  {
    if es != [] {
      var n := |es| - 1;
      var before, e := es[..n], es[n];
      assert es == before + [e];
      RunTracks(idOf, before, e.at);
      match e
      case Announce(addr, at) => AnnounceTracks(idOf, Run(idOf, before), before, addr, at);
      case Cleanup(at) => CleanupTracks(idOf, Run(idOf, before), before, at);
      TracksLater(idOf, Run(idOf, es), es, e.at, now);
    }
  }

  /** After every interleaving of announcements and cleanups, the active agents are exactly the
      addresses announced within the last 60 seconds, each under its id with its newest
      announcement; and a lookup finds an id exactly when it is that of an active agent. */
  lemma ActiveExactlyLeased(idOf: Addr -> Id, es: seq<Event>, now: nat)
    requires Clocked(es, now) && CollisionFree(idOf, es)
    ensures forall a: AgentInfo :: a in Active(Run(idOf, es), now) <==>
      Leased(a.address, es, now) && a == AgentInfo(a.address, idOf(a.address), LastAnnounced(a.address, es))
    ensures forall id: Id, a: AgentInfo :: LookedUp(Run(idOf, es), id, now) == Found(a) <==>
      a in Active(Run(idOf, es), now) && a.agentId == id
  {
    var agents := Run(idOf, es);
    RunTracks(idOf, es, now);
    forall id | id in agents ensures Expired(agents[id], now) <==> !Leased(agents[id].address, es, now) {
      AnnouncedInTime(agents[id].address, es, now);
    }
    forall a: AgentInfo |
      Leased(a.address, es, now) && a == AgentInfo(a.address, idOf(a.address), LastAnnounced(a.address, es))
      ensures a in Active(agents, now)
    {
      assert agents[idOf(a.address)] == a;
    }
  }

  lemma {:induction false} NotYetAnnounced(idOf: Addr -> Id, es: seq<Event>, id: Id)
    requires forall j :: 0 <= j < |es| && es[j].Announce? ==> idOf(es[j].addr) != id
    ensures id !in Run(idOf, es)
    decreases |es|
  {
    if es != [] {
      NotYetAnnounced(idOf, es[..|es| - 1], id);
    }
  }

  /** As long as nothing is cleaned up, an id keeps the address that was first announced under it,
      even when others with the same id are announced later. */
  lemma {:induction false} FirstAddressStays(idOf: Addr -> Id, es: seq<Event>, i: nat)
    requires i < |es| && forall j :: 0 <= j < |es| ==> es[j].Announce?
    requires forall j :: 0 <= j < i ==> idOf(es[j].addr) != idOf(es[i].addr)
    ensures idOf(es[i].addr) in Run(idOf, es) && Run(idOf, es)[idOf(es[i].addr)].address == es[i].addr
    decreases |es|
  {
    var n := |es| - 1;
    if i < n {
      FirstAddressStays(idOf, es[..n], i);
    } else {
      NotYetAnnounced(idOf, es[..n], idOf(es[i].addr));
    }
  }

  /** The time that has passed is an unsigned difference: after the clock was set back, an agent is
      gone until the clock has come within 60 seconds of going round to it. */
  lemma ClockSetBack(a: AgentInfo, now: nat)
    requires now < a.lastAnnounce < 0x1_0000_0000_0000_0000
    ensures Expired(a, now) <==> a.lastAnnounce - now < 0x1_0000_0000_0000_0000 - 60
  {
  }

  /** The announcements among the events. */
  function Announcements(es: seq<Event>): seq<Event> {
    if es == [] then []
    else Announcements(es[..|es| - 1]) + (if es[|es| - 1].Announce? then [es[|es| - 1]] else [])
  }

  lemma {:induction false} CleanupsDoNotAnnounce(addr: Addr, es: seq<Event>)
    ensures LastAnnounced(addr, es) == LastAnnounced(addr, Announcements(es))
    decreases |es|
  {
    if es != [] {
      var n := |es| - 1;
      CleanupsDoNotAnnounce(addr, es[..n]);
      var all := Announcements(es);
      if es[n].Announce? {
        assert all[..|all| - 1] == Announcements(es[..n]);
      } else {
        assert all == Announcements(es[..n]);
      }
    }
  }

  /** Adding or removing cleanups changes no answer. */
  lemma CleanupsChangeNothing(idOf: Addr -> Id, es: seq<Event>, es': seq<Event>, now: nat)
    requires Clocked(es, now) && CollisionFree(idOf, es) && Clocked(es', now) && CollisionFree(idOf, es')
    requires Announcements(es) == Announcements(es')
    ensures Active(Run(idOf, es), now) == Active(Run(idOf, es'), now)
    ensures forall id :: LookedUp(Run(idOf, es), id, now) == LookedUp(Run(idOf, es'), id, now)
  {
    ActiveExactlyLeased(idOf, es, now);
    ActiveExactlyLeased(idOf, es', now);
    forall addr ensures LastAnnounced(addr, es) == LastAnnounced(addr, es') {
      CleanupsDoNotAnnounce(addr, es);
      CleanupsDoNotAnnounce(addr, es');
    }
    forall id ensures LookedUp(Run(idOf, es), id, now) == LookedUp(Run(idOf, es'), id, now) {
      var r, r' := LookedUp(Run(idOf, es), id, now), LookedUp(Run(idOf, es'), id, now);
      if r.Found? {
        assert r == Found(r.agent) && r.agent in Active(Run(idOf, es'), now);
      }
      if r'.Found? {
        assert r' == Found(r'.agent) && r'.agent in Active(Run(idOf, es), now);
      }
    }
  }
}
