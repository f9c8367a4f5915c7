/** The two registries: ICE's two-way index of names and IPs, and every agent's own table. */
module Registry {
  import opened Common

  type Name = string
  type Ip = string
  type Port = x: int | 0 <= x < 0x1_0000

  // ----- ICE's index -----

  type Index = map<string, set<string>>

  ghost predicate Linked(m: Index, k: string, v: string) {
    k in m && v in m[k]
  }

  ghost predicate NoEmptySets(m: Index) {
    forall k :: k in m ==> m[k] != {}
  }

  /** Each of the two maps is the other one turned round. */
  ghost predicate Inverse(a: Index, b: Index) {
    forall x, y :: Linked(a, x, y) <==> Linked(b, y, x)
  }

  ghost function PairsOf(m: Index): (s: set<(string, string)>)
    ensures forall k, v :: (k, v) in s <==> Linked(m, k, v)
  {
    set k, v | k in m && v in m[k] :: (k, v)
  }

  /** operator[] creates an empty set where there is none, then the value goes in. */
  function Link(m: Index, k: string, v: string): Index {
    m[k := (if k in m then m[k] else {}) + {v}]
  }

  /** The value is taken out, and an emptied set with its key. */
  function Unlink(m: Index, k: string, v: string): Index {
    var left := (if k in m then m[k] else {}) - {v};
    if left == {} then m - {k} else m[k := left]
  }

  lemma LinkLinks(m: Index, k: string, v: string)
    requires NoEmptySets(m)
    ensures NoEmptySets(Link(m, k, v))
    ensures forall x, y :: Linked(Link(m, k, v), x, y) <==> Linked(m, x, y) || (x == k && y == v)
  {
    forall x, y ensures Linked(Link(m, k, v), x, y) <==> Linked(m, x, y) || (x == k && y == v) {}
  }

  lemma UnlinkUnlinks(m: Index, k: string, v: string)
    requires NoEmptySets(m)
    ensures NoEmptySets(Unlink(m, k, v))
    ensures forall x, y :: Linked(Unlink(m, k, v), x, y) <==> Linked(m, x, y) && !(x == k && y == v)
  {
    forall x, y ensures Linked(Unlink(m, k, v), x, y) <==> Linked(m, x, y) && !(x == k && y == v) {}
  }

  /** The values of a set, or keys of a map, in the order an unordered container gives them. */
  method InSomeOrder(s: set<string>) returns (order: seq<string>)
    ensures |order| == |s| && (forall x :: x in order <==> x in s)
    ensures forall i, j :: 0 <= i < j < |order| ==> order[i] != order[j]
  {
    order := [];
    var left := s;
    while left != {}
      invariant left <= s && |order| + |left| == |s|
      invariant forall x :: x in s <==> x in order || x in left
      invariant forall x :: x in order ==> x !in left
      invariant forall i, j :: 0 <= i < j < |order| ==> order[i] != order[j]
      decreases left
    {
      var x :| x in left;
      order := order + [x];
      left := left - {x};
    }
  }

  /** The first check at which the number drawn is not above the loop counter. */
  function FirstStop(draw: nat -> nat, size: nat, i: nat): (k: nat)
    requires i < size && forall j: nat :: draw(j) < size
    ensures i <= k < size && draw(k) <= k
    ensures forall j: nat :: i <= j < k ==> draw(j) > j
    decreases size - i
  {
    if draw(i) <= i then i else FirstStop(draw, size, i + 1)
  }

  lemma {:induction false} ConstantDrawStops(size: nat, k: nat, i: nat)
    requires i <= k < size
    ensures FirstStop((j: nat) => k, size, i) == k
    decreases k - i
  {
    if i < k { ConstantDrawStops(size, k, i + 1); }
  }

  /** No registered IP is out of reach: some draws lead to each place of the set's order. */
  lemma EveryPlaceIsReached(size: nat, k: nat)
    requires k < size
    ensures exists draw: nat -> nat :: (forall j: nat :: draw(j) < size) && FirstStop(draw, size, 0) == k
  {
    var draw: nat -> nat := (j: nat) => k;
    ConstantDrawStops(size, k, 0);
    assert (forall j: nat :: draw(j) < size) && FirstStop(draw, size, 0) == k;
  }

  class IceServiceManager {
    var srvNameToIp: Index
    var srvIpToName: Index

    ghost predicate Valid()
      reads this
    {
      NoEmptySets(srvNameToIp) && NoEmptySets(srvIpToName) && Inverse(srvNameToIp, srvIpToName)
    }

    /** The registrations: every name with every IP it is registered under. */
    ghost function Pairs(): set<(Name, Ip)>
      reads this
    {
      PairsOf(srvNameToIp)
    }

    constructor ()
      ensures Valid() && Pairs() == {}
    {
      srvNameToIp, srvIpToName := map[], map[];
    }

    predicate Contains(name: Name)
      reads this
    {
      name in srvNameToIp
    }

    method Register(name: Name, ip: Ip)
      requires Valid()
      modifies this
      ensures Valid() && Pairs() == old(Pairs()) + {(name, ip)}
    {
      LinkLinks(srvNameToIp, name, ip);
      LinkLinks(srvIpToName, ip, name);
      srvNameToIp := Link(srvNameToIp, name, ip);
      srvIpToName := Link(srvIpToName, ip, name);
    }

    method Deregister(name: Name, ip: Ip)
      requires Valid()
      modifies this
      ensures Valid() && Pairs() == old(Pairs()) - {(name, ip)}
    {
      if !Contains(name) {
        return;
      }
      Erase(name, ip);
    }

    /** What is done under the lock removes the pair also when the name has gone since the test. */
    method Erase(name: Name, ip: Ip)
      requires Valid()
      modifies this
      ensures Valid() && Pairs() == old(Pairs()) - {(name, ip)}
    {
      UnlinkUnlinks(srvNameToIp, name, ip);
      UnlinkUnlinks(srvIpToName, ip, name);
      srvNameToIp := Unlink(srvNameToIp, name, ip);
      srvIpToName := Unlink(srvIpToName, ip, name);
    }

    /**
     * A number is drawn again at every check of the loop. The walk stays inside the set, ends
     * after at most size - 1 steps, and stands on a registered IP; the answer is null only
     * for a name with no registration.
     */
    method Query(name: Name, draw: nat -> nat) returns (r: Option<Ip>, ghost steps: nat)
      requires Valid()
      requires name in srvNameToIp ==> forall j: nat :: draw(j) < |srvNameToIp[name]|
      ensures r == None <==> forall ip :: (name, ip) !in Pairs()
      ensures r.Some? ==> (name, r.value) in Pairs()
      ensures r.Some? ==> name in srvNameToIp
                          && steps == FirstStop(draw, |srvNameToIp[name]|, 0) <= |srvNameToIp[name]| - 1
    {
      steps := 0;
      if !Contains(name) {
        return None, 0;
      }
      var ips := srvNameToIp[name];
      var witnessIp :| witnessIp in ips;
      assert (name, witnessIp) in Pairs();
      var order := InSomeOrder(ips);
      assert |order| > 0 by { assert witnessIp in order; }
      var i := 0;
      while i < draw(i)
        invariant 0 <= i < |order| && FirstStop(draw, |order|, i) == FirstStop(draw, |order|, 0)
        decreases |order| - i
      {
        i := i + 1;
      }
      assert order[i] in order;
      return Some(order[i]), i;
    }

    ghost function RegisteredNames(): set<Name>
      reads this
    {
      set p | p in Pairs() :: p.0
    }

    lemma KeysAreRegisteredNames()
      requires Valid()
      ensures srvNameToIp.Keys == RegisteredNames()
    {
      forall name | name in srvNameToIp ensures name in RegisteredNames() {
        var ip :| ip in srvNameToIp[name];
        assert (name, ip) in Pairs();
      }
    }

    method GetSrvN() returns (n: nat)
      requires Valid()
      ensures n == |RegisteredNames()|
    {
      KeysAreRegisteredNames();
      n := |srvNameToIp.Keys|;
    }

    /** Every registered name, once. */
    method GetSrv() returns (r: seq<Name>)
      requires Valid()
      ensures |r| == |RegisteredNames()| && (forall name :: name in r <==> name in RegisteredNames())
      ensures forall i, j :: 0 <= i < j < |r| ==> r[i] != r[j]
    {
      KeysAreRegisteredNames();
      r := InSomeOrder(srvNameToIp.Keys);
    }
  }

  // ----- An agent's table -----

  /** emplace: a name already there keeps its port. */
  function Emplace(m: map<Name, Port>, name: Name, port: Port): map<Name, Port> {
    if name in m then m else m[name := port]
  }

  class AgentServiceManager {
    var services: map<Name, Port>

    method Register(name: Name, port: Port)
      modifies this
      ensures services == Emplace(old(services), name, port)
    {
      if name !in services {
        services := services[name := port];
      }
    }

    predicate Contains(name: Name)
      reads this
    {
      name in services
    }

    method Deregister(name: Name)
      modifies this
      ensures services == old(services) - {name}
    {
      if !Contains(name) {
        return;
      }
      services := services - {name};
    }

    method Query(name: Name) returns (r: Option<Port>)
      modifies this
      ensures services == old(services)
      ensures r == None <==> name !in services
      ensures r.Some? ==> r.value == services[name]
    {
      if !Contains(name) {
        return None;
      }
      var port := PortOf(name);
      r := Some(port);
    }

    /** services_[name], which enters port 0 for a name that is not there. */
    method PortOf(name: Name) returns (port: Port)
      modifies this
      ensures services == Emplace(old(services), name, 0) && port == services[name]
    {
      if name !in services {
        services := services[name := 0];
      }
      port := services[name];
    }
  }

  /** How often the watchdog has found a service dead. */
  class ShutdownCounter {
    var shutdowns: map<Name, int>

    ghost function Count(name: Name): int
      reads this
    {
      if name in shutdowns then shutdowns[name] else 0
    }

    method DoShutdown(name: Name)
      modifies this
      ensures forall n :: n in shutdowns <==> n in old(shutdowns) || n == name
      ensures forall n :: Count(n) == old(Count(n)) + if n == name then 1 else 0
    {
      shutdowns := shutdowns[name := (if name in shutdowns then shutdowns[name] else 0) + 1];
    }
  }

  // ----- ICE and all agents together -----

  /** What ICE has registered, and the table of the agent at every IP. */
  datatype World = World(pairs: set<(Name, Ip)>, agents: map<Ip, map<Name, Port>>)

  /**
   * One whole message of Loki or one whole check of the watchdog. delivered says whether the
   * call to ICE came through; where it cannot connect, the agent goes on without it.
   */
  datatype Step =
    | LokiRegister(ip: Ip, name: Name, port: Option<int>, delivered: bool)
    | LokiDeregister(ip: Ip, name: Name, delivered: bool)
    | WatchdogCheck(ip: Ip, dead: set<Name>, deliveredNames: set<Name>)

  /** static_cast of an i32 to unsigned short. */
  function ToPort(i: int): Port { i % 0x1_0000 }

  /** A port that fits is kept, and any other loses what lies above its low sixteen bits. */
  lemma PortKept(i: int)
    ensures 0 <= i < 65536 ==> ToPort(i) == i
    ensures exists k: int :: i == ToPort(i) + 65536 * k
  {
    assert i == ToPort(i) + 65536 * (i / 65536);
  }

  /** A name new to the agent's table enters it with its port, and one already there keeps the port it has. */
  lemma RegisteredPort(w: World, ip: Ip, name: Name, port: int, delivered: bool)
    requires ip in w.agents
    ensures var w' := Apply(w, LokiRegister(ip, name, Some(port), delivered));
            && ip in w'.agents && name in w'.agents[ip]
            && (name !in w.agents[ip] && 0 <= port < 65536 ==> w'.agents[ip][name] == port)
            && (forall n :: n in w.agents[ip] ==> n in w'.agents[ip] && w'.agents[ip][n] == w.agents[ip][n])
            && (forall n :: n in w'.agents[ip] ==> n in w.agents[ip] || n == name)
            && (forall p :: p != ip && p in w.agents ==> p in w'.agents && w'.agents[p] == w.agents[p])
  {
  }

  function Reached(ip: Ip, names: set<Name>): set<(Name, Ip)> {
    set n | n in names :: (n, ip)
  }

  function Apply(w: World, step: Step): World
    requires step.ip in w.agents
  {
    var local := w.agents[step.ip];
    match step
    case LokiRegister(ip, name, port, delivered) =>
      if port == None then w
      else World(if delivered then w.pairs + {(name, ip)} else w.pairs,
                 w.agents[ip := Emplace(local, name, ToPort(port.value))])
    case LokiDeregister(ip, name, delivered) =>
      World(if delivered then w.pairs - {(name, ip)} else w.pairs, w.agents[ip := local - {name}])
    case WatchdogCheck(ip, dead, deliveredNames) =>
      World(w.pairs - Reached(ip, local.Keys * dead * deliveredNames), w.agents[ip := local - dead])
  }

  /** (name, ip) is registered at ICE exactly when the agent at ip holds name. */
  ghost predicate Agreement(w: World) {
    forall name, ip :: (name, ip) in w.pairs <==> ip in w.agents && name in w.agents[ip]
  }

  /** Every change of the agent's table in this step is also made at ICE. */
  ghost predicate ChangesDelivered(w: World, step: Step)
    requires step.ip in w.agents
  {
    var local := w.agents[step.ip];
    match step
    case LokiRegister(_, name, port, delivered) => port == None || name in local || delivered
    case LokiDeregister(_, name, delivered) => name !in local || delivered
    case WatchdogCheck(_, dead, deliveredNames) => local.Keys * dead <= deliveredNames
  }

  /** A step keeps ICE and the agents in agreement exactly when its changes reach ICE. */
  lemma AgreementKeptExactly(w: World, step: Step)
    requires Agreement(w) && step.ip in w.agents
    ensures Agreement(Apply(w, step)) <==> ChangesDelivered(w, step)
  {
    var w', ip := Apply(w, step), step.ip;
    if ChangesDelivered(w, step) {
      forall n, p ensures (n, p) in w'.pairs <==> p in w'.agents && n in w'.agents[p] {
        assert (n, p) in w.pairs <==> p in w.agents && n in w.agents[p];
      }
    } else {
      var n: Name;
      match step {
        case LokiRegister(_, name, _, _) => n := name;
        case LokiDeregister(_, name, _) => n := name;
        case WatchdogCheck(_, dead, deliveredNames) => n :| n in w.agents[ip].Keys * dead && n !in deliveredNames;
      }
      assert (n, ip) in w.pairs <==> n in w.agents[ip];
      assert !((n, ip) in w'.pairs <==> ip in w'.agents && n in w'.agents[ip]);
    }
  }

  ghost predicate Run(worlds: seq<World>, steps: seq<Step>) {
    && |worlds| == |steps| + 1
    && forall i :: 0 <= i < |steps| ==> steps[i].ip in worlds[i].agents && worlds[i + 1] == Apply(worlds[i], steps[i])
  }

  /** Agents start with empty tables and ICE with none of their names. */
  ghost predicate Fresh(w: World) {
    w.pairs == {} && forall ip :: ip in w.agents ==> w.agents[ip] == map[]
  }

  /**
   * In every run of whole steps in which changes reach ICE, over any number of agents, the
   * registry agrees with every agent's table at every moment.
   */
  lemma {:induction false} AgreementAlways(worlds: seq<World>, steps: seq<Step>, i: nat)
    requires Run(worlds, steps) && Fresh(worlds[0]) && i <= |steps|
    requires forall k :: 0 <= k < i ==> ChangesDelivered(worlds[k], steps[k])
    ensures Agreement(worlds[i])
    decreases i
  {
    if i > 0 {
      AgreementAlways(worlds, steps, i - 1);
      AgreementKeptExactly(worlds[i - 1], steps[i - 1]);
    }
  }

  /** The step that first fails to reach ICE with a change is the one that breaks agreement. */
  lemma FirstLostChangeBreaksAgreement(worlds: seq<World>, steps: seq<Step>, i: nat)
    requires Run(worlds, steps) && Fresh(worlds[0]) && i < |steps|
    requires forall k :: 0 <= k < i ==> ChangesDelivered(worlds[k], steps[k])
    requires !ChangesDelivered(worlds[i], steps[i])
    ensures Agreement(worlds[i]) && !Agreement(worlds[i + 1])
  {
    AgreementAlways(worlds, steps, i);
    AgreementKeptExactly(worlds[i], steps[i]);
  }

  /** It happens: one agent registers one service while ICE cannot be reached. */
  lemma LostRegistration(ip: Ip, name: Name, port: int) returns (worlds: seq<World>, steps: seq<Step>)
    ensures Run(worlds, steps) && Fresh(worlds[0]) && |steps| == 1
    ensures steps[0] == LokiRegister(ip, name, Some(port), false)
    ensures !Agreement(worlds[1])
  {
    var w := World({}, map[ip := map[]]);
    steps := [LokiRegister(ip, name, Some(port), false)];
    worlds := [w, Apply(w, steps[0])];
    assert !((name, ip) in worlds[1].pairs <==> ip in worlds[1].agents && name in worlds[1].agents[ip]);
  }

  // ----- The steps as they run -----

  /** Loki's register branch; without a port field the message is dropped, unanswered. */
  method OnRegister(local: AgentServiceManager, ice: IceServiceManager,
                    thisIp: Ip, name: Name, port: Option<int>, delivered: bool, ghost w: World)
    returns (answered: bool)
    requires ice.Valid() && w.pairs == ice.Pairs() && thisIp in w.agents && w.agents[thisIp] == local.services
    modifies local, ice
    ensures ice.Valid() && (answered <==> port.Some?)
    ensures Apply(w, LokiRegister(thisIp, name, port, delivered))
            == World(ice.Pairs(), w.agents[thisIp := local.services])
  {
    if port == None {
      assert w.agents[thisIp := local.services] == w.agents;
      return false;
    }
    local.Register(name, ToPort(port.value));
    if delivered {
      ice.Register(name, thisIp);
    }
    answered := true;
  }

  /** Loki's deregister branch. */
  method OnDeregister(local: AgentServiceManager, ice: IceServiceManager,
                      thisIp: Ip, name: Name, delivered: bool, ghost w: World)
    returns (answered: bool)
    requires ice.Valid() && w.pairs == ice.Pairs() && thisIp in w.agents && w.agents[thisIp] == local.services
    modifies local, ice
    ensures ice.Valid() && answered
    ensures Apply(w, LokiDeregister(thisIp, name, delivered))
            == World(ice.Pairs(), w.agents[thisIp := local.services])
  {
    local.Deregister(name);
    if delivered {
      ice.Deregister(name, thisIp);
    }
    answered := true;
  }

  /** What is left of an agent's table and of ICE's pairs once these names are taken out. */
  ghost predicate TakenOut(names: seq<Name>, delivered: Name -> bool, ip: Ip,
                           was: map<Name, Port>, now: map<Name, Port>,
                           pairs: set<(Name, Ip)>, pairs': set<(Name, Ip)>)
  {
    && now == (map n | n in was && n !in names :: was[n])
    && pairs' == pairs - Reached(ip, set n | n in names && delivered(n))
  }

  lemma TakenOutNone(delivered: Name -> bool, ip: Ip, was: map<Name, Port>, pairs: set<(Name, Ip)>)
    ensures TakenOut([], delivered, ip, was, was, pairs, pairs)
  {
  }

  lemma TakenOutOne(names: seq<Name>, n: Name, delivered: Name -> bool, ip: Ip,
                    was: map<Name, Port>, now: map<Name, Port>, pairs: set<(Name, Ip)>, pairs': set<(Name, Ip)>)
    requires TakenOut(names, delivered, ip, was, now, pairs, pairs')
    ensures TakenOut(names + [n], delivered, ip, was, now - {n},
                     pairs, if delivered(n) then pairs' - {(n, ip)} else pairs')
  {
    var gone, gone' := set x | x in names && delivered(x), set x | x in names + [n] && delivered(x);
    assert forall x :: x in gone' <==> x in gone || (x == n && delivered(n));
    assert Reached(ip, gone') == Reached(ip, gone) + if delivered(n) then {(n, ip)} else {};
  }

  ghost predicate NoRepeats(names: seq<Name>) {
    forall i, j :: 0 <= i < j < |names| ==> names[i] != names[j]
  }

  /** Ask every service for a sign of life and list those that give none. */
  method NoSignOfLife(names: seq<Name>, alive: Name -> bool) returns (dead: seq<Name>)
    requires NoRepeats(names)
    ensures forall n :: n in dead <==> n in names && !alive(n)
    ensures NoRepeats(dead)
  {
    dead := [];
    for i := 0 to |names|
      invariant forall n :: n in dead <==> n in names[..i] && !alive(n)
      invariant NoRepeats(dead)
    {
      if !alive(names[i]) {
        assert names[i] !in names[..i];
        dead := dead + [names[i]];
      }
    }
    assert names[..|names|] == names;
  }

  /** Every one of these names has been counted once. */
  ghost predicate CountedOnce(names: seq<Name>, was: map<Name, int>, now: map<Name, int>) {
    forall n :: (n in now <==> n in was || n in names)
                && (n in now ==> now[n] == (if n in was then was[n] else 0) + if n in names then 1 else 0)
  }

  method CountShutdown(counter: ShutdownCounter, n: Name, ghost names: seq<Name>, ghost was: map<Name, int>)
    requires CountedOnce(names, was, counter.shutdowns) && n !in names
    modifies counter
    ensures CountedOnce(names + [n], was, counter.shutdowns)
  {
    ghost var before := counter.shutdowns;
    counter.DoShutdown(n);
    forall m
      ensures (m in counter.shutdowns <==> m in was || m in names + [n])
      ensures m in counter.shutdowns ==>
                counter.shutdowns[m] == (if m in was then was[m] else 0) + if m in names + [n] then 1 else 0
    {
      assert counter.Count(m) == (if m in before then before[m] else 0) + if m == n then 1 else 0;
    }
  }

  /** Take every one of these names out of the agent's table and out of ICE, and count it. */
  method DeregisterAll(local: AgentServiceManager, ice: IceServiceManager, counter: ShutdownCounter,
                       thisIp: Ip, names: seq<Name>, delivered: Name -> bool)
    requires ice.Valid() && NoRepeats(names)
    modifies local, ice, counter
    ensures ice.Valid()
    ensures TakenOut(names, delivered, thisIp, old(local.services), local.services, old(ice.Pairs()), ice.Pairs())
    ensures CountedOnce(names, old(counter.shutdowns), counter.shutdowns)
  {
    TakenOutNone(delivered, thisIp, local.services, ice.Pairs());
    assert CountedOnce([], counter.shutdowns, counter.shutdowns);
    hide TakenOut, CountedOnce, PairsOf, Inverse, NoEmptySets, Reached;
    assert names[..0] == [];
    for i := 0 to |names|
      invariant ice.Valid()
      invariant TakenOut(names[..i], delivered, thisIp, old(local.services), local.services,
                         old(ice.Pairs()), ice.Pairs())
      invariant CountedOnce(names[..i], old(counter.shutdowns), counter.shutdowns)
    {
      var n := names[i];
      TakenOutOne(names[..i], n, delivered, thisIp, old(local.services), local.services, old(ice.Pairs()), ice.Pairs());
      local.Deregister(n);
      if delivered(n) {
        ice.Deregister(n, thisIp);
      }
      CountShutdown(counter, n, names[..i], old(counter.shutdowns));
      assert names[..i + 1] == names[..i] + [n];
    }
    assert names[..|names|] == names;
  }

  lemma TakenOutMeans(names: seq<Name>, dead: set<Name>, delivered: Name -> bool, ip: Ip,
                      was: map<Name, Port>, now: map<Name, Port>, pairs: set<(Name, Ip)>, pairs': set<(Name, Ip)>)
    requires TakenOut(names, delivered, ip, was, now, pairs, pairs')
    requires forall n :: n in names <==> n in dead
    ensures now == was - dead
    ensures pairs' == pairs - Reached(ip, set n | n in dead && delivered(n))
  {
    assert (set n | n in names && delivered(n)) == set n | n in dead && delivered(n);
  }

  /** The watchdog: ask every service for a sign of life, then take out and count those that gave none. */
  method Check(local: AgentServiceManager, ice: IceServiceManager, counter: ShutdownCounter,
               thisIp: Ip, alive: Name -> bool, delivered: Name -> bool, ghost w: World)
    requires ice.Valid() && w.pairs == ice.Pairs() && thisIp in w.agents && w.agents[thisIp] == local.services
    modifies local, ice, counter
    ensures ice.Valid()
    ensures var dead := set n | n in w.agents[thisIp] && !alive(n);
            Apply(w, WatchdogCheck(thisIp, dead, set n | n in dead && delivered(n)))
            == World(ice.Pairs(), w.agents[thisIp := local.services])
    ensures forall n :: counter.Count(n) == old(counter.Count(n)) + if n in w.agents[thisIp] && !alive(n) then 1 else 0
  {
    var names := InSomeOrder(local.services.Keys);
    var needDeregister := NoSignOfLife(names, alive);
    ghost var dead := set n | n in w.agents[thisIp] && !alive(n);
    DeregisterAll(local, ice, counter, thisIp, needDeregister, delivered);
    TakenOutMeans(needDeregister, dead, delivered, thisIp, w.agents[thisIp], local.services, w.pairs, ice.Pairs());
    hide TakenOut;
    assert w.agents[thisIp].Keys * dead * (set n | n in dead && delivered(n)) == set n | n in dead && delivered(n);
  }

  /** Under agreement an IP that ICE answers with belongs to an agent whose own Query finds the name. */
  method Lookup(ice: IceServiceManager, local: AgentServiceManager,
                ip: Ip, name: Name, draw: nat -> nat, ghost w: World)
    returns (r: Option<Ip>, found: Option<Port>)
    requires ice.Valid() && w.pairs == ice.Pairs() && Agreement(w)
    requires name in ice.srvNameToIp ==> forall j: nat :: draw(j) < |ice.srvNameToIp[name]|
    requires ip in w.agents && w.agents[ip] == local.services
    modifies local
    ensures local.services == old(local.services)
    ensures r.Some? ==> r.value in w.agents && name in w.agents[r.value]
    ensures r == Some(ip) ==> found.Some?
  {
    ghost var steps;
    r, steps := ice.Query(name, draw);
    found := local.Query(name);
  }
}
