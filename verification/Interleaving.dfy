/**
 * The registry again, with the steps cut where another thread can come between: Loki changes
 * the agent's table and only then tells ICE, and a query tests for the name and only then
 * reads its port. The watchdog holds the table's lock for a whole check, in which an outstanding
 * message of Loki comes either before or after the check's own message about the same name.
 */
module Interleaving {
  import opened Common
  import opened Registry

  /** What Loki still has to tell ICE. */
  datatype Message = Reg(name: Name) | Dereg(name: Name)

  /** One agent: its table, Loki's outstanding message, and a name Kartos has tested for and not read yet. */
  datatype Agent = Agent(table: map<Name, Port>, loki: Option<Message>, kartos: Option<Name>)

  datatype Mesh = Mesh(pairs: set<(Name, Ip)>, agents: map<Ip, Agent>)

  datatype Move =
    | LokiLocal(ip: Ip, message: Message, port: Port)
    | LokiIce(ip: Ip)
    | QueryTest(ip: Ip, name: Name)
    | QueryRead(ip: Ip)
    | Check(ip: Ip, dead: set<Name>)

  ghost predicate Allowed(m: Mesh, move: Move) {
    && move.ip in m.agents
    && match move
       case LokiLocal(ip, _, _) => m.agents[ip].loki.None?
       case LokiIce(ip) => m.agents[ip].loki.Some?
       case QueryTest(ip, _) => m.agents[ip].kartos.None?
       case QueryRead(ip) => m.agents[ip].kartos.Some?
       case Check(_, _) => true
  }

  function Told(pairs: set<(Name, Ip)>, message: Message, ip: Ip): set<(Name, Ip)> {
    match message
    case Reg(name) => pairs + {(name, ip)}
    case Dereg(name) => pairs - {(name, ip)}
  }

  function Changed(table: map<Name, Port>, message: Message, port: Port): map<Name, Port> {
    match message
    case Reg(name) => Emplace(table, name, port)
    case Dereg(name) => table - {name}
  }

  function Do(m: Mesh, move: Move): Mesh
    requires move.ip in m.agents
  {
    var a := m.agents[move.ip];
    match move
    case LokiLocal(ip, message, port) =>
      m.(agents := m.agents[ip := a.(table := Changed(a.table, message, port), loki := Some(message))])
    case LokiIce(ip) =>
      Mesh(if a.loki.Some? then Told(m.pairs, a.loki.value, ip) else m.pairs, m.agents[ip := a.(loki := None)])
    case QueryTest(ip, name) =>
      m.(agents := m.agents[ip := a.(kartos := if name in a.table then Some(name) else None)])
    case QueryRead(ip) =>
      // services_[name] enters port 0 where the name is gone
      var table := if a.kartos.Some? then Emplace(a.table, a.kartos.value, 0) else a.table;
      m.(agents := m.agents[ip := a.(table := table, kartos := None)])
    case Check(ip, dead) =>
      Mesh(m.pairs - Reached(ip, a.table.Keys * dead), m.agents[ip := a.(table := a.table - dead)])
  }

  /** ICE has the pair once it has been told everything that is outstanding. */
  ghost predicate WillHold(m: Mesh, n: Name, ip: Ip) {
    if ip in m.agents && m.agents[ip].loki == Some(Reg(n)) then true
    else if ip in m.agents && m.agents[ip].loki == Some(Dereg(n)) then false
    else (n, ip) in m.pairs
  }

  ghost predicate Wrong(m: Mesh, n: Name, ip: Ip) {
    WillHold(m, n, ip) != (ip in m.agents && n in m.agents[ip].table)
  }

  ghost predicate Settled(m: Mesh) {
    forall n, ip :: !Wrong(m, n, ip)
  }

  /** Nothing is outstanding anywhere. */
  ghost predicate AtRest(m: Mesh) {
    forall ip :: ip in m.agents ==> m.agents[ip].loki.None? && m.agents[ip].kartos.None?
  }

  function WorldOf(m: Mesh): World {
    World(m.pairs, map ip | ip in m.agents :: m.agents[ip].table)
  }

  lemma RestIsAgreement(m: Mesh)
    requires AtRest(m)
    ensures Agreement(WorldOf(m)) <==> Settled(m)
  {
    if Agreement(WorldOf(m)) {
      forall n, ip ensures !Wrong(m, n, ip) {
        assert (n, ip) in WorldOf(m).pairs <==> ip in WorldOf(m).agents && n in WorldOf(m).agents[ip];
      }
    }
    if Settled(m) {
      forall n, ip
        ensures (n, ip) in WorldOf(m).pairs <==> ip in WorldOf(m).agents && n in WorldOf(m).agents[ip]
      {
        assert !Wrong(m, n, ip);
      }
    }
  }

  /** The two places where a move comes between the halves of another. */
  ghost predicate Clash(m: Mesh, move: Move)
    requires move.ip in m.agents
  {
    var a := m.agents[move.ip];
    match move
    case QueryRead(_) => a.kartos.Some? && a.kartos.value !in a.table
    case Check(_, dead) => exists n :: n in a.table && n in dead && a.loki == Some(Reg(n))
    case _ => false
  }

  /** The move changes the agent's table at n, or begins to tell ICE about it. */
  ghost predicate Touches(m: Mesh, move: Move, n: Name, ip: Ip)
    requires move.ip in m.agents
  {
    var a := m.agents[move.ip];
    && move.ip == ip
    && match move
       case LokiLocal(_, message, _) => message.name == n
       case QueryRead(_) => a.kartos == Some(n) && n !in a.table
       case Check(_, dead) => n in a.table && n in dead
       case _ => false
  }

  /**
   * The clashes about one pair: a read that revives a name which ICE neither has nor is yet to be
   * told of, and a check that removes a name whose registration ICE is yet to be told of.
   */
  ghost predicate ClashAbout(m: Mesh, move: Move, n: Name, ip: Ip)
    requires move.ip in m.agents
  {
    var a := m.agents[move.ip];
    && Touches(m, move, n, ip)
    && match move
       case QueryRead(_) => a.loki != Some(Reg(n)) && ((n, ip) !in m.pairs || a.loki == Some(Dereg(n)))
       case Check(_, _) => a.loki == Some(Reg(n))
       case _ => false
  }

  /** A move that touches a pair decides whether it is wrong, and any other leaves it as it was. */
  lemma WrongAfter(m: Mesh, move: Move, n: Name, ip: Ip)
    requires Allowed(m, move)
    ensures Wrong(Do(m, move), n, ip)
            <==> if Touches(m, move, n, ip) then ClashAbout(m, move, n, ip) else Wrong(m, n, ip)
  {
  }

  /** From a settled state a move leads to a settled one exactly when it is none of those two. */
  lemma SettledKeptExactly(m: Mesh, move: Move)
    requires Settled(m) && Allowed(m, move)
    ensures Settled(Do(m, move)) <==> !Clash(m, move)
  {
    var m' := Do(m, move);
    hide Do;
    if Clash(m, move) {
      var n: Name;
      var a := m.agents[move.ip];
      match move {
        case QueryRead(_) => n := a.kartos.value;
        case Check(_, dead) => n :| n in a.table && n in dead && a.loki == Some(Reg(n));
        case _ => assert false;
      }
      WrongAfter(m, move, n, move.ip);
      assert !Wrong(m, n, move.ip);
      assert ClashAbout(m, move, n, move.ip);
    } else {
      forall n, ip ensures !Wrong(m', n, ip) {
        WrongAfter(m, move, n, ip);
      }
    }
  }

  ghost predicate History(ms: seq<Mesh>, moves: seq<Move>) {
    && |ms| == |moves| + 1 && Fresh(WorldOf(ms[0])) && AtRest(ms[0])
    && forall i :: 0 <= i < |moves| ==> Allowed(ms[i], moves[i]) && ms[i + 1] == Do(ms[i], moves[i])
  }

  lemma FreshIsSettled(m: Mesh)
    requires Fresh(WorldOf(m)) && AtRest(m)
    ensures Settled(m)
  {
    forall n, ip ensures !Wrong(m, n, ip) {
      assert ip in m.agents ==> WorldOf(m).agents[ip] == map[];
    }
  }

  /** In every history without a clash, ICE and the agents agree whenever nothing is outstanding. */
  lemma {:induction false} AgreementAtRest(ms: seq<Mesh>, moves: seq<Move>, i: nat)
    requires History(ms, moves) && i <= |moves|
    requires forall k :: 0 <= k < i ==> !Clash(ms[k], moves[k])
    ensures Settled(ms[i]) && (AtRest(ms[i]) ==> Agreement(WorldOf(ms[i])))
    decreases i
  {
    hide Do, Allowed, Clash, Settled;
    if i == 0 {
      FreshIsSettled(ms[0]);
    } else {
      AgreementAtRest(ms, moves, i - 1);
      SettledKeptExactly(ms[i - 1], moves[i - 1]);
    }
    if AtRest(ms[i]) {
      RestIsAgreement(ms[i]);
    }
  }

  /** Move k is the last of the first i to touch the pair. */
  ghost predicate LastTouch(ms: seq<Mesh>, moves: seq<Move>, i: nat, k: nat, n: Name, ip: Ip)
    requires History(ms, moves)
  {
    && k < i <= |moves| && Touches(ms[k], moves[k], n, ip)
    && forall j :: k < j < i ==> !Touches(ms[j], moves[j], n, ip)
  }

  lemma LastTouchStays(ms: seq<Mesh>, moves: seq<Move>, i: nat, n: Name, ip: Ip)
    requires History(ms, moves) && i < |moves| && !Touches(ms[i], moves[i], n, ip)
    ensures forall k: nat :: LastTouch(ms, moves, i + 1, k, n, ip) <==> LastTouch(ms, moves, i, k, n, ip)
  {
    hide Touches, Do, Allowed;
    forall k: nat ensures LastTouch(ms, moves, i + 1, k, n, ip) <==> LastTouch(ms, moves, i, k, n, ip) {
    }
  }

  /** The pair is wrong exactly when the last move that touched it was a clash about it. */
  ghost predicate LeftByClash(ms: seq<Mesh>, moves: seq<Move>, i: nat, n: Name, ip: Ip)
    requires History(ms, moves)
  {
    exists k: nat :: LastTouch(ms, moves, i, k, n, ip) && ClashAbout(ms[k], moves[k], n, ip)
  }

  lemma {:induction false} WrongIsLeftByClash(ms: seq<Mesh>, moves: seq<Move>, i: nat, n: Name, ip: Ip)
    requires History(ms, moves) && i <= |moves|
    ensures Wrong(ms[i], n, ip) <==> LeftByClash(ms, moves, i, n, ip)
    decreases i
  {
    if i == 0 {
      FreshIsSettled(ms[0]);
    } else {
      var m, move := ms[i - 1], moves[i - 1];
      WrongIsLeftByClash(ms, moves, i - 1, n, ip);
      WrongAfter(m, move, n, ip);
      hide Do, Allowed, Wrong, Touches, ClashAbout;
      if Touches(m, move, n, ip) {
        assert LastTouch(ms, moves, i, i - 1, n, ip);
        assert forall k: nat :: LastTouch(ms, moves, i, k, n, ip) ==> k == i - 1;
      } else {
        LastTouchStays(ms, moves, i - 1, n, ip);
      }
    }
  }

  /**
   * Over every history, clashes included: at rest ICE and the agents agree exactly when for no
   * pair the last move that touched it was a clash about it.
   */
  lemma AgreementAtRestExactly(ms: seq<Mesh>, moves: seq<Move>)
    requires History(ms, moves) && AtRest(ms[|moves|])
    ensures Agreement(WorldOf(ms[|moves|])) <==> forall n, ip :: !LeftByClash(ms, moves, |moves|, n, ip)
  {
    var m := ms[|moves|];
    RestIsAgreement(m);
    hide Do, Allowed, Wrong, Agreement, LeftByClash;
    if Settled(m) {
      forall n, ip ensures !LeftByClash(ms, moves, |moves|, n, ip) {
        WrongIsLeftByClash(ms, moves, |moves|, n, ip);
      }
    }
    if forall n, ip :: !LeftByClash(ms, moves, |moves|, n, ip) {
      forall n, ip ensures !Wrong(m, n, ip) {
        WrongIsLeftByClash(ms, moves, |moves|, n, ip);
      }
    }
  }

  /** Loki's two halves, one right after the other, are its whole step. */
  lemma HalvesMakeTheStep(m: Mesh, ip: Ip, name: Name, port: Port)
    requires ip in m.agents && m.agents[ip].loki.None?
    ensures WorldOf(Do(Do(m, LokiLocal(ip, Reg(name), port)), LokiIce(ip)))
            == Apply(WorldOf(m), LokiRegister(ip, name, Some(port), true))
    ensures WorldOf(Do(Do(m, LokiLocal(ip, Dereg(name), port)), LokiIce(ip)))
            == Apply(WorldOf(m), LokiDeregister(ip, name, true))
  {
  }

  /** A whole check is the registry's step. */
  lemma CheckIsTheStep(m: Mesh, ip: Ip, dead: set<Name>)
    requires ip in m.agents
    ensures WorldOf(Do(m, Check(ip, dead))) == Apply(WorldOf(m), WatchdogCheck(ip, dead, dead))
  {
    assert m.agents[ip].table.Keys * dead * dead == m.agents[ip].table.Keys * dead;
  }

  /** A query's test and its read, one right after the other, change nothing. */
  lemma QueryHalvesChangeNothing(m: Mesh, ip: Ip, name: Name)
    requires ip in m.agents && m.agents[ip].kartos.None?
    ensures var m' := Do(m, QueryTest(ip, name));
            if name in m.agents[ip].table then Allowed(m', QueryRead(ip)) && Do(m', QueryRead(ip)) == m else m' == m
  {
    assert m.agents[ip := m.agents[ip]] == m.agents;
  }

  // ----- Both clashes happen -----

  /** One agent, nothing registered. */
  function Start(ip: Ip): Mesh {
    One({}, ip, map[], None, None)
  }

  function One(pairs: set<(Name, Ip)>, ip: Ip, table: map<Name, Port>,
               loki: Option<Message>, kartos: Option<Name>): Mesh {
    Mesh(pairs, map[ip := Agent(table, loki, kartos)])
  }

  /** The service is in the table, and ICE has not heard of it. */
  function Entered(ip: Ip, name: Name, port: Port): Mesh {
    One({}, ip, map[name := port], Some(Reg(name)), None)
  }

  /** The service is out of the table, while Kartos is about to read its port. */
  function Gone(ip: Ip, name: Name, outstanding: bool): Mesh {
    if outstanding then One({(name, ip)}, ip, map[], Some(Dereg(name)), Some(name))
    else One({}, ip, map[], None, Some(name))
  }

  /** The service is in the table and at ICE. */
  function Registered(ip: Ip, name: Name, port: Port, kartos: Option<Name>): Mesh {
    One({(name, ip)}, ip, map[name := port], None, kartos)
  }

  /**
   * Kartos has found the name, Loki deregisters it, and Kartos' read enters it again with port 0:
   * at rest the agent holds a name that ICE knows nothing of.
   */
  lemma QueryRevivesName(ip: Ip, name: Name, port: Port) returns (ms: seq<Mesh>, moves: seq<Move>)
    ensures History(ms, moves) && AtRest(ms[|moves|]) && !Agreement(WorldOf(ms[|moves|]))
    ensures ip in ms[|moves|].agents && ms[|moves|].agents[ip].table == map[name := 0]
    ensures ms[|moves|].pairs == {}
  {
    var m0, m1, m2 := Start(ip), Entered(ip, name, port), Registered(ip, name, port, None);
    var m3, m4, m5 := Registered(ip, name, port, Some(name)), Gone(ip, name, true), Gone(ip, name, false);
    var m6 := One({}, ip, map[name := 0], None, None);
    RegisteredAndTested(ip, name, port);
    DeregisteredAndRead(ip, name, port);
    assert Fresh(WorldOf(m0)) && AtRest(m0) && AtRest(m6) && Wrong(m6, name, ip);
    hide Do, WorldOf, One, Start, Entered, Gone, Registered, Wrong, Allowed;
    ms := [m0, m1, m2, m3, m4, m5, m6];
    moves := [LokiLocal(ip, Reg(name), port), LokiIce(ip), QueryTest(ip, name), LokiLocal(ip, Dereg(name), port),
              LokiIce(ip), QueryRead(ip)];
    RestIsAgreement(m6);
  }

  ghost predicate Leads(m: Mesh, move: Move, m': Mesh) {
    Allowed(m, move) && m' == Do(m, move)
  }

  lemma RegisteredAndTested(ip: Ip, name: Name, port: Port)
    ensures Leads(Start(ip), LokiLocal(ip, Reg(name), port), Entered(ip, name, port))
    ensures Leads(Entered(ip, name, port), LokiIce(ip), Registered(ip, name, port, None))
    ensures Leads(Registered(ip, name, port, None), QueryTest(ip, name), Registered(ip, name, port, Some(name)))
  {
  }

  lemma DeregisteredAndRead(ip: Ip, name: Name, port: Port)
    ensures Leads(Registered(ip, name, port, Some(name)), LokiLocal(ip, Dereg(name), port), Gone(ip, name, true))
    ensures Leads(Gone(ip, name, true), LokiIce(ip), Gone(ip, name, false))
    ensures Leads(Gone(ip, name, false), QueryRead(ip), One({}, ip, map[name := 0], None, None))
  {
  }

  /**
   * Loki has entered a service in the table, the watchdog finds it dead before ICE hears of it,
   * and ICE is told last: at rest ICE answers with an IP whose agent does not hold the name.
   */
  lemma CheckBeforeIce(ip: Ip, name: Name, port: Port) returns (ms: seq<Mesh>, moves: seq<Move>)
    ensures History(ms, moves) && AtRest(ms[|moves|]) && !Agreement(WorldOf(ms[|moves|]))
    ensures ip in ms[|moves|].agents && ms[|moves|].agents[ip].table == map[]
    ensures ms[|moves|].pairs == {(name, ip)}
  {
    var m0 := Start(ip);
    var m1 := Do(m0, LokiLocal(ip, Reg(name), port));
    var m2 := Do(m1, Check(ip, {name}));
    var m3 := Do(m2, LokiIce(ip));
    ms := [m0, m1, m2, m3];
    moves := [LokiLocal(ip, Reg(name), port), Check(ip, {name}), LokiIce(ip)];
    assert m3.agents[ip] == Agent(map[], None, None) && m3.pairs == {(name, ip)};
    assert Wrong(m3, name, ip);
    RestIsAgreement(m3);
  }
}
