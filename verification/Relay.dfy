/**
 * Kartos and its children: every connection a parent session that reads one request, for
 * which it opens a child session to the service; the child's answer becomes the reply.
 * Completion handlers run one at a time, in any order and with any outcome.
 */
module Relay {
  import opened Common
  import opened Bytes
  import opened BladeValues
  import opened Wire
  import opened WireTheorems
  import opened Walking
  import Session

  type Id = nat

  datatype Op = Connect | Write | ReadHeader | ReadBody

  /**
   * A session: whom it holds as father, the I/O started and not completed, its current header
   * and object. received is the object last given to its policy, writes all it began to send.
   */
  datatype Sess = Sess(father: Option<Id>, pending: multiset<Op>, nowHeader: Option<Header>, nowObj: Option<Obj>,
                       received: Option<Obj>, writes: seq<Obj>)

  /** What the process is doing: a null pointer followed, and an exception nobody catches, end it. */
  datatype Status = Running | NullDereference | Terminated(e: Exn)

  datatype World = World(sessions: map<Id, Sess>, status: Status)

  const INIT := World(map[], Running)

  /** A connection is accepted, or an operation of session id completes, failing if ec. */
  datatype Step =
    | Accept(id: Id)
    | ConnectDone(id: Id, ec: bool)
    | WriteDone(id: Id, ec: bool)
    | HeaderDone(id: Id, ec: bool, header: Header)
    | BodyDone(id: Id, ec: bool, body: seq<byte>, portKnown: bool, child: Id)

  function OpOf(step: Step): Op
    requires !step.Accept?
  {
    match step
    case ConnectDone(_, _) => Connect
    case WriteDone(_, _) => Write
    case HeaderDone(_, _, _) => ReadHeader
    case BodyDone(_, _, _, _, _) => ReadBody
  }

  ghost predicate Enabled(w: World, step: Step) {
    && w.status == Running
    && if step.Accept? then step.id !in w.sessions
       else
         && step.id in w.sessions && OpOf(step) in w.sessions[step.id].pending
         && (step.BodyDone? ==>
               && step.child !in w.sessions && step.child != step.id
               && HEADER_SIZE + |step.body| < 0x8000_0000
               && (!step.ec && w.sessions[step.id].nowHeader.Some? ==>
                     |step.body| == w.sessions[step.id].nowHeader.value.payloadLength))
  }

  /** "#CALL_NAME" */
  const REQUEST_SERVICE: Name := [35, 67, 65, 76, 76, 95, 78, 65, 77, 69]

  const REQUEST_TYPE: u32 := 0

  /** The request branch is taken, and the name of the service wanted is found in the object. */
  predicate AsksForService(o: Obj) {
    o.header.msgType == REQUEST_TYPE && REQUEST_SERVICE in o.fields && o.fields[REQUEST_SERVICE].VString?
  }

  function Fresh(father: Option<Id>, op: Op): Sess {
    Sess(father, multiset{op}, None, None, None, [])
  }

  /** The object as encoding leaves it; larger objects are not part of the model. */
  ghost function Encoded(o: Obj): Obj {
    if WellSized(o) then Updated(o) else o
  }

  ghost function Writing(s: Sess, o: Obj): Sess {
    s.(nowObj := Some(Encoded(o)), pending := s.pending + multiset{Write}, writes := s.writes + [o])
  }

  ghost function Received(w: World, s: Sess, o: Obj, id: Id, portKnown: bool, child: Id): World {
    var s1 := s.(nowObj := Some(o), received := Some(o));
    match s.father
    case None =>
      if AsksForService(o) && portKnown
      then w.(sessions := w.sessions[id := s1][child := Fresh(Some(id), Connect)])
      else w.(sessions := w.sessions[id := s1])
    case Some(f) =>
      if f !in w.sessions then w.(status := NullDereference)
      else w.(sessions := w.sessions[id := s1][f := Writing(w.sessions[f], o)])
  }

  ghost function Apply(w: World, step: Step): World
    requires Enabled(w, step)
  {
    var id := step.id;
    if step.Accept? then w.(sessions := w.sessions[id := Fresh(None, ReadHeader)])
    else
      var s0 := w.sessions[id];
      var s := s0.(pending := s0.pending - multiset{OpOf(step)});
      if step.ec then w.(sessions := w.sessions[id := s])
      else match step
        case ConnectDone(_, _) =>
          if s.father.None? || s.father.value !in w.sessions || w.sessions[s.father.value].nowObj.None?
          then w.(status := NullDereference)
          else w.(sessions := w.sessions[id := Writing(s, w.sessions[s.father.value].nowObj.value)])
        case WriteDone(_, _) =>
          var s1 := s.(nowObj := None);
          w.(sessions := w.sessions[id := if s.father.Some? then s1.(pending := s.pending + multiset{ReadHeader})
                         else s1])
        case HeaderDone(_, _, h) =>
          w.(sessions := w.sessions[id := s.(nowObj := None, nowHeader := Some(h),
                         pending := s.pending + multiset{ReadBody})])
        case BodyDone(_, _, body, portKnown, child) =>
          if s.nowHeader.None? then w.(status := NullDereference)
          else match DecodeBody(s.nowHeader.value, body)
            case Null => w.(status := NullDereference)
            case Threw(e) => w.(status := Terminated(e))
            case Decoded(o) => Received(w, s, o, id, portKnown, child)
  }

  // ----- What every step keeps -----

  ghost predicate Sized(s: Sess) {
    (s.nowObj.Some? ==> WellSized(s.nowObj.value)) && (s.received.Some? ==> WellSized(s.received.value))
  }

  ghost predicate ParentOk(s: Sess) {
    && |s.pending| <= 1 && Connect !in s.pending
    && (ReadBody in s.pending ==> s.nowHeader.Some?)
    && (s.received.None? ==> s.nowObj.None? && s.writes == [] && Write !in s.pending)
    && (s.received.Some? ==> ReadHeader !in s.pending && ReadBody !in s.pending)
    && (s.received.Some? && s.writes == [] ==> s.pending == multiset{} && s.nowObj == s.received)
    && |s.writes| <= 1
  }

  ghost predicate ChildOk(s: Sess, father: Sess) {
    && father.father.None? && father.received.Some?
    && |s.pending| <= 1
    && (ReadBody in s.pending ==> s.nowHeader.Some?)
    && (s.received.None? ==> father.writes == [])
    && (s.received.Some? ==> father.writes == [s.received.value] && s.pending == multiset{})
    && (s.writes == [] ==> s.received.None? && s.pending <= multiset{Connect})
    && (s.writes != [] ==> s.writes == [father.received.value] && Connect !in s.pending)
  }

  /** s is as it may be in w: a parent, or a child of a father that is there. */
  ghost predicate OkAt(w: World, s: Sess) {
    && Sized(s)
    && if s.father.None? then ParentOk(s)
       else s.father.value in w.sessions && ChildOk(s, w.sessions[s.father.value])
  }

  ghost predicate SessOk(w: World, id: Id)
    requires id in w.sessions
  {
    OkAt(w, w.sessions[id])
  }

  ghost predicate IsChild(w: World, c: Id, p: Id) {
    c in w.sessions && w.sessions[c].father == Some(p)
  }

  ghost predicate OneChild(w: World) {
    forall p, c, d :: IsChild(w, c, p) && IsChild(w, d, p) ==> c == d
  }

  /** c is p's child and has been given the object that p wrote. */
  ghost predicate Answered(w: World, p: Id, c: Id)
    requires p in w.sessions
  {
    IsChild(w, c, p) && w.sessions[c].received.Some? && w.sessions[p].writes == [w.sessions[c].received.value]
  }

  ghost predicate RepliesAnswered(w: World) {
    forall p :: p in w.sessions && w.sessions[p].father.None? && w.sessions[p].writes != [] ==>
      exists c :: Answered(w, p, c)
  }

  ghost predicate AllOk(w: World) {
    forall id :: id in w.sessions ==> SessOk(w, id)
  }

  ghost predicate Inv(w: World) {
    AllOk(w) && OneChild(w) && RepliesAnswered(w)
  }

  /** Decoding makes no object longer than the message it came from. */
  lemma DecodedFits(h: Header, body: seq<byte>)
    requires DecodeBody(h, body).Decoded? && HEADER_SIZE + |body| < 0x8000_0000
    ensures WellSized(DecodeBody(h, body).o)
  {
    hide *;
    DecodedBody(h, body);
    AddAllSize(map[], RecordsIn(body));
    DecodedSize(h, body, TakeString(body).value, RecordsIn(body));
  }

  lemma DecodedSize(h: Header, body: seq<byte>, service: seq<byte>, rs: seq<Record>)
    requires body == BodyBytes(service, rs) && HEADER_SIZE + |body| < 0x8000_0000
    requires FieldsSize(AddAll(map[], rs)) <= FieldsSize(map[]) + RecordsSize(rs)
    ensures WellSized(Obj(h, service, AddAll(map[], rs)))
  {
  }

  // Families: who is whose child, and which answer a reply came from.

  /** No session is lost or changes its father or an object it received; no reply is new. */
  ghost predicate FamiliesKept(w: World, w': World) {
    && (forall id :: id in w.sessions ==> id in w'.sessions && w'.sessions[id].father == w.sessions[id].father
                                          && (w.sessions[id].received.Some? ==>
                                                  w'.sessions[id].received == w.sessions[id].received))
    && (forall id :: id in w'.sessions && w'.sessions[id].father.None? && w'.sessions[id].writes != [] ==>
                       id in w.sessions && w.sessions[id].writes == w'.sessions[id].writes)
  }

  ghost predicate NoNewChild(w: World, w': World) {
    forall p, c :: IsChild(w', c, p) ==> IsChild(w, c, p)
  }

  lemma FamiliesStay(w: World, w': World)
    requires OneChild(w) && RepliesAnswered(w) && FamiliesKept(w, w') && NoNewChild(w, w')
    ensures OneChild(w') && RepliesAnswered(w')
  {
    RepliesStayAnswered(w, w');
  }

  lemma RepliesStayAnswered(w: World, w': World)
    requires RepliesAnswered(w) && FamiliesKept(w, w')
    ensures RepliesAnswered(w')
  {
    forall p | p in w'.sessions && w'.sessions[p].father.None? && w'.sessions[p].writes != []
      ensures exists c :: Answered(w', p, c)
    {
      var c :| Answered(w, p, c);
      assert Answered(w', p, c);
    }
  }

  /** What a child depends on of its father. */
  ghost predicate SameToChildren(was: Sess, s: Sess) {
    s.father == was.father && s.received == was.received && s.writes == was.writes
  }

  lemma StillChildOk(c: Sess, was: Sess, s: Sess)
    requires ChildOk(c, was) && SameToChildren(was, s)
    ensures ChildOk(c, s)
  {
  }

  /** A child's father is a parent, so nobody is his own father and no child has children. */
  lemma FatherIsParent(w: World, c: Id, p: Id)
    requires AllOk(w) && IsChild(w, c, p)
    ensures p in w.sessions && w.sessions[p].father.None? && w.sessions[p].received.Some? && c != p
    ensures ChildOk(w.sessions[c], w.sessions[p])
  {
    assert SessOk(w, c);
  }

  /** Putting s in the place of id suits every session that id is not the father of. */
  lemma OthersOk(w: World, id: Id, s: Sess, n: Id)
    requires AllOk(w) && n in w.sessions && n != id && !IsChild(w, n, id)
    ensures SessOk(w.(sessions := w.sessions[id := s]), n)
  {
    assert SessOk(w, n);
  }

  lemma NewOneOk(w: World, id: Id, s: Sess)
    requires OkAt(w, s) && s.father != Some(id)
    ensures SessOk(w.(sessions := w.sessions[id := s]), id)
  {
  }

  lemma ChildrenOk(w: World, id: Id, s: Sess, n: Id)
    requires AllOk(w) && id in w.sessions && IsChild(w, n, id) && ChildOk(w.sessions[n], s)
    ensures SessOk(w.(sessions := w.sessions[id := s]), n)
  {
    FatherIsParent(w, n, id);
    assert SessOk(w, n);
  }

  /** A session changes, but nothing its children depend on. */
  lemma AllOkAfter(w: World, id: Id, s: Sess)
    requires AllOk(w) && OkAt(w, s) && s.father != Some(id)
    requires forall n :: n in w.sessions && IsChild(w, n, id) ==> ChildOk(w.sessions[n], s)
    requires id !in w.sessions ==> forall n :: !IsChild(w, n, id)
    ensures AllOk(w.(sessions := w.sessions[id := s]))
  {
    var w' := w.(sessions := w.sessions[id := s]);
    hide SessOk, OkAt, ChildOk;
    forall n | n in w'.sessions ensures SessOk(w', n) {
      if n == id {
        NewOneOk(w, id, s);
      } else if IsChild(w, n, id) {
        ChildrenOk(w, id, s, n);
      } else {
        OthersOk(w, id, s, n);
      }
    }
  }

  lemma NoChildren(w: World, id: Id)
    requires AllOk(w) && (id !in w.sessions || w.sessions[id].father.Some? || w.sessions[id].received.None?)
    ensures forall n :: !IsChild(w, n, id)
  {
    forall n ensures !IsChild(w, n, id) {
      if IsChild(w, n, id) {
        FatherIsParent(w, n, id);
      }
    }
  }

  /** A session that changes without its received object or its writes changing. */
  lemma QuietChange(w: World, id: Id, s: Sess)
    requires Inv(w) && id in w.sessions && SameToChildren(w.sessions[id], s) && OkAt(w, s)
    ensures Inv(w.(sessions := w.sessions[id := s]))
  {
    var w' := w.(sessions := w.sessions[id := s]);
    hide ChildOk, ParentOk, Sized, SessOk, OneChild, RepliesAnswered, Answered;
    forall n | n in w.sessions && IsChild(w, n, id) ensures ChildOk(w.sessions[n], s) {
      FatherIsParent(w, n, id);
      StillChildOk(w.sessions[n], w.sessions[id], s);
    }
    NotOwnFather(w, id);
    AllOkAfter(w, id, s);
    FamiliesStay(w, w');
  }

  lemma NotOwnFather(w: World, id: Id)
    requires AllOk(w) && id in w.sessions
    ensures w.sessions[id].father != Some(id)
  {
    assert SessOk(w, id);
  }

  /** A child writes for the first time. */
  lemma ChildWrites(w: World, id: Id, s: Sess)
    requires Inv(w) && id in w.sessions && w.sessions[id].father.Some? && OkAt(w, s)
    requires s.father == w.sessions[id].father && s.received == w.sessions[id].received
    ensures Inv(w.(sessions := w.sessions[id := s]))
  {
    hide ChildOk, ParentOk, Sized, SessOk, OneChild, RepliesAnswered, Answered, OkAt;
    NoChildren(w, id);
    NotOwnFather(w, id);
    AllOkAfter(w, id, s);
    FamiliesStay(w, w.(sessions := w.sessions[id := s]));
  }

  /** A new session nobody holds yet: another parent. */
  lemma ParentArrives(w: World, id: Id)
    requires Inv(w) && id !in w.sessions
    ensures Inv(w.(sessions := w.sessions[id := Fresh(None, ReadHeader)]))
  {
    var s := Fresh(None, ReadHeader);
    hide ChildOk, SessOk, OneChild, RepliesAnswered, Answered;
    assert OkAt(w, s);
    hide *;
    NoChildren(w, id);
    AllOkAfter(w, id, s);
    FamiliesStay(w, w.(sessions := w.sessions[id := s]));
  }

  /** A parent receives its request. */
  lemma ParentReceives(w: World, p: Id, s: Sess)
    requires Inv(w) && p in w.sessions && w.sessions[p].father.None? && w.sessions[p].received.None?
    requires s.father.None? && OkAt(w, s) && s.writes == []
    ensures var w' := w.(sessions := w.sessions[p := s]); Inv(w') && forall c :: !IsChild(w', c, p)
  {
    var w' := w.(sessions := w.sessions[p := s]);
    hide ChildOk, ParentOk, Sized, SessOk, OneChild, RepliesAnswered, Answered, OkAt;
    NoChildren(w, p);
    AllOkAfter(w, p, s);
    assert NoNewChild(w, w');
    FamiliesStay(w, w');
  }

  /** The request makes its parent open a child. */
  lemma ChildArrives(w: World, p: Id, child: Id)
    requires Inv(w) && p in w.sessions && child !in w.sessions
    requires w.sessions[p].father.None? && w.sessions[p].received.Some? && w.sessions[p].writes == []
    requires forall c :: !IsChild(w, c, p)
    ensures Inv(w.(sessions := w.sessions[child := Fresh(Some(p), Connect)]))
  {
    var s := Fresh(Some(p), Connect);
    var w' := w.(sessions := w.sessions[child := s]);
    assert OkAt(w, s);
    hide ChildOk, ParentOk, Sized, SessOk, OneChild, RepliesAnswered, Answered, OkAt, AllOk;
    NoChildren(w, child);
    AllOkAfter(w, child, s);
    RepliesStayAnswered(w, w');
    OneChildMore(w, p, child, s);
  }

  lemma OneChildMore(w: World, p: Id, child: Id, s: Sess)
    requires OneChild(w) && child !in w.sessions && s.father == Some(p)
    requires forall c :: !IsChild(w, c, p)
    ensures OneChild(w.(sessions := w.sessions[child := s]))
  {
    var w' := w.(sessions := w.sessions[child := s]);
    forall q, c, d | IsChild(w', c, q) && IsChild(w', d, q) ensures c == d {
      assert c != child ==> IsChild(w, c, q);
      assert d != child ==> IsChild(w, d, q);
    }
  }

  /** The answer of a child, and its father writing it. */
  lemma FatherWrites(s: Sess, father: Sess, o: Obj)
    requires Sized(father) && WellSized(o) && ParentOk(father) &&
             ChildOk(s, father) && s.received.None? && s.writes != []
    ensures ParentOk(Writing(father, o)) && Sized(Writing(father, o))
    ensures ChildOk(s.(pending := multiset{}, nowObj := Some(o), received := Some(o)), Writing(father, o))
  {
    Session.UpdatedTwice(o);
    assert multiset{} + multiset{Write} == multiset{Write};
  }

  /** A child receives the answer, and its father begins to write it. */
  lemma ChildReceives(w: World, id: Id, f: Id, o: Obj)
    requires Inv(w) && IsChild(w, id, f) && WellSized(o)
    requires w.sessions[id].received.None? && w.sessions[id].writes != []
    ensures f in w.sessions && f != id
    ensures var s := w.sessions[id].(pending := multiset{}, nowObj := Some(o), received := Some(o));
            Inv(w.(sessions := w.sessions[id := s][f := Writing(w.sessions[f], o)]))
  {
    var s := w.sessions[id].(pending := multiset{}, nowObj := Some(o), received := Some(o));
    var w' := w.(sessions := w.sessions[id := s][f := Writing(w.sessions[f], o)]);
    FatherIsParent(w, id, f);
    AnswerOk(w, w', id, f, o);
    hide *;
    assert w'.sessions.Keys == w.sessions.Keys;
    AnswerKept(w, w', id, f);
  }

  lemma AnswerKept(w: World, w': World, id: Id, f: Id)
    requires Inv(w) && IsChild(w, id, f) && f in w.sessions && f != id && w.sessions[id].received.None?
    requires w'.sessions.Keys == w.sessions.Keys
    requires forall m :: m in w.sessions && m != id && m != f ==> w'.sessions[m] == w.sessions[m]
    requires w'.sessions[id].father == w.sessions[id].father && w'.sessions[f].father == w.sessions[f].father
    requires w'.sessions[id].received.Some? && w'.sessions[f].received == w.sessions[f].received
    requires w'.sessions[f].writes == [w'.sessions[id].received.value]
    requires SessOk(w', id) && SessOk(w', f)
    ensures Inv(w')
  {
    hide SessOk, OneChild, RepliesAnswered;
    forall n | n in w'.sessions ensures SessOk(w', n) {
      if n != id && n != f {
        StaysOk(w, w', n, id, f);
      }
    }
    AnswerIsChilds(w, w', id, f);
  }

  lemma AnswerOk(w: World, w': World, id: Id, f: Id, o: Obj)
    requires AllOk(w) && IsChild(w, id, f) && f in w.sessions && f != id && WellSized(o)
    requires w.sessions[id].received.None? && w.sessions[id].writes != []
    requires id in w'.sessions &&
             w'.sessions[id] == w.sessions[id].(pending := multiset{}, nowObj := Some(o), received := Some(o))
    requires f in w'.sessions && w'.sessions[f] == Writing(w.sessions[f], o)
    ensures SessOk(w', id) && SessOk(w', f)
    ensures w'.sessions[f].writes == [o] && w'.sessions[f].father == w.sessions[f].father
    ensures w'.sessions[f].received == w.sessions[f].received
  {
    assert SessOk(w, id) && SessOk(w, f);
    hide ParentOk, ChildOk;
    FatherWrites(w.sessions[id], w.sessions[f], o);
    FatherIsParent(w, id, f);
  }

  lemma StaysOk(w: World, w': World, n: Id, id: Id, f: Id)
    requires AllOk(w) && OneChild(w) && IsChild(w, id, f) && n in w.sessions && n != id && n != f
    requires w'.sessions.Keys == w.sessions.Keys
    requires forall m :: m in w.sessions && m != id && m != f ==> w'.sessions[m] == w.sessions[m]
    ensures SessOk(w', n)
  {
    assert SessOk(w, n);
    FatherIsParent(w, id, f);
    if w.sessions[n].father.Some? {
      var p := w.sessions[n].father.value;
      assert IsChild(w, n, p);
      FatherIsParent(w, n, p);
    }
  }

  lemma AnswerIsChilds(w: World, w': World, id: Id, f: Id)
    requires OneChild(w) && RepliesAnswered(w) && IsChild(w, id, f) && f in w.sessions && f != id
    requires w.sessions[id].received.None?
    requires w'.sessions.Keys == w.sessions.Keys
    requires forall n :: n in w.sessions ==> w'.sessions[n].father == w.sessions[n].father
    requires forall n :: n in w.sessions && n != id && n != f ==> w'.sessions[n] == w.sessions[n]
    requires w'.sessions[f].received == w.sessions[f].received
    requires w.sessions[id].father.Some? && w'.sessions[id].received.Some? &&
             w'.sessions[f].writes == [w'.sessions[id].received.value]
    ensures OneChild(w') && RepliesAnswered(w')
  {
    forall p, c, d | IsChild(w', c, p) && IsChild(w', d, p) ensures c == d {
      assert IsChild(w, c, p) && IsChild(w, d, p);
    }
    forall p | p in w'.sessions && w'.sessions[p].father.None? && w'.sessions[p].writes != []
      ensures exists c :: Answered(w', p, c)
    {
      if p == f {
        assert Answered(w', p, id);
      } else {
        var c :| Answered(w, p, c);
        assert Answered(w', p, c);
      }
    }
  }

  lemma OpsLeft(pending: multiset<Op>, op: Op)
    requires |pending| <= 1 && op in pending
    ensures pending == multiset{op} && pending - multiset{op} == multiset{}
  {
    assert |pending - multiset{op}| == 0;
    assert pending == (pending - multiset{op}) + multiset{op};
  }

  lemma InvKept(w: World, step: Step)
    requires Inv(w) && Enabled(w, step)
    ensures Inv(Apply(w, step))
  {
    var id := step.id;
    if step.Accept? {
      ParentArrives(w, id);
    } else {
      assert SessOk(w, id);
      OpsLeft(w.sessions[id].pending, OpOf(step));
      hide SessOk, AllOk, OneChild, RepliesAnswered, ParentOk, ChildOk, Sized, Received, Writing, DecodeBody;
      var s := w.sessions[id].(pending := multiset{});
      if step.ec {
        FailedKept(w, id, s);
      } else {
        match step
        case ConnectDone(_, _) => ConnectedKept(w, id, s);
        case WriteDone(_, _) => WroteKept(w, id, s);
        case HeaderDone(_, _, h) => HeaderKept(w, id, s, h);
        case BodyDone(_, _, _, _, _) =>
          ReceivedKept(w, step, s);
          StatusAside(w, Apply(w, step));
      }
    }
  }

  lemma StatusAside(w: World, w': World)
    ensures Inv(w) && w'.sessions == w.sessions ==> Inv(w')
  {
    if Inv(w) && w'.sessions == w.sessions {
      forall n | n in w'.sessions ensures SessOk(w', n) {
        assert SessOk(w, n);
      }
      assert FamiliesKept(w, w') && NoNewChild(w, w');
      FamiliesStay(w, w');
    }
  }

  lemma FailedKept(w: World, id: Id, s: Sess)
    requires Inv(w) && id in w.sessions && s == w.sessions[id].(pending := multiset{})
    ensures Inv(w.(sessions := w.sessions[id := s]))
  {
    assert SessOk(w, id);
    QuietChange(w, id, s);
  }

  lemma ConnectedKept(w: World, id: Id, s: Sess)
    requires Inv(w) && id in w.sessions && w.sessions[id].pending == multiset{Connect}
    requires s == w.sessions[id].(pending := multiset{})
    ensures s.father.Some? && s.father.value in w.sessions
    ensures var f := w.sessions[s.father.value];
            && f.nowObj.Some? && f.nowObj == f.received
            && Inv(w.(sessions := w.sessions[id := Writing(s, f.nowObj.value)]))
  {
    assert SessOk(w, id);
    assert s.father.Some?;
    var f := w.sessions[s.father.value];
    assert SessOk(w, s.father.value);
    Session.UpdatedTwice(f.nowObj.value);
    var s' := Writing(s, f.nowObj.value);
    assert s'.pending == multiset{Write};
    ChildWrites(w, id, s');
  }

  lemma WroteKept(w: World, id: Id, s: Sess)
    requires Inv(w) && id in w.sessions && w.sessions[id].pending == multiset{Write}
    requires s == w.sessions[id].(pending := multiset{})
    ensures var s1 := s.(nowObj := None);
            var s2 := if s.father.Some? then s1.(pending := s.pending + multiset{ReadHeader}) else s1;
            Inv(w.(sessions := w.sessions[id := s2]))
  {
    assert SessOk(w, id);
    assert multiset{} + multiset{ReadHeader} == multiset{ReadHeader};
    QuietChange(w, id, if s.father.Some? then s.(nowObj := None, pending := multiset{ReadHeader})
                       else s.(nowObj := None));
  }

  lemma HeaderKept(w: World, id: Id, s: Sess, h: Header)
    requires Inv(w) && id in w.sessions && w.sessions[id].pending == multiset{ReadHeader}
    requires s == w.sessions[id].(pending := multiset{})
    ensures Inv(w.(sessions := w.sessions[id := s.(nowObj := None, nowHeader := Some(h),
                   pending := s.pending + multiset{ReadBody})]))
  {
    assert SessOk(w, id);
    assert multiset{} + multiset{ReadBody} == multiset{ReadBody};
    QuietChange(w, id, s.(nowObj := None, nowHeader := Some(h), pending := multiset{ReadBody}));
  }

  lemma ReceivedKept(w: World, step: Step, s: Sess)
    requires Inv(w) && Enabled(w, step) && step.BodyDone? && !step.ec
    requires w.sessions[step.id].pending == multiset{ReadBody} && s == w.sessions[step.id].(pending := multiset{})
    ensures s.nowHeader.Some?
    ensures DecodeBody(s.nowHeader.value, step.body).Decoded? ==>
              var w' := Received(w, s, DecodeBody(s.nowHeader.value, step.body).o, step.id, step.portKnown, step.child);
              w'.status == Running && Inv(w')
  {
    hide DecodeBody, OneChild, RepliesAnswered;
    var id := step.id;
    assert SessOk(w, id);
    if DecodeBody(s.nowHeader.value, step.body).Decoded? {
      var o := DecodeBody(s.nowHeader.value, step.body).o;
      DecodedFits(s.nowHeader.value, step.body);
      var s1 := s.(nowObj := Some(o), received := Some(o));
      if s.father.None? {
        ParentReceives(w, id, s1);
        if AsksForService(o) && step.portKnown {
          ChildArrives(w.(sessions := w.sessions[id := s1]), id, step.child);
        }
      } else {
        assert IsChild(w, id, s.father.value);
        ChildReceives(w, id, s.father.value, o);
      }
    }
  }

  // ----- Runs -----

  ghost predicate Run(ws: seq<World>, steps: seq<Step>) {
    && |ws| == |steps| + 1 && ws[0] == INIT
    && forall i :: 0 <= i < |steps| ==> Enabled(ws[i], steps[i]) && ws[i + 1] == Apply(ws[i], steps[i])
  }

  lemma {:induction false} InvAlways(ws: seq<World>, steps: seq<Step>, i: nat)
    requires Run(ws, steps) && i <= |steps|
    ensures Inv(ws[i])
    decreases i
  {
    if i > 0 {
      InvAlways(ws, steps, i - 1);
      InvKept(ws[i - 1], steps[i - 1]);
    }
  }

  /**
   * In every interleaving: no session has two operations outstanding, and a parent writes at
   * most once, and then the very object its own child was given in answer to the parent's
   * request.
   */
  lemma RelaySafety(ws: seq<World>, steps: seq<Step>, i: nat)
    requires Run(ws, steps) && i <= |steps|
    ensures forall id :: id in ws[i].sessions ==> |ws[i].sessions[id].pending| <= 1
    ensures forall p :: p in ws[i].sessions && ws[i].sessions[p].father.None? ==> |ws[i].sessions[p].writes| <= 1
    ensures forall p :: p in ws[i].sessions && ws[i].sessions[p].father.None? && ws[i].sessions[p].writes != [] ==>
              && ws[i].sessions[p].received.Some?
              && exists c :: Answered(ws[i], p, c) && ws[i].sessions[c].writes == [ws[i].sessions[p].received.value]
  {
    InvAlways(ws, steps, i);
    var w := ws[i];
    forall id | id in w.sessions
      ensures |w.sessions[id].pending| <= 1
      ensures w.sessions[id].father.None? ==> |w.sessions[id].writes| <= 1
    {
      assert SessOk(w, id);
    }
    forall p | p in w.sessions && w.sessions[p].father.None? && w.sessions[p].writes != []
      ensures w.sessions[p].received.Some?
      ensures exists c :: Answered(w, p, c) && w.sessions[c].writes == [w.sessions[p].received.value]
    {
      var c :| Answered(w, p, c);
      FatherIsParent(w, c, p);
    }
  }

  /** When the child clones its father's object, that is the request the father received. */
  lemma CloneIsRequest(ws: seq<World>, steps: seq<Step>, i: nat)
    requires Run(ws, steps) && i < |steps| && steps[i].ConnectDone? && !steps[i].ec
    ensures var (c, w) := (steps[i].id, ws[i]);
            && w.sessions[c].father.Some? && w.sessions[c].father.value in w.sessions
            && var father := w.sessions[w.sessions[c].father.value];
               && father.nowObj.Some? && father.nowObj == father.received
               && ws[i + 1].status == Running && ws[i + 1].sessions[c].writes == [father.received.value]
  {
    InvAlways(ws, steps, i);
    var c, w := steps[i].id, ws[i];
    assert SessOk(w, c);
    OpsLeft(w.sessions[c].pending, Connect);
    ConnectedKept(w, c, w.sessions[c].(pending := multiset{}));
  }

  // What one step does to each session.

  /** In this step a session's policy is given o. */
  ghost predicate Gives(w: World, step: Step, o: Obj)
    requires Enabled(w, step)
  {
    && step.BodyDone? && !step.ec && w.sessions[step.id].nowHeader.Some?
    && DecodeBody(w.sessions[step.id].nowHeader.value, step.body) == Decoded(o)
  }

  ghost predicate GivesSome(w: World, step: Step)
    requires Enabled(w, step)
  {
    exists o :: Gives(w, step, o)
  }

  lemma OthersUntouched(w: World, step: Step, n: Id)
    requires Enabled(w, step) && n in w.sessions && n != step.id && !(GivesSome(w, step) && IsChild(w, step.id, n))
    ensures n in Apply(w, step).sessions && Apply(w, step).sessions[n] == w.sessions[n]
  {
    hide DecodeBody, AsksForService, Writing;
    if step.BodyDone? && !step.ec && w.sessions[step.id].nowHeader.Some? {
      var r := DecodeBody(w.sessions[step.id].nowHeader.value, step.body);
      if r.Decoded? {
        assert Gives(w, step, r.o);
      }
    }
  }

  lemma FatherAfter(w: World, step: Step, n: Id, o: Obj)
    requires Inv(w) && Enabled(w, step) && Gives(w, step, o) && IsChild(w, step.id, n)
    ensures n in Apply(w, step).sessions && n in w.sessions && n != step.id
    ensures Apply(w, step).sessions[n] == Writing(w.sessions[n], o)
    ensures w.sessions[n].writes == []
  {
    hide DecodeBody, AsksForService, Writing;
    FatherIsParent(w, step.id, n);
    assert SessOk(w, step.id);
  }

  lemma SelfAfter(w: World, step: Step)
    requires Inv(w) && Enabled(w, step) && !step.Accept?
    ensures step.id in Apply(w, step).sessions
    ensures var (s, s') := (w.sessions[step.id], Apply(w, step).sessions[step.id]);
            && s'.father == s.father && s.writes <= s'.writes && (s.father.None? ==> s'.writes == s.writes)
            && (s.received.Some? ==> !GivesSome(w, step))
            && (forall o :: Gives(w, step, o) ==> s'.received == Some(o))
            && (!GivesSome(w, step) ==> s'.received == s.received)
  {
    if GivesSome(w, step) {
      var o :| Gives(w, step, o);
      hide Apply;
      SelfReceives(w, step, o);
    } else {
      hide Apply, Gives;
      SelfKeeps(w, step);
    }
  }

  lemma SelfKeeps(w: World, step: Step)
    requires Inv(w) && Enabled(w, step) && !step.Accept? && !GivesSome(w, step)
    ensures step.id in Apply(w, step).sessions
    ensures var (s, s') := (w.sessions[step.id], Apply(w, step).sessions[step.id]);
            s'.father == s.father && s.writes <= s'.writes && (s.father.None? ==> s'.writes == s.writes)
            && s'.received == s.received
  {
    assert SessOk(w, step.id);
    if step.BodyDone? {
      hide Inv, Gives;
      BodyKeeps(w, step);
    } else {
      hide Inv, Gives;
      OtherKeeps(w, step);
    }
  }

  lemma OtherKeeps(w: World, step: Step)
    requires Enabled(w, step) && !step.Accept? && !step.BodyDone?
    requires w.sessions[step.id].father.None? ==> !step.ConnectDone?
    ensures step.id in Apply(w, step).sessions
    ensures var (s, s') := (w.sessions[step.id], Apply(w, step).sessions[step.id]);
            s'.father == s.father && s.writes <= s'.writes && (s.father.None? ==> s'.writes == s.writes)
            && s'.received == s.received
  {
  }

  /** A body that is not delivered changes nothing but what its session has pending. */
  lemma BodyKeeps(w: World, step: Step)
    requires Enabled(w, step) && step.BodyDone? && !GivesSome(w, step)
    ensures step.id in Apply(w, step).sessions
    ensures Apply(w, step).sessions[step.id].(pending := w.sessions[step.id].pending) == w.sessions[step.id]
  {
    hide DecodeBody, Received;
    if !step.ec && w.sessions[step.id].nowHeader.Some? {
      var r := DecodeBody(w.sessions[step.id].nowHeader.value, step.body);
      assert r.Decoded? ==> Gives(w, step, r.o);
    }
  }

  lemma SelfReceives(w: World, step: Step, o: Obj)
    requires Inv(w) && Enabled(w, step) && Gives(w, step, o)
    ensures step.id in Apply(w, step).sessions
    ensures var (s, s') := (w.sessions[step.id], Apply(w, step).sessions[step.id]);
            s'.father == s.father && s'.writes == s.writes && s.received.None? && s'.received == Some(o)
  {
    assert SessOk(w, step.id);
    if w.sessions[step.id].father.Some? {
      FatherIsParent(w, step.id, w.sessions[step.id].father.value);
    }
    hide DecodeBody, AsksForService, Inv, Writing, ParentOk, ChildOk, Sized;
  }

  /**
   * Which messages open a child: requests, of type 0, whose string field "#CALL_NAME" names a
   * service with a known port. A new child has its parent for father and begins to connect.
   */
  lemma ChildOpensExactly(w: World, step: Step, o: Obj)
    requires Enabled(w, step) && Gives(w, step, o) && w.sessions[step.id].father.None?
    ensures var name: Name := [0x23, 0x43, 0x41, 0x4C, 0x4C, 0x5F, 0x4E, 0x41, 0x4D, 0x45];
            step.child in Apply(w, step).sessions
            <==> step.portKnown && o.header.msgType == 0 && name in o.fields && o.fields[name].VString?
    ensures step.child in Apply(w, step).sessions ==>
              var c := Apply(w, step).sessions[step.child];
              && c.father == Some(step.id) && c.pending == multiset{Connect}
              && c.nowObj.None? && c.received.None? && c.writes == []
    ensures forall n :: n in Apply(w, step).sessions ==> n in w.sessions || n == step.child
  {
    hide DecodeBody;
  }

  /** A parent begins to write only in the step that gives its child the object written. */
  lemma ReplyOnlyOnAnswer(w: World, step: Step, p: Id) returns (o: Obj)
    requires Inv(w) && Enabled(w, step) && p in w.sessions && w.sessions[p].father.None?
    requires p in Apply(w, step).sessions && Apply(w, step).sessions[p].writes != w.sessions[p].writes
    ensures Gives(w, step, o) && IsChild(w, step.id, p)
    ensures w.sessions[p].writes == [] && Apply(w, step).sessions[p].writes == [o]
  {
    hide Apply, Gives;
    if p == step.id {
      SelfAfter(w, step);
      assert false;
    } else if !(GivesSome(w, step) && IsChild(w, step.id, p)) {
      OthersUntouched(w, step, p);
      assert false;
    } else {
      o :| Gives(w, step, o);
      FatherAfter(w, step, p, o);
    }
  }

  /** What a session received is never replaced, and nothing it wrote is taken back. */
  ghost predicate Grown(s: Sess, s': Sess) {
    s'.father == s.father && (s.received.Some? ==> s'.received == s.received) && s.writes <= s'.writes
  }

  lemma HistoryKept(w: World, step: Step, id: Id)
    requires Inv(w) && Enabled(w, step) && id in w.sessions
    ensures id in Apply(w, step).sessions && Grown(w.sessions[id], Apply(w, step).sessions[id])
  {
    var accept := step.Accept? && step.id == id;
    assert !accept;
    hide Apply, Gives;
    if id == step.id {
      SelfAfter(w, step);
    } else if !(GivesSome(w, step) && IsChild(w, step.id, id)) {
      OthersUntouched(w, step, id);
    } else {
      var o :| Gives(w, step, o);
      FatherAfter(w, step, id, o);
    }
  }

  lemma NothingGrown(s: Sess)
    ensures Grown(s, s)
  {
  }

  lemma GrownOn(a: Sess, b: Sess, c: Sess)
    requires Grown(a, b) && Grown(b, c)
    ensures Grown(a, c)
  {
  }

  lemma GrownStep(a: Sess, w: World, step: Step, id: Id)
    requires Inv(w) && Enabled(w, step) && id in w.sessions && Grown(a, w.sessions[id])
    ensures id in Apply(w, step).sessions && Grown(a, Apply(w, step).sessions[id])
  {
    hide Apply, Enabled, Inv, Grown;
    HistoryKept(w, step, id);
    GrownOn(a, w.sessions[id], Apply(w, step).sessions[id]);
  }

  lemma {:induction false} HistoryAlways(ws: seq<World>, steps: seq<Step>, i: nat, j: nat, id: Id)
    requires Run(ws, steps) && i <= j <= |steps| && id in ws[i].sessions
    ensures id in ws[j].sessions && Grown(ws[i].sessions[id], ws[j].sessions[id])
    decreases j
  {
    hide Apply, Enabled, Inv, Grown;
    if i == j {
      NothingGrown(ws[i].sessions[id]);
    } else {
      HistoryAlways(ws, steps, i, j - 1, id);
      InvAlways(ws, steps, j - 1);
      GrownStep(ws[i].sessions[id], ws[j - 1], steps[j - 1], id);
    }
  }

  /** In this step a session is handed a complete body. */
  predicate HandsBody(step: Step) {
    step.BodyDone? && !step.ec
  }

  /**
   * What a peer must send to keep the process going, told from the bytes of the body alone:
   * the process runs on exactly through bodies that print a service name and records. It dies
   * of the missing-bytes exception exactly on a service name cut short, of the other exception
   * exactly on an unknown value tag, and follows a null pointer exactly on all remaining bodies.
   */
  lemma EndsExactly(ws: seq<World>, steps: seq<Step>, i: nat)
    requires Run(ws, steps) && i < |steps|
    ensures ws[i + 1].status == Running <==> (HandsBody(steps[i]) ==> IsBody(steps[i].body))
    ensures ws[i + 1].status == Terminated(RemainLengthNotEnough) <==> HandsBody(steps[i]) && CutShort(steps[i].body)
    ensures ws[i + 1].status == Terminated(UnreachableCode) <==> HandsBody(steps[i]) && UnknownTagIn(steps[i].body)
    ensures ws[i + 1].status == NullDereference <==>
              && HandsBody(steps[i])
              && !IsBody(steps[i].body) && !CutShort(steps[i].body) && !UnknownTagIn(steps[i].body)
  {
    var w, step := ws[i], steps[i];
    InvAlways(ws, steps, i);
    hide DecodeBody, IsBody, CutShort, UnknownTagIn;
    if HandsBody(step) {
      BodyStatus(w, step);
      BodyOutcome(w.sessions[step.id].nowHeader.value, step.body);
    } else if !step.Accept? && !step.ec && step.ConnectDone? {
      CloneIsRequest(ws, steps, i);
    }
  }

  lemma BodyStatus(w: World, step: Step)
    requires Inv(w) && Enabled(w, step) && HandsBody(step)
    ensures w.sessions[step.id].nowHeader.Some?
    ensures |step.body| == w.sessions[step.id].nowHeader.value.payloadLength
    ensures Apply(w, step).status == match DecodeBody(w.sessions[step.id].nowHeader.value, step.body)
                                     case Null => NullDereference
                                     case Threw(e) => Terminated(e)
                                     case Decoded(_) => Running
  {
    hide DecodeBody;
    assert SessOk(w, step.id);
  }

  // Two runs of three steps in which the first peer ends the process.

  ghost function HeaderAnnouncing(n: u32): Header {
    Header(0, 0, 0, REQUEST_TYPE, n, 0, 0, 0, 0, 0)
  }

  /** A connection is accepted, and its peer sends a header and this body. */
  ghost function FirstBody(body: seq<byte>): seq<Step>
    requires |body| < 0x1_0000_0000
  {
    [Accept(0), HeaderDone(0, false, HeaderAnnouncing(|body|)), BodyDone(0, false, body, false, 1)]
  }

  lemma RunOfFirstBody(body: seq<byte>) returns (ws: seq<World>)
    requires |body| < 0x1000
    ensures Run(ws, FirstBody(body)) && |ws| == 4
  {
    var steps := FirstBody(body);
    var w1 := Apply(INIT, steps[0]);
    var w2 := Apply(w1, steps[1]);
    assert w2.sessions[0].pending == multiset{ReadBody};
    hide DecodeBody;
    ws := [INIT, w1, w2, Apply(w2, steps[2])];
  }

  /** An empty body ends the process with the missing-bytes exception. */
  lemma EmptyBodyTerminates() returns (ws: seq<World>, steps: seq<Step>)
    ensures Run(ws, steps) && ws[|steps|].status == Terminated(RemainLengthNotEnough)
  {
    steps := FirstBody([]);
    ws := RunOfFirstBody([]);
    EndsExactly(ws, steps, 2);
  }

  /** An empty service name and one stray byte make the process follow a null pointer. */
  lemma StrayByteDereferencesNull() returns (ws: seq<World>, steps: seq<Step>)
    ensures Run(ws, steps) && ws[|steps|].status == NullDereference
  {
    var body: seq<byte> := [0, 0, 0, 0, 7];
    steps := FirstBody(body);
    ws := RunOfFirstBody(body);
    assert DecodeBody(HeaderAnnouncing(5), body) == Null by {
      assert body[..4] == LE(0, 4);
      U32Inverse(0, body[..4]);
      assert TakeString(body) == Got([], [7]);
      assert TakeRecord([7]) == NullParse;
    }
    BodyOutcome(HeaderAnnouncing(5), body);
    hide DecodeBody, IsBody, CutShort, UnknownTagIn;
    EndsExactly(ws, steps, 2);
  }

  /** An empty service name, then a field name with a tag no case handles, end it with the other exception. */
  lemma UnknownTagTerminates() returns (ws: seq<World>, steps: seq<Step>)
    ensures Run(ws, steps) && ws[|steps|].status == Terminated(UnreachableCode)
  {
    var fields := NameAndTag([], 0);
    var body := StringBytes([]) + fields;
    assert UnknownTagAfter(fields, [], [], 0, []) by {
      assert RecordsBytes([]) + fields + [] == fields;
    }
    assert NameThenFields(body, [], fields);
    steps := FirstBody(body);
    ws := RunOfFirstBody(body);
    hide DecodeBody, IsBody, CutShort, UnknownTagAfter, NameThenFields;
    assert UnknownTagIn(body);
    hide UnknownTagIn;
    EndsExactly(ws, steps, 2);
  }

  // What the relay passes on.

  /** An encoding of o, cut into the header h and the body behind it. */
  ghost predicate EncodedIn(o: Obj, h: Header, body: seq<byte>) {
    Session.Encodes(o, HeaderBytes(h) + body)
  }

  lemma EncodedParts(o: Obj, h: Header, body: seq<byte>)
    requires EncodedIn(o, h, body)
    ensures WellSized(o) && |body| == h.payloadLength && DecodeBody(h, body) == Decoded(Updated(o))
    ensures DecodeMessage(HeaderBytes(h) + body) == Decoded(Updated(o))
  {
    var sent := HeaderBytes(h) + body;
    var rs :| IsListing(o.fields, rs) && sent == Message(Updated(o).header, o.service, rs);
    RoundTrip(o, rs);
    HeaderRead(h);
    HeaderRead(Updated(o).header);
    assert sent[..HEADER_SIZE] == HeaderBytes(h) == HeaderBytes(Updated(o).header);
    assert sent[HEADER_SIZE..] == body == BodyBytes(o.service, rs);
  }

  /**
   * The service's answer goes through unchanged: if a child is handed the header and body that
   * encode answer, its parent begins to write in that step, will never have written anything
   * else, and whatever encodes what it wrote decodes to what the service sent.
   */
  lemma RelayIsTransparent(ws: seq<World>, steps: seq<Step>, i: nat, j: nat, p: Id, answer: Obj, reply: seq<byte>)
    requires Run(ws, steps) && i < j <= |steps| && HandsBody(steps[i]) && IsChild(ws[i], steps[i].id, p)
    requires ws[i].sessions[steps[i].id].nowHeader.Some?
    requires EncodedIn(answer, ws[i].sessions[steps[i].id].nowHeader.value, steps[i].body)
    ensures WellSized(answer) && p in ws[i].sessions && ws[i].sessions[p].writes == []
    ensures ws[i + 1].status == Running
    ensures p in ws[j].sessions && ws[j].sessions[p].writes == [Updated(answer)]
    ensures Session.Encodes(Updated(answer), reply) ==> DecodeMessage(reply) == Decoded(Updated(answer))
  {
    var w, step, h := ws[i], steps[i], ws[i].sessions[steps[i].id].nowHeader.value;
    EncodedParts(answer, h, step.body);
    InvAlways(ws, steps, i);
    var o := Updated(answer);
    assert Gives(w, step, o);
    BodyStatus(w, step);
    FatherIsParent(w, step.id, p);
    FatherAfter(w, step, p, o);
    assert ws[i + 1].sessions[p].writes == [o];
    HistoryAlways(ws, steps, i + 1, j, p);
    WritesOnce(ws, steps, j, p);
    if Session.Encodes(o, reply) {
      Session.UpdatedTwice(answer);
      EncodingDecodes(o, reply);
    }
  }

  lemma WritesOnce(ws: seq<World>, steps: seq<Step>, j: nat, p: Id)
    requires Run(ws, steps) && j <= |steps| && p in ws[j].sessions && ws[j].sessions[p].father.None?
    ensures |ws[j].sessions[p].writes| <= 1
  {
    InvAlways(ws, steps, j);
    assert SessOk(ws[j], p);
  }

  lemma EncodingDecodes(o: Obj, b: seq<byte>)
    requires Session.Encodes(o, b)
    ensures DecodeMessage(b) == Decoded(Updated(o))
  {
    var rs :| IsListing(o.fields, rs) && b == Message(Updated(o).header, o.service, rs);
    RoundTrip(o, rs);
  }

  // The sessions' own reads and writes are these steps.

  /** The header and the body that a session's read of s gets, and whether either read fails. */
  ghost function HeaderStep(id: Id, s: seq<byte>, cut: Session.Cut): Step {
    var k := Session.Arriving(s, HEADER_SIZE, cut.header);
    if k < HEADER_SIZE then HeaderDone(id, true, HeaderAnnouncing(0))
    else HeaderDone(id, false, HeaderOf(s[..HEADER_SIZE]))
  }

  ghost function BodyStep(id: Id, s: seq<byte>, cut: Session.Cut, portKnown: bool, child: Id): Step
    requires |s| >= HEADER_SIZE
  {
    var n := HeaderOf(s[..HEADER_SIZE]).payloadLength;
    var m := Session.Arriving(s[HEADER_SIZE..], n, cut.body);
    BodyDone(id, m < n, s[HEADER_SIZE..][..m], portKnown, child)
  }

  /**
   * A session that reads s as Session.ReadOnce says goes through a header step and, unless
   * that fails, a body step, which do with what is delivered what the policy does.
   */
  lemma ReadIsTwoSteps(w: World, id: Id, s: seq<byte>, cut: Session.Cut, portKnown: bool, child: Id)
    requires w.status == Running && id in w.sessions && w.sessions[id].pending == multiset{ReadHeader}
    requires child !in w.sessions && child != id && |s| < 0x8000_0000
    ensures Enabled(w, HeaderStep(id, s, cut))
    ensures var w1, d := Apply(w, HeaderStep(id, s, cut)), Session.ReadOnce(s, cut).0;
            if d == Session.HeaderError then
              w1 == w.(sessions := w.sessions[id := w.sessions[id].(pending := multiset{})])
            else
              var last := w1.sessions[id].(pending := multiset{});
              && |s| >= HEADER_SIZE && last.nowObj.None? && last.nowHeader == Some(HeaderOf(s[..HEADER_SIZE]))
              && last.received == w.sessions[id].received && last.writes == w.sessions[id].writes
              && Enabled(w1, BodyStep(id, s, cut, portKnown, child))
              && var w2 := Apply(w1, BodyStep(id, s, cut, portKnown, child));
                 match d
                 case HeaderError => false
                 case BodyError => w2 == w1.(sessions := w1.sessions[id := last])
                 case DeliveredNull => w2.status == NullDereference
                 case Escaped(e) => w2.status == Terminated(e)
                 case Delivered(o) => w2 == Received(w1, last, o, id, portKnown, child)
  {
    hide DecodeBody, HeaderOf, Received;
    assert w.sessions[id].pending - multiset{ReadHeader} == multiset{};
    assert multiset{} + multiset{ReadBody} == multiset{ReadBody};
    assert multiset{ReadBody} - multiset{ReadBody} == multiset{};
  }

  /** A session's write is a Writing and a write step, and leaves the object Session's DoWrite leaves. */
  lemma WriteIsTwoSteps(w: World, id: Id, o: Obj, ok: bool)
    requires w.status == Running && id in w.sessions && w.sessions[id].pending == multiset{} && WellSized(o)
    ensures var w1 := w.(sessions := w.sessions[id := Writing(w.sessions[id], o)]);
            && Enabled(w1, WriteDone(id, !ok))
            && Apply(w1, WriteDone(id, !ok)).sessions[id].nowObj == if ok then None else Some(Updated(o))
  {
    var s := Writing(w.sessions[id], o);
    assert Write in s.pending;
  }

  // ----- A request whose own sessions do not fail is answered -----

  /** The operation does not fail, and the service asked for is known; a parent's write may fail. */
  predicate Smooth(w: World, step: Step)
    requires step.Accept? || step.id in w.sessions
  {
    step.Accept?
    || (step.WriteDone? && w.sessions[step.id].father.None?)
    || (!step.ec && (step.BodyDone? ==> step.portKnown))
  }

  /** A session with nothing left to do has received its object, and a request has its child. */
  ghost predicate SmoothOk(w: World, id: Id)
    requires id in w.sessions
  {
    var s := w.sessions[id];
    && (s.pending == multiset{} ==> s.received.Some?)
    && (s.father.None? && s.received.Some? && AsksForService(s.received.value) ==> exists c :: IsChild(w, c, id))
  }

  /** p and its children are so. */
  ghost predicate FamilyOk(w: World, p: Id) {
    && (p in w.sessions ==> SmoothOk(w, p))
    && forall c :: IsChild(w, c, p) ==> SmoothOk(w, c)
  }

  /** The step is one of p's own session or of a child of it. */
  ghost predicate OfFamily(w: World, step: Step, p: Id) {
    step.id == p || IsChild(w, step.id, p)
  }

  lemma FamilyKept(w: World, step: Step, p: Id)
    requires Inv(w) && FamilyOk(w, p) && Enabled(w, step) && (OfFamily(w, step, p) ==> Smooth(w, step))
    ensures FamilyOk(Apply(w, step), p)
  {
    var w' := Apply(w, step);
    InvKept(w, step);
    hide Apply, Enabled, Inv, Smooth;
    if p in w'.sessions {
      MemberKept(w, step, p);
    }
    forall c | IsChild(w', c, p) ensures SmoothOk(w', c) {
      if c in w.sessions {
        HistoryKept(w, step, c);
        assert IsChild(w, c, p);
      }
      MemberKept(w, step, c);
    }
  }

  lemma MemberKept(w: World, step: Step, n: Id)
    requires Inv(w) && Enabled(w, step) && n in Apply(w, step).sessions
    requires n in w.sessions ==> SmoothOk(w, n) && (n == step.id ==> Smooth(w, step))
    ensures SmoothOk(Apply(w, step), n)
  {
    hide Apply, Enabled, Inv, Smooth;
    if n in w.sessions {
      SmoothStays(w, step, n);
    } else {
      NewSession(w, step, n);
    }
  }

  lemma NewSession(w: World, step: Step, n: Id)
    requires Enabled(w, step) && n !in w.sessions && n in Apply(w, step).sessions
    ensures Apply(w, step).sessions[n].pending != multiset{} && Apply(w, step).sessions[n].received.None?
  {
    hide DecodeBody, AsksForService;
  }

  /** A step without failure leaves its session with something to do, or gives it its object, or ends a write. */
  lemma SelfGoesOn(w: World, step: Step)
    requires Inv(w) && Enabled(w, step) && Smooth(w, step) && !step.Accept?
    ensures step.id in Apply(w, step).sessions
    ensures var (s, s') := (w.sessions[step.id], Apply(w, step).sessions[step.id]);
            s'.pending == multiset{} ==> s'.received.Some?
    ensures var (s, s') := (w.sessions[step.id], Apply(w, step).sessions[step.id]);
            s.father.None? && s.received.None? && s'.received.Some? && AsksForService(s'.received.value)
            ==> exists c :: IsChild(Apply(w, step), c, step.id)
  {
    hide DecodeBody, AsksForService, OneChild, RepliesAnswered;
    assert SessOk(w, step.id);
    OpsLeft(w.sessions[step.id].pending, OpOf(step));
    hide AllOk, SessOk, Sized;
    assert w.sessions[step.id].father.None? && step.WriteDone? ==> w.sessions[step.id].received.Some?;
    hide Apply, Gives, Enabled, ParentOk, ChildOk;
    if GivesSome(w, step) {
      var o :| Gives(w, step, o);
      SelfReceives(w, step, o);
      if w.sessions[step.id].father.None? {
        RequestOpensChild(w, step, o);
      }
    } else {
      SelfKeeps(w, step);
      if !step.ec {
        SelfBusy(w, step);
      }
    }
  }

  lemma RequestOpensChild(w: World, step: Step, o: Obj)
    requires Enabled(w, step) && Gives(w, step, o) && step.portKnown && w.sessions[step.id].father.None?
    ensures AsksForService(o) ==> IsChild(Apply(w, step), step.child, step.id)
  {
    hide DecodeBody, AsksForService;
  }

  lemma SelfBusy(w: World, step: Step)
    requires Enabled(w, step) && !step.Accept? && !step.ec && !GivesSome(w, step)
    requires w.sessions[step.id].father.None? && step.WriteDone? ==> w.sessions[step.id].received.Some?
    requires step.id in Apply(w, step).sessions
    ensures w.sessions[step.id].received.Some? || Apply(w, step).sessions[step.id].pending != multiset{}
  {
    hide DecodeBody, Received;
    if step.BodyDone? && w.sessions[step.id].nowHeader.Some? {
      var r := DecodeBody(w.sessions[step.id].nowHeader.value, step.body);
      assert r.Decoded? ==> Gives(w, step, r.o);
    }
  }

  lemma SmoothStays(w: World, step: Step, n: Id)
    requires Inv(w) && Enabled(w, step) && n in w.sessions && SmoothOk(w, n) && (n == step.id ==> Smooth(w, step))
    ensures n in Apply(w, step).sessions && SmoothOk(Apply(w, step), n)
  {
    var w' := Apply(w, step);
    assert n == step.id ==> !step.Accept?;
    hide Apply, Gives, AsksForService;
    HistoryKept(w, step, n);
    if exists c :: IsChild(w, c, n) {
      var c :| IsChild(w, c, n);
      HistoryKept(w, step, c);
      assert IsChild(w', c, n);
    }
    if n == step.id {
      SelfGoesOn(w, step);
    } else if !(GivesSome(w, step) && IsChild(w, step.id, n)) {
      OthersUntouched(w, step, n);
    } else {
      var o :| Gives(w, step, o);
      FatherAfter(w, step, n, o);
      FatherIsParent(w, step.id, n);
    }
  }

  lemma {:induction false} FamilyAlways(ws: seq<World>, steps: seq<Step>, p: Id, i: nat)
    requires Run(ws, steps) && i <= |steps|
    requires forall k :: 0 <= k < i && OfFamily(ws[k], steps[k], p) ==> Smooth(ws[k], steps[k])
    ensures FamilyOk(ws[i], p)
    decreases i
  {
    if i > 0 {
      FamilyAlways(ws, steps, p, i - 1);
      InvAlways(ws, steps, i - 1);
      var w, step := ws[i - 1], steps[i - 1];
      hide Apply, Enabled, Inv, Smooth, FamilyOk;
      FamilyKept(w, step, p);
    }
  }

  /**
   * A request whose own two sessions do not fail is answered, whatever happens to all others:
   * once the parent and its child have nothing left to do, the parent has received an object, and
   * if that is of type 0 and has a string field "#CALL_NAME", it has written what its child was given.
   */
  lemma EveryRequestIsAnswered(ws: seq<World>, steps: seq<Step>, p: Id)
    requires Run(ws, steps)
    requires forall k :: 0 <= k < |steps| && OfFamily(ws[k], steps[k], p) ==> Smooth(ws[k], steps[k])
    requires p in ws[|steps|].sessions && ws[|steps|].sessions[p].father.None?
    requires ws[|steps|].sessions[p].pending == multiset{}
    requires forall c :: IsChild(ws[|steps|], c, p) ==> ws[|steps|].sessions[c].pending == multiset{}
    ensures ws[|steps|].sessions[p].received.Some?
    ensures var name: Name := [0x23, 0x43, 0x41, 0x4C, 0x4C, 0x5F, 0x4E, 0x41, 0x4D, 0x45];
            var o := ws[|steps|].sessions[p].received.value;
            o.header.msgType == 0 && name in o.fields && o.fields[name].VString? ==>
              exists c :: Answered(ws[|steps|], p, c)
  {
    var w := ws[|steps|];
    InvAlways(ws, steps, |steps|);
    FamilyAlways(ws, steps, p, |steps|);
    hide Apply, Enabled, Smooth;
    if AsksForService(w.sessions[p].received.value) {
      var c :| IsChild(w, c, p);
      assert SmoothOk(w, c);
      FatherIsParent(w, c, p);
      assert Answered(w, p, c);
    }
  }

  // ----- Every run comes to rest -----

  /** How many completions a session may still cause, its future child's included. */
  ghost function Work(s: Sess): (n: nat)
    ensures n <= 7
  {
    if s.father.None? then
      if ReadHeader in s.pending then 7 else if ReadBody in s.pending then 6 else if Write in s.pending then 1 else 0
    else
      if Connect in s.pending then 5 else if Write in s.pending then 4
      else if ReadHeader in s.pending then 3 else if ReadBody in s.pending then 2 else 0
  }

  ghost function Total(m: map<Id, Sess>): nat {
    if m == map[] then 0
    else
      var k :| k in m;
      Work(m[k]) + Total(m - {k})
  }

  lemma {:induction false} TotalRemove(m: map<Id, Sess>, k: Id)
    requires k in m
    ensures Total(m) == Work(m[k]) + Total(m - {k})
    decreases |m|
  {
    var k' :| k' in m && Total(m) == Work(m[k']) + Total(m - {k'});
    if k' != k {
      TotalRemove(m - {k'}, k);
      TotalRemove(m - {k}, k');
      assert m - {k'} - {k} == m - {k} - {k'};
    }
  }

  lemma TotalSet(m: map<Id, Sess>, k: Id, s: Sess)
    ensures Total(m[k := s]) == Total(m) + Work(s) - if k in m then Work(m[k]) else 0
  {
    TotalRemove(m[k := s], k);
    assert m[k := s] - {k} == m - {k};
    if k in m {
      TotalRemove(m, k);
    } else {
      assert m - {k} == m;
    }
  }

  ghost function WorkLeft(w: World): nat {
    if w.status == Running then Total(w.sessions) else 0
  }

  /** Every completion uses up work; only a new connection brings some. */
  lemma WorkUsed(w: World, step: Step)
    requires Inv(w) && Enabled(w, step)
    ensures WorkLeft(Apply(w, step)) <= WorkLeft(w) + if step.Accept? then 7 else -1
  {
    var id := step.id;
    if step.Accept? {
      TotalSet(w.sessions, id, Fresh(None, ReadHeader));
    } else {
      assert SessOk(w, id);
      OpsLeft(w.sessions[id].pending, OpOf(step));
      TotalRemove(w.sessions, id);
      SelfWork(w, step);
    }
  }

  lemma SelfWork(w: World, step: Step)
    requires Inv(w) && Enabled(w, step) && !step.Accept? && w.sessions[step.id].pending == multiset{OpOf(step)}
    requires Total(w.sessions) >= Work(w.sessions[step.id]) >= 1
    ensures WorkLeft(Apply(w, step)) < WorkLeft(w)
  {
    var id := step.id;
    if GivesSome(w, step) {
      hide Apply, Gives;
      var o :| Gives(w, step, o);
      BodyWork(w, step, o);
    } else {
      hide Apply, Gives, Inv;
      var s := SelfNext(w, step);
      TotalSet(w.sessions, id, s);
    }
  }

  /** A step that gives no policy an object changes its own session, which has less to do then. */
  lemma SelfNext(w: World, step: Step) returns (s': Sess)
    requires Enabled(w, step) && !step.Accept? && w.sessions[step.id].pending == multiset{OpOf(step)}
    requires SessOk(w, step.id) && !GivesSome(w, step)
    ensures Apply(w, step).status == Running ==>
              Apply(w, step) == w.(sessions := w.sessions[step.id := s']) && Work(s') < Work(w.sessions[step.id])
  {
    var s := w.sessions[step.id].(pending := w.sessions[step.id].pending - multiset{OpOf(step)});
    assert s.pending == multiset{};
    hide DecodeBody, Received, Sized;
    s' := if step.id in Apply(w, step).sessions then Apply(w, step).sessions[step.id] else s;
    if step.BodyDone? && !step.ec {
      var r := DecodeBody(s.nowHeader.value, step.body);
      assert r.Decoded? ==> Gives(w, step, r.o);
    }
  }

  lemma BodyWork(w: World, step: Step, o: Obj)
    requires Inv(w) && Enabled(w, step) && Gives(w, step, o) && w.sessions[step.id].pending == multiset{ReadBody}
    ensures WorkLeft(Apply(w, step)) < WorkLeft(w)
  {
    var id := step.id;
    var s := w.sessions[id].(pending := multiset{});
    assert w.sessions[id].pending - multiset{ReadBody} == multiset{};
    if w.sessions[id].father.None? {
      hide Inv, DecodeBody, Total, Work, Received;
      ParentReceivedWork(w, s, o, step.portKnown, step.child, id);
    } else {
      var f := w.sessions[id].father.value;
      assert IsChild(w, id, f) && SessOk(w, id);
      FatherIsParent(w, id, f);
      assert SessOk(w, f);
      assert w.sessions[f].pending == multiset{};
      hide Inv, DecodeBody, Total, Work, Received, ParentOk, ChildOk, SessOk;
      ChildReceivedWork(w, s, o, step.portKnown, step.child, id, f);
    }
  }

  /** A parent that had a body to read has nothing to do now; its child, if any, has a little less. */
  lemma ParentReceivedWork(w: World, s: Sess, o: Obj, portKnown: bool, child: Id, id: Id)
    requires w.status == Running && id in w.sessions && w.sessions[id].pending == multiset{ReadBody}
    requires w.sessions[id].father.None? && s == w.sessions[id].(pending := multiset{}) && child !in w.sessions
    ensures WorkLeft(Received(w, s, o, id, portKnown, child)) < WorkLeft(w)
  {
    hide AsksForService;
    var s1 := s.(nowObj := Some(o), received := Some(o));
    TotalSet(w.sessions, id, s1);
    TotalSet(w.sessions[id := s1], child, Fresh(Some(id), Connect));
  }

  /** A child that had a body to read is done, and its father has a write to do. */
  lemma ChildReceivedWork(w: World, s: Sess, o: Obj, portKnown: bool, child: Id, id: Id, f: Id)
    requires w.status == Running && id in w.sessions && w.sessions[id].pending == multiset{ReadBody}
    requires w.sessions[id].father == Some(f) && s == w.sessions[id].(pending := multiset{})
    requires f in w.sessions && f != id && w.sessions[f].father.None? && w.sessions[f].pending == multiset{}
    ensures WorkLeft(Received(w, s, o, id, portKnown, child)) < WorkLeft(w)
  {
    var s1 := s.(nowObj := Some(o), received := Some(o));
    TotalSet(w.sessions, id, s1);
    TotalSet(w.sessions[id := s1], f, Writing(w.sessions[f], o));
  }

  function Accepted(steps: seq<Step>): nat {
    if steps == [] then 0 else Accepted(steps[..|steps| - 1]) + if steps[|steps| - 1].Accept? then 1 else 0
  }

  lemma AcceptedOn(steps: seq<Step>, i: nat)
    requires i < |steps|
    ensures Accepted(steps[..i + 1]) == Accepted(steps[..i]) + if steps[i].Accept? then 1 else 0
  {
    assert steps[..i + 1][..i] == steps[..i];
  }

  lemma {:induction false} WorkBound(ws: seq<World>, steps: seq<Step>, i: nat)
    requires Run(ws, steps) && i <= |steps|
    ensures i + WorkLeft(ws[i]) <= 8 * Accepted(steps[..i])
    decreases i
  {
    hide Apply, Enabled, Inv, WorkLeft, Accepted;
    if i > 0 {
      var w, step := ws[i - 1], steps[i - 1];
      WorkBound(ws, steps, i - 1);
      InvAlways(ws, steps, i - 1);
      WorkUsed(w, step);
      AcceptedOn(steps, i - 1);
    } else {
      NoWork(ws[0]);
    }
  }

  lemma NoWork(w: World)
    requires w == INIT
    ensures WorkLeft(w) == 0
  {
  }

  /** Seven completions at most follow from each connection, so no run goes on by itself. */
  lemma RunsAreBounded(ws: seq<World>, steps: seq<Step>)
    requires Run(ws, steps)
    ensures |steps| <= 8 * Accepted(steps)
  {
    WorkBound(ws, steps, |steps|);
    assert steps[..|steps|] == steps;
  }

  // ----- The callbacks as they run -----

  /** Encoding an object brings its header up to date: the walk of UpdateHeaderField, over its fields. */
  method Encode(o: Obj) returns (r: Obj)
    ensures r == Encoded(o)
  {
    var f := (name, v) => RecordSize(name, v);
    ghost var order;
    var payload;
    payload, order := IterateStore(o.fields, f);
    TotalOfSizes(order, f);
    ListingSize(o.fields, order);
    if HEADER_SIZE + 4 + |o.service| + payload >= 0x8000_0000 {
      return o;
    }
    r := o.(header := WithLengths(o.header, o.service, payload));
  }

  /** Two worlds in which the same happens next; once the process has ended, nothing does. */
  ghost predicate Same(a: World, b: World) {
    a.status == b.status && (a.status == Running ==> a == b)
  }

  /** All sessions of the process, with the two policies' callbacks on them. */
  class Kartos {
    var sessions: map<Id, Sess>
    var status: Status

    ghost function View(): World
      reads this
    {
      World(sessions, status)
    }

    constructor ()
      ensures View() == INIT
    {
      sessions, status := map[], Running;
    }

    method DoReadHeader(self: Id)
      requires self in sessions
      modifies this`sessions
      ensures var s := old(sessions)[self];
              sessions == old(sessions)[self := s.(pending := s.pending + multiset{ReadHeader})]
    {
      var s := sessions[self];
      sessions := sessions[self := s.(pending := s.pending + multiset{ReadHeader})];
    }

    method DoReadBody(self: Id)
      requires self in sessions
      modifies this
      ensures var s := old(sessions)[self];
              if s.nowHeader.None? then status == NullDereference
              else status == old(status)
                   && sessions == old(sessions)[self := s.(pending := s.pending + multiset{ReadBody})]
    {
      var s := sessions[self];
      if s.nowHeader.None? {
        status := NullDereference;
        return;
      }
      sessions := sessions[self := s.(pending := s.pending + multiset{ReadBody})];
    }

    method DoWrite(self: Id)
      requires self in sessions
      modifies this
      ensures var s := old(sessions)[self];
              if s.nowObj.None? then status == NullDereference
              else status == old(status) && sessions == old(sessions)[self := Writing(s, s.nowObj.value)]
    {
      var s := sessions[self];
      if s.nowObj.None? {
        status := NullDereference;
        return;
      }
      var o := Encode(s.nowObj.value);
      sessions := sessions[self := s.(nowObj := Some(o), pending := s.pending + multiset{Write},
                                       writes := s.writes + [s.nowObj.value])];
    }

    /** An operation of this session is no longer outstanding. */
    method Completed(self: Id, op: Op)
      requires self in sessions
      modifies this`sessions
      ensures var s := old(sessions)[self]; sessions == old(sessions)[self := s.(pending := s.pending - multiset{op})]
    {
      var s := sessions[self];
      sessions := sessions[self := s.(pending := s.pending - multiset{op})];
    }

    /** A new connection: the policy's OnStart begins to read. */
    method AcceptHandler(id: Id)
      requires Enabled(View(), Accept(id))
      modifies this
      ensures Same(View(), Apply(old(View()), Accept(id)))
    {
      sessions := sessions[id := Sess(None, multiset{}, None, None, None, [])];
      DoReadHeader(id);
      assert multiset{} + multiset{ReadHeader} == multiset{ReadHeader};
    }

    /** The client policy clones its father's object and sends it. */
    method ClientOnConnected(self: Id)
      requires self in sessions
      modifies this
      ensures var s := old(sessions)[self];
              if s.father.None? || s.father.value !in old(sessions) || old(sessions)[s.father.value].nowObj.None?
              then status == NullDereference
              else status == old(status)
                   && sessions == old(sessions)[self := Writing(s, old(sessions)[s.father.value].nowObj.value)]
    {
      var s := sessions[self];
      if s.father.None? || s.father.value !in sessions || sessions[s.father.value].nowObj.None? {
        status := NullDereference;
        return;
      }
      sessions := sessions[self := s.(nowObj := sessions[s.father.value].nowObj)];
      DoWrite(self);
    }

    method ConnectHandler(self: Id, ec: bool)
      requires Enabled(View(), ConnectDone(self, ec)) && sessions[self].father != Some(self)
      modifies this
      ensures Same(View(), Apply(old(View()), ConnectDone(self, ec)))
    {
      hide Writing;
      Completed(self, Connect);
      if !ec {
        ClientOnConnected(self);
      }
    }

    method WriteHandler(self: Id, ec: bool)
      requires Enabled(View(), WriteDone(self, ec))
      modifies this
      ensures Same(View(), Apply(old(View()), WriteDone(self, ec)))
    {
      Completed(self, Write);
      if ec {
        return;
      }
      sessions := sessions[self := sessions[self].(nowObj := None)];
      if sessions[self].father.Some? {
        DoReadHeader(self);
      }
    }

    method HeaderHandler(self: Id, ec: bool, header: Header)
      requires Enabled(View(), HeaderDone(self, ec, header))
      modifies this
      ensures Same(View(), Apply(old(View()), HeaderDone(self, ec, header)))
    {
      Completed(self, ReadHeader);
      if ec {
        return;
      }
      sessions := sessions[self := sessions[self].(nowObj := None, nowHeader := Some(header))];
      DoReadBody(self);
    }

    /** Kartos opens a child for a request whose service it knows; exceptions are caught here. */
    method KartosOnRecv(self: Id, o: Obj, portKnown: bool, child: Id)
      requires self in sessions && sessions[self].father.None?
      requires sessions[self].nowObj == sessions[self].received == Some(o)
      modifies this`sessions
      ensures View() == Received(old(View()), old(sessions)[self], o, self, portKnown, child)
    {
      assert sessions[self := sessions[self]] == sessions;
      if AsksForService(o) && portKnown {
        sessions := sessions[child := Fresh(Some(self), Connect)];
      }
    }

    /** The client policy hands the answer to its father, whose policy writes it. */
    method ClientOnRecv(self: Id, o: Obj)
      requires self in sessions && sessions[self].father.Some? && sessions[self].father != Some(self)
      modifies this
      ensures var f := old(sessions)[self].father.value;
              if f !in old(sessions) then status == NullDereference
              else status == old(status) && sessions == old(sessions)[f := Writing(old(sessions)[f], o)]
    {
      var f := sessions[self].father.value;
      if f !in sessions {
        status := NullDereference;
        return;
      }
      sessions := sessions[f := sessions[f].(nowObj := Some(o))];
      DoWrite(f);
    }

    /** The session has decoded o and gives it to its policy. */
    method OnRecvWholeBladeObject(self: Id, o: Obj, portKnown: bool, child: Id)
      requires self in sessions && sessions[self].father != Some(self) && status == Running
      modifies this
      ensures Same(View(), Received(old(View()), old(sessions)[self], o, self, portKnown, child))
    {
      hide Writing, AsksForService;
      var s := sessions[self];
      sessions := sessions[self := s.(nowObj := Some(o), received := Some(o))];
      if s.father.None? {
        KartosOnRecv(self, o, portKnown, child);
      } else {
        ClientOnRecv(self, o);
      }
    }

    method BodyHandler(self: Id, ec: bool, body: seq<byte>, portKnown: bool, child: Id)
      requires Enabled(View(), BodyDone(self, ec, body, portKnown, child)) && sessions[self].father != Some(self)
      modifies this
      ensures Same(View(), Apply(old(View()), BodyDone(self, ec, body, portKnown, child)))
    {
      hide DecodeBody, Received;
      Completed(self, ReadBody);
      if ec {
        return;
      }
      var s := sessions[self];
      if s.nowHeader.None? {
        status := NullDereference;
        return;
      }
      match DecodeBody(s.nowHeader.value, body) {
        case Null => status := NullDereference;
        case Threw(e) => status := Terminated(e);
        case Decoded(o) =>
          CompletionAside(old(View()), self, s, o, portKnown, child);
          OnRecvWholeBladeObject(self, o, portKnown, child);
      }
    }
  }

  lemma CompletionAside(w: World, id: Id, s: Sess, o: Obj, portKnown: bool, child: Id)
    requires id in w.sessions && s.father != Some(id)
    ensures Same(Received(w.(sessions := w.sessions[id := s]), s, o, id, portKnown, child),
                 Received(w, s, o, id, portKnown, child))
  {
    hide Writing, AsksForService;
    assert w.sessions[id := s][id := s.(nowObj := Some(o), received := Some(o))]
        == w.sessions[id := s.(nowObj := Some(o), received := Some(o))];
  }
}
