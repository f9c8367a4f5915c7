/**
 * The writer-preferring lock. Every critical section of its mutex is one step: a thread
 * enters, leaves, goes to sleep on a condition variable or looks at its predicate again.
 */
module RWLock {

  type Tid = nat

  datatype Pc =
    | ReaderAsleep   // waiting on cond_read_
    | ReaderAwake    // notified or woken for no reason, has yet to look at the predicate
    | Reading
    | WriterAsleep   // waiting on cond_write_, already counted in write_cnt_
    | WriterAwake
    | Writing
  {
    predicate Writer() { WriterAsleep? || WriterAwake? || Writing? }
    predicate Inside() { Reading? || Writing? }
    predicate Asleep() { ReaderAsleep? || WriterAsleep? }
    predicate Awake() { ReaderAwake? || WriterAwake? }
  }

  /** The fields of the lock, and where every thread that uses it stands; others are not in pcs. */
  datatype State = State(readCnt: int, writeCnt: int, isWriting: bool, pcs: map<Tid, Pc>)

  const INIT := State(0, 0, false, map[])

  datatype Step =
    | LockRead(t: Tid)
    | LockWrite(t: Tid)
    | Recheck(t: Tid)        // a woken waiter holds the mutex again and tests its predicate
    | UnlockRead(t: Tid, woken: set<Tid>)
    | UnlockWrite(t: Tid, woken: set<Tid>)
    | Spurious(t: Tid)

  predicate MayRead(s: State) { s.writeCnt == 0 }

  predicate MayWrite(s: State) { s.readCnt == 0 && !s.isWriting }

  ghost predicate StandsAt(s: State, t: Tid, pc: Pc) {
    t in s.pcs && s.pcs[t] == pc
  }

  /** notify_one wakes one sleeper if there is one. */
  ghost predicate NotifyOne(s: State, pc: Pc, woken: set<Tid>) {
    && (forall u :: u in woken ==> StandsAt(s, u, pc))
    && (woken == {} ==> forall u :: !StandsAt(s, u, pc))
    && (forall u, v :: u in woken && v in woken ==> u == v)
  }

  ghost predicate NotifyAll(s: State, pc: Pc, woken: set<Tid>) {
    forall u :: u in woken <==> StandsAt(s, u, pc)
  }

  ghost predicate NotifyNone(woken: set<Tid>) {
    woken == {}
  }

  function Wake(pcs: map<Tid, Pc>, woken: set<Tid>): map<Tid, Pc> {
    map t | t in pcs ::
      if t in woken && pcs[t] == ReaderAsleep then ReaderAwake
      else if t in woken && pcs[t] == WriterAsleep then WriterAwake
      else pcs[t]
  }

  ghost predicate Enabled(s: State, step: Step) {
    match step
    case LockRead(t) => t !in s.pcs
    case LockWrite(t) => t !in s.pcs
    case Recheck(t) => t in s.pcs && s.pcs[t].Awake()
    case UnlockRead(t, woken) =>
      && t in s.pcs && s.pcs[t] == Reading
      && if s.readCnt - 1 == 0 && s.writeCnt > 0 then NotifyOne(s, WriterAsleep, woken) else NotifyNone(woken)
    case UnlockWrite(t, woken) =>
      && t in s.pcs && s.pcs[t] == Writing
      && if s.writeCnt - 1 == 0 then NotifyAll(s, ReaderAsleep, woken) else NotifyOne(s, WriterAsleep, woken)
    case Spurious(t) => t in s.pcs && s.pcs[t].Asleep()
  }

  function Apply(s: State, step: Step): State {
    match step
    case LockRead(t) =>
      if MayRead(s) then s.(readCnt := s.readCnt + 1, pcs := s.pcs[t := Reading])
      else s.(pcs := s.pcs[t := ReaderAsleep])
    case LockWrite(t) =>
      var s1 := s.(writeCnt := s.writeCnt + 1);
      if MayWrite(s1) then s1.(isWriting := true, pcs := s.pcs[t := Writing])
      else s1.(pcs := s.pcs[t := WriterAsleep])
    case Recheck(t) =>
      if t in s.pcs && s.pcs[t] == WriterAwake then
        if MayWrite(s) then s.(isWriting := true, pcs := s.pcs[t := Writing])
        else s.(pcs := s.pcs[t := WriterAsleep])
      else
        if MayRead(s) then s.(readCnt := s.readCnt + 1, pcs := s.pcs[t := Reading])
        else s.(pcs := s.pcs[t := ReaderAsleep])
    case UnlockRead(t, woken) =>
      s.(readCnt := s.readCnt - 1, pcs := Wake(s.pcs - {t}, woken))
    case UnlockWrite(t, woken) =>
      s.(writeCnt := s.writeCnt - 1, isWriting := false, pcs := Wake(s.pcs - {t}, woken))
    case Spurious(t) =>
      s.(pcs := Wake(s.pcs, {t}))
  }

  /**
   * Whom the two unlocks wake. A reader wakes one sleeping writer if he is the last inside and
   * there is one, and nobody otherwise; the last writer wakes all sleeping readers and no writer,
   * any other one sleeping writer and no reader. Nobody else moves.
   */
  lemma WakesExactly(s: State, step: Step, u: Tid)
    requires Enabled(s, step) && (step.UnlockRead? || step.UnlockWrite?) && u in s.pcs && u != step.t
    ensures u in Apply(s, step).pcs
    ensures !s.pcs[u].Asleep() ==> Apply(s, step).pcs[u] == s.pcs[u]
    ensures s.pcs[u] == ReaderAsleep ==>
              Apply(s, step).pcs[u] == if step.UnlockWrite? && s.writeCnt == 1 then ReaderAwake else ReaderAsleep
    ensures s.pcs[u] == WriterAsleep ==>
              && Apply(s, step).pcs[u] in {WriterAsleep, WriterAwake}
              && (step.UnlockRead? && !(s.readCnt == 1 && s.writeCnt > 0) ==> Apply(s, step).pcs[u] == WriterAsleep)
              && (step.UnlockWrite? && s.writeCnt == 1 ==> Apply(s, step).pcs[u] == WriterAsleep)
              && ((step.UnlockRead? && s.readCnt == 1 && s.writeCnt > 0) || (step.UnlockWrite? && s.writeCnt != 1) ==>
                    exists v :: && StandsAt(s, v, WriterAsleep) && StandsAt(Apply(s, step), v, WriterAwake)
                                && forall x :: StandsAt(s, x, WriterAsleep) && x != v ==>
                                     StandsAt(Apply(s, step), x, WriterAsleep))
  {
    if s.pcs[u] == WriterAsleep {
      assert StandsAt(s, u, WriterAsleep);
      if step.woken != {} {
        var v :| v in step.woken;
        assert v in s.pcs && s.pcs[v] == WriterAsleep ==> v != step.t;
      }
    }
  }

  // ----- The invariant -----

  function ReadersInside(s: State): set<Tid> {
    set t | t in s.pcs && s.pcs[t] == Reading
  }

  function Writers(s: State): set<Tid> {
    set t | t in s.pcs && s.pcs[t].Writer()
  }

  function WritersInside(s: State): set<Tid> {
    set t | t in s.pcs && s.pcs[t] == Writing
  }

  /** The counters count, and whoever writes is alone inside. */
  ghost predicate Counts(s: State) {
    && s.readCnt == |ReadersInside(s)|
    && s.writeCnt == |Writers(s)|
    && |WritersInside(s)| == (if s.isWriting then 1 else 0)
    && (s.isWriting ==> s.readCnt == 0)
  }

  /** Nobody sleeps through the moment the lock becomes free for him. */
  ghost predicate NoLostWakeup(s: State) {
    && ((exists t :: StandsAt(s, t, WriterAsleep)) && MayWrite(s) ==> exists t :: t in s.pcs && s.pcs[t] == WriterAwake)
    && ((exists t :: StandsAt(s, t, ReaderAsleep)) ==> s.writeCnt > 0)
  }

  ghost predicate Inv(s: State) {
    Counts(s) && NoLostWakeup(s)
  }

  lemma Subset<T>(a: set<T>, b: set<T>)
    requires a <= b
    ensures |a| <= |b| && (|a| == |b| ==> a == b)
  {
    assert b == a + (b - a);
  }

  /** Whom a step lets in, or takes out. */
  predicate AdmitsReader(s: State, step: Step) {
    MayRead(s) && (step.LockRead? || (step.Recheck? && step.t in s.pcs && s.pcs[step.t] == ReaderAwake))
  }

  predicate AdmitsWriter(s: State, step: Step) {
    MayWrite(s) && (step.LockWrite? || (step.Recheck? && step.t in s.pcs && s.pcs[step.t] == WriterAwake))
  }

  lemma ReadersAfter(s: State, step: Step)
    requires Enabled(s, step)
    ensures ReadersInside(Apply(s, step)) ==
            if AdmitsReader(s, step) then ReadersInside(s) + {step.t}
            else if step.UnlockRead? then ReadersInside(s) - {step.t}
            else ReadersInside(s)
    ensures step.t in ReadersInside(s) <==> step.UnlockRead?
    ensures AdmitsReader(s, step) ==> !step.UnlockRead?
  {
  }

  lemma WritersAfter(s: State, step: Step)
    requires Enabled(s, step)
    ensures Writers(Apply(s, step)) ==
            if step.LockWrite? then Writers(s) + {step.t}
            else if step.UnlockWrite? then Writers(s) - {step.t}
            else Writers(s)
    ensures step.LockWrite? ==> step.t !in Writers(s)
    ensures step.UnlockWrite? ==> step.t in Writers(s)
  {
  }

  lemma WritersInsideAfter(s: State, step: Step)
    requires Enabled(s, step)
    ensures WritersInside(Apply(s, step)) ==
            if AdmitsWriter(s, step) then WritersInside(s) + {step.t}
            else if step.UnlockWrite? then WritersInside(s) - {step.t}
            else WritersInside(s)
    ensures step.t in WritersInside(s) <==> step.UnlockWrite?
    ensures AdmitsWriter(s, step) ==> !step.UnlockWrite? && !step.UnlockRead? && s.readCnt == 0 && !s.isWriting
    ensures AdmitsReader(s, step) ==> s.writeCnt == 0 && !step.UnlockWrite? && !AdmitsWriter(s, step)
  {
  }

  function One(b: bool): int { if b then 1 else 0 }

  lemma FieldsAfter(s: State, step: Step)
    requires Enabled(s, step) && (step.UnlockWrite? ==> s.isWriting)
    ensures Apply(s, step).readCnt == s.readCnt + One(AdmitsReader(s, step)) - One(step.UnlockRead?)
    ensures Apply(s, step).writeCnt == s.writeCnt + One(step.LockWrite?) - One(step.UnlockWrite?)
    ensures Apply(s, step).isWriting == ((s.isWriting || AdmitsWriter(s, step)) && !step.UnlockWrite?)
  {
  }

  lemma SizeAfter(was: set<Tid>, now: set<Tid>, t: Tid, added: bool, removed: bool)
    requires now == if added then was + {t} else if removed then was - {t} else was
    requires !(added && removed) && (added ==> t !in was) && (removed ==> t in was)
    ensures |now| == |was| + One(added) - One(removed)
  {
  }

  lemma CountsKept(s: State, step: Step)
    requires Counts(s) && Enabled(s, step)
    ensures Counts(Apply(s, step))
  {
    var s', t := Apply(s, step), step.t;
    if step.UnlockWrite? { assert t in WritersInside(s); }
    FieldsAfter(s, step);
    ReadersAfter(s, step);
    WritersAfter(s, step);
    WritersInsideAfter(s, step);
    Subset(WritersInside(s), Writers(s));
    hide Apply, Enabled, ReadersInside, Writers, WritersInside, AdmitsReader, AdmitsWriter;
    SizeAfter(ReadersInside(s), ReadersInside(s'), t, AdmitsReader(s, step), step.UnlockRead?);
    SizeAfter(Writers(s), Writers(s'), t, step.LockWrite?, step.UnlockWrite?);
    SizeAfter(WritersInside(s), WritersInside(s'), t, AdmitsWriter(s, step), step.UnlockWrite?);
  }

  lemma WakeupKept(s: State, step: Step)
    requires Inv(s) && Enabled(s, step)
    ensures NoLostWakeup(Apply(s, step))
  {
    var s', t := Apply(s, step), step.t;
    CountsKept(s, step);
    if (exists u :: StandsAt(s', u, WriterAsleep)) && MayWrite(s') {
      var u :| StandsAt(s', u, WriterAsleep);
      AwakeWriter(s, step, u);
    }
    if exists u :: StandsAt(s', u, ReaderAsleep) {
      var u :| StandsAt(s', u, ReaderAsleep);
      match step
      case LockRead(_) => assert u != t ==> StandsAt(s, u, ReaderAsleep);
      case LockWrite(_) =>
      case Recheck(_) => assert u != t ==> StandsAt(s, u, ReaderAsleep);
      case UnlockRead(_, _) => assert StandsAt(s, u, ReaderAsleep);
      case UnlockWrite(_, woken) => assert StandsAt(s, u, ReaderAsleep);
      case Spurious(_) => assert StandsAt(s, u, ReaderAsleep);
    }
  }

  /** After a step that leaves the lock free, a sleeping writer has an awake one beside it. */
  lemma AwakeWriter(s: State, step: Step, u: Tid)
    requires Inv(s) && Enabled(s, step)
    requires StandsAt(Apply(s, step), u, WriterAsleep) && MayWrite(Apply(s, step))
    ensures exists w :: w in Apply(s, step).pcs && Apply(s, step).pcs[w] == WriterAwake
  {
    var s', t := Apply(s, step), step.t;
    match step
    case LockRead(_) =>
      assert StandsAt(s, u, WriterAsleep);
      var w :| w in s.pcs && s.pcs[w] == WriterAwake;
      assert s'.pcs[w] == WriterAwake;
    case LockWrite(_) =>
    case Recheck(_) =>
      assert StandsAt(s, u, WriterAsleep);
      var w :| w in s.pcs && s.pcs[w] == WriterAwake;
      assert w == t || s'.pcs[w] == WriterAwake;
    case UnlockRead(_, woken) =>
      assert u in Writers(s) && StandsAt(s, u, WriterAsleep);
      assert woken != {};
      var w :| w in woken;
      assert s'.pcs[w] == WriterAwake;
    case UnlockWrite(_, woken) =>
      assert u in Writers(s) - {t} && StandsAt(s, u, WriterAsleep);
      Subset({u}, Writers(s) - {t});
      assert woken != {};
      var w :| w in woken;
      assert s'.pcs[w] == WriterAwake;
    case Spurious(_) =>
      assert StandsAt(s, u, WriterAsleep);
      var w :| w in s.pcs && s.pcs[w] == WriterAwake;
      assert s'.pcs[w] == WriterAwake;
  }

  lemma InvKept(s: State, step: Step)
    requires Inv(s) && Enabled(s, step)
    ensures Inv(Apply(s, step))
  {
    CountsKept(s, step);
    WakeupKept(s, step);
  }

  // ----- Runs -----

  /** steps lead through states one by one; any thread may arrive at any moment. */
  ghost predicate Run(states: seq<State>, steps: seq<Step>) {
    && |states| == |steps| + 1
    && forall i :: 0 <= i < |steps| ==> Enabled(states[i], steps[i]) && states[i + 1] == Apply(states[i], steps[i])
  }

  lemma {:induction false} InvAlways(states: seq<State>, steps: seq<Step>, i: nat)
    requires Run(states, steps) && Inv(states[0]) && i <= |steps|
    ensures Inv(states[i])
    decreases i
  {
    if i > 0 {
      InvAlways(states, steps, i - 1);
      InvKept(states[i - 1], steps[i - 1]);
    }
  }

  lemma InitInv()
    ensures Inv(INIT)
  {
    assert ReadersInside(INIT) == {} && Writers(INIT) == {} && WritersInside(INIT) == {};
  }

  /**
   * In every reachable state the counters are the numbers they stand for, and a writer
   * inside has no other writer and no reader beside it.
   */
  lemma Exclusion(states: seq<State>, steps: seq<Step>, i: nat)
    requires Run(states, steps) && states[0] == INIT && i <= |steps|
    ensures var s := states[i];
            && s.readCnt == |ReadersInside(s)| && s.writeCnt == |Writers(s)|
            && (s.isWriting <==> exists w :: w in s.pcs && s.pcs[w] == Writing)
            && forall w, t :: w in s.pcs && s.pcs[w] == Writing && t in s.pcs && s.pcs[t].Inside() ==> t == w
  {
    InitInv();
    InvAlways(states, steps, i);
    var s := states[i];
    if s.isWriting {
      var w :| w in WritersInside(s);
      assert s.pcs[w] == Writing;
      Subset({w}, WritersInside(s));
      assert ReadersInside(s) == {};
      forall t | t in s.pcs && s.pcs[t].Inside() ensures t == w {
        assert t in ReadersInside(s) || t in WritersInside(s);
      }
    } else {
      assert WritersInside(s) == {};
      assert forall w :: w in s.pcs && s.pcs[w] == Writing ==> w in WritersInside(s);
    }
  }

  /**
   * Whenever someone waits, a holder is inside and can unlock, or some awake waiter finds
   * its predicate true as soon as it looks.
   */
  lemma NoDeadlock(s: State, t: Tid)
    requires Inv(s) && t in s.pcs && !s.pcs[t].Inside()
    ensures (exists h :: h in s.pcs && s.pcs[h].Inside())
            || exists u :: u in s.pcs && s.pcs[u].Awake() && Apply(s, Recheck(u)).pcs[u].Inside()
  {
    if h :| h in s.pcs && s.pcs[h].Inside() {
    } else {
      assert ReadersInside(s) == {} && WritersInside(s) == {};
      if w :| w in s.pcs && s.pcs[w] == WriterAwake {
        assert Apply(s, Recheck(w)).pcs[w].Inside();
      } else {
        assert forall u :: u in s.pcs && s.pcs[u].Writer() ==> StandsAt(s, u, WriterAsleep);
        assert Writers(s) == {} by {
          assert forall u :: !StandsAt(s, u, WriterAsleep);
        }
        assert !StandsAt(s, t, ReaderAsleep);
        assert Apply(s, Recheck(t)).pcs[t].Inside();
      }
    }
  }

  // ----- Writer preference -----

  lemma WriterStays(s: State, step: Step, w: Tid)
    requires Enabled(s, step) && w in Writers(s) && !(step.UnlockWrite? && step.t == w)
    ensures w in Writers(Apply(s, step))
  {
    WritersAfter(s, step);
  }

  /** From the step in which w announces itself until w unlocks, no reader is admitted. */
  lemma {:induction false} WriterPreference(states: seq<State>, steps: seq<Step>, w: Tid, i: nat, j: nat)
    requires Run(states, steps) && states[0] == INIT && i < j <= |steps|
    requires steps[i] == LockWrite(w)
    requires forall k :: i < k < j ==> !(steps[k].UnlockWrite? && steps[k].t == w)
    ensures w in Writers(states[j])
    ensures ReadersInside(states[j]) <= ReadersInside(states[i])
    ensures forall k :: i <= k < j ==> !AdmitsReader(states[k], steps[k])
    decreases j
  {
    ReadersAfter(states[j - 1], steps[j - 1]);
    hide Apply, Enabled, ReadersInside, NoLostWakeup;
    if j == i + 1 {
      WritersAfter(states[i], steps[i]);
    } else {
      WriterPreference(states, steps, w, i, j - 1);
      WriterStays(states[j - 1], steps[j - 1], w);
      InitInv();
      InvAlways(states, steps, j - 1);
      Subset({w}, Writers(states[j - 1]));
    }
  }

  // ----- Everyone is served: without new arrivals every run ends with nobody left -----

  predicate Internal(step: Step) {
    step.Recheck? || step.UnlockRead? || step.UnlockWrite?
  }

  function Waiting(s: State): set<Tid> {
    set t | t in s.pcs && !s.pcs[t].Inside()
  }

  function AwakeOnes(s: State): set<Tid> {
    set t | t in s.pcs && s.pcs[t].Awake()
  }

  /** Threads present, threads waiting, threads awake, in the order they matter. */
  function Work(s: State, n: nat): nat {
    Weight(|s.pcs.Keys|, |Waiting(s)|, |AwakeOnes(s)|, n)
  }

  function Weight(a: nat, b: nat, c: nat, n: nat): nat {
    (a * (n + 1) + b) * (n + 1) + c
  }

  lemma LessWork(a: nat, b: nat, c: nat, a': nat, b': nat, c': nat, n: nat)
    requires b' <= n && c' <= n
    requires a' < a || (a' == a && b' < b) || (a' == a && b' == b && c' < c)
    ensures Weight(a', b', c', n) < Weight(a, b, c, n)
  {
    var m := n + 1;
    var x, x' := a * m + b, a' * m + b';
    if a' < a {
      Times(a', a, m);
    }
    if x' < x {
      Times(x', x, m);
    }
  }

  lemma {:induction false} Times(x: nat, y: nat, m: nat)
    requires x < y
    ensures x * m + m <= y * m
  {
    assert y * m == (y - 1) * m + m;
    if x + 1 < y {
      Times(x, y - 1, m);
    }
  }

  lemma InternalSizes(s: State, step: Step)
    requires Enabled(s, step) && Internal(step)
    ensures Apply(s, step).pcs.Keys <= s.pcs.Keys
    ensures var s' := Apply(s, step);
            || |s'.pcs.Keys| < |s.pcs.Keys|
            || (|s'.pcs.Keys| == |s.pcs.Keys| && |Waiting(s')| < |Waiting(s)|)
            || (|s'.pcs.Keys| == |s.pcs.Keys| && |Waiting(s')| == |Waiting(s)| && |AwakeOnes(s')| < |AwakeOnes(s)|)
  {
    hide NotifyOne, NotifyAll, NotifyNone;
    var s', t := Apply(s, step), step.t;
    if !step.Recheck? {
      assert s'.pcs.Keys == s.pcs.Keys - {t};
    } else {
      RecheckSizes(s, step);
    }
  }

  lemma RecheckSizes(s: State, step: Step)
    requires Enabled(s, step) && step.Recheck?
    ensures Apply(s, step).pcs.Keys == s.pcs.Keys
    ensures var s' := Apply(s, step);
            || |Waiting(s')| < |Waiting(s)|
            || (|Waiting(s')| == |Waiting(s)| && |AwakeOnes(s')| < |AwakeOnes(s)|)
  {
    var s', t := Apply(s, step), step.t;
    if s'.pcs[t].Inside() {
      assert Waiting(s') == Waiting(s) - {t} && t in Waiting(s);
    } else {
      assert Waiting(s') == Waiting(s);
      assert AwakeOnes(s') == AwakeOnes(s) - {t} && t in AwakeOnes(s);
    }
  }

  lemma InternalLessWork(s: State, step: Step, n: nat)
    requires Enabled(s, step) && Internal(step) && |s.pcs.Keys| <= n
    ensures Apply(s, step).pcs.Keys <= s.pcs.Keys && |Apply(s, step).pcs.Keys| <= n
    ensures Work(Apply(s, step), n) < Work(s, n)
  {
    var s' := Apply(s, step);
    InternalSizes(s, step);
    Subset(s'.pcs.Keys, s.pcs.Keys);
    Subset(Waiting(s'), s'.pcs.Keys);
    Subset(AwakeOnes(s'), s'.pcs.Keys);
    hide Apply, Enabled, Waiting, AwakeOnes, Weight;
    LessWork(|s.pcs.Keys|, |Waiting(s)|, |AwakeOnes(s)|, |s'.pcs.Keys|, |Waiting(s')|, |AwakeOnes(s')|, n);
  }

  lemma CanUnlock(s: State, h: Tid) returns (step: Step)
    requires h in s.pcs && s.pcs[h].Inside()
    ensures Enabled(s, step) && Internal(step)
  {
    var woken: set<Tid> := {};
    if s.pcs[h] == Writing && s.writeCnt - 1 == 0 {
      woken := set u | u in s.pcs && s.pcs[u] == ReaderAsleep;
    } else if s.pcs[h] == Writing || (s.readCnt - 1 == 0 && s.writeCnt > 0) {
      if u :| StandsAt(s, u, WriterAsleep) {
        woken := {u};
      }
    }
    step := if s.pcs[h] == Writing then UnlockWrite(h, woken) else UnlockRead(h, woken);
  }

  lemma CanMove(s: State)
    requires Inv(s) && s.pcs != map[]
    ensures exists step :: Enabled(s, step) && Internal(step)
  {
    var t :| t in s.pcs;
    if h :| h in s.pcs && s.pcs[h].Inside() {
      var step := CanUnlock(s, h);
    } else {
      NoDeadlock(s, t);
      var u :| u in s.pcs && s.pcs[u].Awake();
      assert Enabled(s, Recheck(u)) && Internal(Recheck(u));
    }
  }

  /** Waking for no reason makes one look at a predicate more. */
  lemma SpuriousAddsOne(s: State, t: Tid, n: nat)
    requires Enabled(s, Spurious(t))
    ensures Apply(s, Spurious(t)).pcs.Keys == s.pcs.Keys
    ensures Work(Apply(s, Spurious(t)), n) == Work(s, n) + 1
  {
    var s' := Apply(s, Spurious(t));
    assert Waiting(s') == Waiting(s);
    assert AwakeOnes(s') == AwakeOnes(s) + {t} && t !in AwakeOnes(s);
  }

  function SpuriousOnes(steps: seq<Step>): nat {
    if steps == [] then 0
    else SpuriousOnes(steps[..|steps| - 1]) + if steps[|steps| - 1].Spurious? then 1 else 0
  }

  lemma SpuriousNext(steps: seq<Step>, i: nat)
    requires i < |steps|
    ensures SpuriousOnes(steps[..i + 1]) == SpuriousOnes(steps[..i]) + if steps[i].Spurious? then 1 else 0
  {
    assert steps[..i + 1][..i] == steps[..i];
  }

  /** One step of a run without arrivals, against the work there is and the wakeups so far. */
  lemma ServedStep(s: State, step: Step, n: nat)
    requires Inv(s) && Enabled(s, step) && (Internal(step) || step.Spurious?) && |s.pcs.Keys| <= n
    ensures Inv(Apply(s, step)) && |Apply(s, step).pcs.Keys| <= n
    ensures 1 + Work(Apply(s, step), n) <= Work(s, n) + if step.Spurious? then 2 else 0
  {
    InvKept(s, step);
    if step.Spurious? {
      SpuriousAddsOne(s, step.t, n);
    } else {
      InternalLessWork(s, step, n);
    }
  }

  /**
   * Once no new thread arrives, a run can only go on for as many steps as there is work, and
   * two more for every thread woken for no reason. Where no thread can go on by itself, every
   * thread has been in and out.
   */
  lemma {:induction false} EveryoneIsServed(states: seq<State>, steps: seq<Step>)
    requires Run(states, steps) && Inv(states[0])
    requires forall i :: 0 <= i < |steps| ==> Internal(steps[i]) || steps[i].Spurious?
    ensures |steps| <= Work(states[0], |states[0].pcs.Keys|) + 2 * SpuriousOnes(steps)
    ensures (forall step :: Internal(step) ==> !Enabled(states[|steps|], step)) ==> states[|steps|].pcs == map[]
  {
    var n := |states[0].pcs.Keys|;
    hide Apply, Enabled, Inv, Work, SpuriousOnes;
    NoneYet();
    for i := 0 to |steps|
      invariant Inv(states[i]) && |states[i].pcs.Keys| <= n
      invariant i + Work(states[i], n) <= Work(states[0], n) + 2 * SpuriousOnes(steps[..i])
    {
      ServedStep(states[i], steps[i], n);
      SpuriousNext(steps, i);
    }
    assert steps[..|steps|] == steps;
    if states[|steps|].pcs != map[] {
      CanMove(states[|steps|]);
    }
  }

  lemma NoneYet()
    ensures SpuriousOnes([]) == 0
  {
  }

  // ----- The lock as it runs: each method is one critical section of its mutex -----

  class RWLock {
    var readCnt: int
    var writeCnt: int
    var isWriting: bool
    ghost var pcs: map<Tid, Pc>

    ghost function View(): State
      reads this
    {
      State(readCnt, writeCnt, isWriting, pcs)
    }

    constructor ()
      ensures View() == INIT && Inv(View())
    {
      readCnt, writeCnt, isWriting, pcs := 0, 0, false, map[];
      new;
      InitInv();
    }

    /** LockRead up to its return, or up to the wait on cond_read_. */
    method LockRead(ghost t: Tid) returns (entered: bool)
      requires Inv(View()) && t !in pcs
      modifies this
      ensures Inv(View()) && View() == Apply(old(View()), Step.LockRead(t))
      ensures entered <==> StandsAt(View(), t, Reading)
    {
      InvKept(View(), Step.LockRead(t));
      entered := writeCnt == 0;
      if entered {
        readCnt := readCnt + 1;
      }
      pcs := pcs[t := if entered then Reading else ReaderAsleep];
    }

    /** A reader that waited has the mutex again. */
    method WakeReader(ghost t: Tid) returns (entered: bool)
      requires Inv(View()) && StandsAt(View(), t, ReaderAwake)
      modifies this
      ensures Inv(View()) && View() == Apply(old(View()), Recheck(t))
      ensures entered <==> StandsAt(View(), t, Reading)
    {
      InvKept(View(), Recheck(t));
      entered := writeCnt == 0;
      if entered {
        readCnt := readCnt + 1;
      }
      pcs := pcs[t := if entered then Reading else ReaderAsleep];
    }

    /** LockWrite up to its return, or up to the wait on cond_write_. */
    method LockWrite(ghost t: Tid) returns (entered: bool)
      requires Inv(View()) && t !in pcs
      modifies this
      ensures Inv(View()) && View() == Apply(old(View()), Step.LockWrite(t))
      ensures entered <==> StandsAt(View(), t, Writing)
    {
      InvKept(View(), Step.LockWrite(t));
      writeCnt := writeCnt + 1;
      entered := readCnt == 0 && !isWriting;
      if entered {
        isWriting := true;
      }
      pcs := pcs[t := if entered then Writing else WriterAsleep];
    }

    /** A writer that waited has the mutex again. */
    method WakeWriter(ghost t: Tid) returns (entered: bool)
      requires Inv(View()) && StandsAt(View(), t, WriterAwake)
      modifies this
      ensures Inv(View()) && View() == Apply(old(View()), Recheck(t))
      ensures entered <==> StandsAt(View(), t, Writing)
    {
      InvKept(View(), Recheck(t));
      entered := readCnt == 0 && !isWriting;
      if entered {
        isWriting := true;
      }
      pcs := pcs[t := if entered then Writing else WriterAsleep];
    }

    /** Whom notify_one on cond_write_ happens to wake. */
    ghost method NotifyOneWriter() returns (woken: set<Tid>)
      ensures NotifyOne(View(), WriterAsleep, woken)
    {
      if u :| StandsAt(View(), u, WriterAsleep) {
        woken := {u};
      } else {
        woken := {};
      }
    }

    method UnlockRead(ghost t: Tid) returns (ghost woken: set<Tid>)
      requires Inv(View()) && StandsAt(View(), t, Reading)
      modifies this
      ensures Enabled(old(View()), Step.UnlockRead(t, woken))
      ensures Inv(View()) && View() == Apply(old(View()), Step.UnlockRead(t, woken))
    {
      woken := {};
      if readCnt - 1 == 0 && writeCnt > 0 {
        woken := NotifyOneWriter();
      }
      InvKept(View(), Step.UnlockRead(t, woken));
      readCnt := readCnt - 1;
      pcs := Wake(pcs - {t}, woken);
    }

    method UnlockWrite(ghost t: Tid) returns (ghost woken: set<Tid>)
      requires Inv(View()) && StandsAt(View(), t, Writing)
      modifies this
      ensures Enabled(old(View()), Step.UnlockWrite(t, woken))
      ensures Inv(View()) && View() == Apply(old(View()), Step.UnlockWrite(t, woken))
    {
      if writeCnt - 1 == 0 {
        woken := set u | u in pcs && pcs[u] == ReaderAsleep;
      } else {
        woken := NotifyOneWriter();
      }
      InvKept(View(), Step.UnlockWrite(t, woken));
      writeCnt := writeCnt - 1;
      isWriting := false;
      pcs := Wake(pcs - {t}, woken);
    }
  }
}
