/** Any number of threads sharing one interner (`edda-intern/src/lib.rs`, `intern` and `try_resolve`
    under the read-write lock). Taking and releasing the lock, the lookup, the double check, the push
    onto `strings` and the insertion into `lookup` are separate steps that may interleave. */
module InternerThreads {
  import opened Bytes
  import opened Interner

  type Tid = nat

  datatype Op = Intern(s: Str) | Resolve(sym: Symbol)

  datatype Res = Interned(out: Outcome) | Resolved(text: Option<Str>)

  /** Where a thread is. */
  datatype Pc =
    | Idle
    | Called(op: Op)
    | Reading(op: Op)                  // holds the read lock
    | ReadDone(op: Op, res: Res)       // holds the read lock, result known
    | ReadMissed(op: Op)               // holds the read lock, lookup missed
    | Missed(op: Op)                   // no lock, on the way to the write lock
    | Writing(op: Op)                  // holds the write lock
    | Checked(op: Op)                  // double check missed
    | Pushed(op: Op, sym: Symbol)      // `strings` grown, `lookup` not yet
    | WriteDone(op: Op, res: Res)      // holds the write lock, result known
    | Finished(op: Op, res: Res)

  /** Invocation, the instant a call takes effect, and response. */
  datatype Event = Inv(t: Tid, op: Op) | Lin(t: Tid, op: Op, res: Res) | Ret(t: Tid, op: Op, res: Res)

  datatype System = System(
    lookup: map<Str, Symbol>,
    strings: seq<Str>,
    readers: set<Tid>,
    writer: Option<Tid>,
    pcs: map<Tid, Pc>,
    history: seq<Event>)
  {
    function At(t: Tid): Pc {
      if t in pcs then pcs[t] else Idle
    }

    function Move(t: Tid, pc: Pc): System {
      this.(pcs := pcs[t := pc])
    }

    function Note(e: Event): System {
      this.(history := history + [e])
    }
  }

  const Init := System(map[], [], {}, None, map[], [])

  datatype Action =
    | Call(t: Tid, op: Op) | LockRead(t: Tid) | Look(t: Tid) | UnlockRead(t: Tid)
    | LockWrite(t: Tid) | Check(t: Tid) | Push(t: Tid) | Insert(t: Tid) | UnlockWrite(t: Tid)
    | Return(t: Tid)

  predicate Enabled(sys: System, a: Action) {
    match a
    case Call(t, _) => sys.At(t).Idle?
    case LockRead(t) => sys.At(t).Called? && sys.writer.None?
    case Look(t) => sys.At(t).Reading?
    case UnlockRead(t) => sys.At(t).ReadDone? || sys.At(t).ReadMissed?
    case LockWrite(t) => sys.At(t).Missed? && sys.At(t).op.Intern? && sys.writer.None? && sys.readers == {}
    case Check(t) => sys.At(t).Writing? && sys.At(t).op.Intern?
    case Push(t) => sys.At(t).Checked? && sys.At(t).op.Intern?
    case Insert(t) => sys.At(t).Pushed? && sys.At(t).op.Intern?
    case UnlockWrite(t) => sys.At(t).WriteDone?
    case Return(t) => sys.At(t).Finished?
  }

  /** The read-locked section: the map lookup of `intern`, or the index of `try_resolve`. */
  function AfterLook(sys: System, t: Tid): System
    requires sys.At(t).Reading?
  {
    var op := sys.At(t).op;
    match op
    case Intern(s) =>
      if s in sys.lookup then
        var res := Interned(Issued(sys.lookup[s]));
        sys.Move(t, ReadDone(op, res)).Note(Lin(t, op, res))
      else sys.Move(t, ReadMissed(op))
    case Resolve(sym) =>
      var res := Resolved(SeqResolve(sys.strings, sym));
      sys.Move(t, ReadDone(op, res)).Note(Lin(t, op, res))
  }

  /** The double check under the write lock. */
  function AfterCheck(sys: System, t: Tid): System
    requires sys.At(t).Writing? && sys.At(t).op.Intern?
  {
    var op := sys.At(t).op;
    if op.s in sys.lookup then
      var res := Interned(Issued(sys.lookup[op.s]));
      sys.Move(t, WriteDone(op, res)).Note(Lin(t, op, res))
    else if |sys.strings| < U32_MAX then sys.Move(t, Checked(op))
    else sys.Move(t, WriteDone(op, Interned(Exhausted))).Note(Lin(t, op, Interned(Exhausted)))
  }

  function AfterInsert(sys: System, t: Tid): System
    requires sys.At(t).Pushed? && sys.At(t).op.Intern?
  {
    var op, sym := sys.At(t).op, sys.At(t).sym;
    var res := Interned(Issued(sym));
    sys.(lookup := sys.lookup[op.s := sym]).Move(t, WriteDone(op, res)).Note(Lin(t, op, res))
  }

  function Apply(sys: System, a: Action): System
    requires Enabled(sys, a)
  {
    var op := if a.Call? then a.op else sys.At(a.t).op;
    match a
    case Call(t, _) => sys.Move(t, Called(op)).Note(Inv(t, op))
    case LockRead(t) => sys.(readers := sys.readers + {t}).Move(t, Reading(op))
    case Look(t) => AfterLook(sys, t)
    case UnlockRead(t) =>
      sys.(readers := sys.readers - {t})
      .Move(t, if sys.At(t).ReadDone? then Finished(op, sys.At(t).res) else Missed(op))
    case LockWrite(t) => sys.(writer := Some(t)).Move(t, Writing(op))
    case Check(t) => AfterCheck(sys, t)
    case Push(t) => sys.(strings := sys.strings + [op.s]).Move(t, Pushed(op, Symbol(|sys.strings|)))
    case Insert(t) => AfterInsert(sys, t)
    case UnlockWrite(t) => sys.(writer := None).Move(t, Finished(op, sys.At(t).res))
    case Return(t) => sys.Move(t, Idle).Note(Ret(t, op, sys.At(t).res))
  }

  // ----- Histories -----

  /** What one event does to the sequential interner; `None` if its result is wrong. */
  ghost function Replay1(strings: seq<Str>, e: Event): Option<seq<Str>> {
    match e
    case Lin(_, Intern(s), res) =>
      var (after, out) := SeqIntern(strings, s);
      if res == Interned(out) then Some(after) else None
    case Lin(_, Resolve(sym), res) => if res == Resolved(SeqResolve(strings, sym)) then Some(strings) else None
    case _ => Some(strings)
  }

  /** The sequential interner run through the effect points of a history. */
  ghost function Replay(h: seq<Event>): Option<seq<Str>> {
    if h == [] then Some([])
    else
      match Replay(h[..|h| - 1])
      case None => None
      case Some(strings) => Replay1(strings, h[|h| - 1])
  }

  /** How far a thread's current call has come according to the history alone. */
  datatype Phase = Ready | Invoked(op: Op) | Effective(op: Op, res: Res) | Garbled

  ghost function Phase1(p: Phase, t: Tid, e: Event): Phase {
    if e.t != t then p
    else
      match e
      case Inv(_, op) => if p == Ready then Invoked(op) else Garbled
      case Lin(_, op, res) => if p == Invoked(op) then Effective(op, res) else Garbled
      case Ret(_, op, res) => if p == Effective(op, res) then Ready else Garbled
  }

  ghost function PhaseOf(h: seq<Event>, t: Tid): Phase {
    if h == [] then Ready else Phase1(PhaseOf(h[..|h| - 1], t), t, h[|h| - 1])
  }

  ghost function PhaseAt(pc: Pc): Phase {
    match pc
    case Idle => Ready
    case Called(op) => Invoked(op)
    case Reading(op) => Invoked(op)
    case ReadMissed(op) => Invoked(op)
    case Missed(op) => Invoked(op)
    case Writing(op) => Invoked(op)
    case Checked(op) => Invoked(op)
    case Pushed(op, _) => Invoked(op)
    case ReadDone(op, res) => Effective(op, res)
    case WriteDone(op, res) => Effective(op, res)
    case Finished(op, res) => Effective(op, res)
  }

  // ----- The invariant -----

  predicate HoldsRead(pc: Pc) { pc.Reading? || pc.ReadDone? || pc.ReadMissed? }

  predicate HoldsWrite(pc: Pc) { pc.Writing? || pc.Checked? || pc.Pushed? || pc.WriteDone? }

  ghost predicate LockInv(sys: System) {
    && (forall t: Tid :: t in sys.readers <==> HoldsRead(sys.At(t)))
    && (forall t: Tid :: sys.writer == Some(t) <==> HoldsWrite(sys.At(t)))
    && (sys.writer.Some? ==> sys.readers == {})
  }

  ghost predicate MidWrite(sys: System) {
    sys.writer.Some? && sys.At(sys.writer.value).Pushed?
  }

  /** The interned strings: `strings`, without the one whose map entry is still to come. */
  ghost function Committed(sys: System): seq<Str> {
    if MidWrite(sys) && sys.strings != [] then sys.strings[..|sys.strings| - 1] else sys.strings
  }

  ghost predicate WriterInv(sys: System, pc: Pc) {
    && (pc.Checked? ==> pc.op.Intern? && pc.op.s !in sys.lookup && |sys.strings| < U32_MAX)
    && (pc.Pushed? ==> pc.op.Intern? && pc.op.s !in sys.lookup && 0 < |sys.strings| <= U32_MAX
                       && sys.strings[|sys.strings| - 1] == pc.op.s && pc.sym == Symbol(|sys.strings| - 1))
    && (pc.Writing? || pc.Missed? || pc.ReadMissed? ==> pc.op.Intern?)
  }

  ghost predicate DataInv(sys: System) {
    && Inverse(sys.lookup, Committed(sys))
    && forall t: Tid :: WriterInv(sys, sys.At(t))
  }

  ghost predicate HistoryInv(sys: System) {
    && Replay(sys.history) == Some(Committed(sys))
    && forall t: Tid :: PhaseOf(sys.history, t) == PhaseAt(sys.At(t))
  }

  ghost predicate Safe(sys: System) {
    LockInv(sys) && DataInv(sys) && HistoryInv(sys)
  }

  lemma NoteHistory(h: seq<Event>, e: Event)
    ensures Replay(h + [e]) == match Replay(h) case None => None case Some(strings) => Replay1(strings, e)
  {
    assert (h + [e])[..|h|] == h;
  }

  lemma OthersStay(sys: System, a: Action, u: Tid)
    requires Enabled(sys, a) && u != a.t
    ensures Apply(sys, a).At(u) == sys.At(u)
  {
  }

  lemma LockStep(sys: System, a: Action)
    requires Enabled(sys, a) && LockInv(sys)
    ensures LockInv(Apply(sys, a))
  {
    var sys', t := Apply(sys, a), a.t;
    forall u: Tid
      ensures (u in sys'.readers <==> HoldsRead(sys'.At(u))) && (sys'.writer == Some(u) <==> HoldsWrite(sys'.At(u)))
    {
      assert u in sys.readers <==> HoldsRead(sys.At(u));
      assert sys.writer == Some(u) <==> HoldsWrite(sys.At(u));
      assert sys.writer == Some(t) <==> HoldsWrite(sys.At(t));
      if u != t { OthersStay(sys, a, u); }
    }
  }

  lemma WriterStep(sys: System, a: Action, u: Tid)
    requires Enabled(sys, a) && LockInv(sys) && DataInv(sys)
    ensures WriterInv(Apply(sys, a), Apply(sys, a).At(u))
  {
    assert WriterInv(sys, sys.At(u));
    if u != a.t {
      OthersStay(sys, a, u);
      assert HoldsWrite(sys.At(u)) ==> sys.writer == Some(u);
      assert HoldsWrite(sys.At(a.t)) ==> sys.writer == Some(a.t);
    }
  }

  lemma MidWriteStep(sys: System, a: Action)
    requires Enabled(sys, a) && LockInv(sys)
    ensures MidWrite(Apply(sys, a)) <==> a.Push? || (MidWrite(sys) && !a.Insert?)
    ensures a.Look? || a.Check? || a.Push? ==> !MidWrite(sys)
    ensures a.Insert? ==> MidWrite(sys)
  {
    var t := a.t;
    assert sys.writer == Some(t) <==> HoldsWrite(sys.At(t));
    assert t in sys.readers <==> HoldsRead(sys.At(t));
    if sys.writer.Some? && sys.writer.value != t { OthersStay(sys, a, sys.writer.value); }
  }

  /** The list of interned strings changes only when the map entry is inserted, and then by the new
      string at the end. */
  lemma InternedStep(sys: System, a: Action)
    requires Enabled(sys, a) && LockInv(sys) && DataInv(sys)
    ensures Committed(Apply(sys, a))
         == if a.Insert? then Committed(sys) + [sys.At(a.t).op.s] else Committed(sys)
    ensures a.Look? || a.Check? || a.Push? ==> Committed(sys) == sys.strings
    ensures a.Insert? ==> sys.At(a.t).sym == Symbol(|Committed(sys)|) && |Committed(sys)| < U32_MAX
  {
    MidWriteStep(sys, a);
    assert WriterInv(sys, sys.At(a.t));
    var before, after := sys.strings, Apply(sys, a).strings;
    if a.Push? {
      assert after[..|after| - 1] == before;
    } else {
      assert after == before;
    }
    if a.Insert? {
      assert before == before[..|before| - 1] + [sys.At(a.t).op.s];
    }
  }

  lemma DataStep(sys: System, a: Action)
    requires Enabled(sys, a) && LockInv(sys) && DataInv(sys)
    ensures DataInv(Apply(sys, a))
  {
    InternedStep(sys, a);
    assert WriterInv(sys, sys.At(a.t));
    if a.Insert? { InsertKeepsInverse(sys.lookup, Committed(sys), sys.At(a.t).op.s); }
    forall u: Tid ensures WriterInv(Apply(sys, a), Apply(sys, a).At(u)) { WriterStep(sys, a, u); }
  }

  ghost predicate Notes(sys: System, a: Action, e: Event)
    requires Enabled(sys, a)
  {
    Apply(sys, a).history == sys.history + [e] && e.t == a.t
  }

  /** An effect point answers as the sequential interner would. */
  lemma EffectIsSequential(sys: System, a: Action)
    requires Enabled(sys, a) && LockInv(sys) && DataInv(sys)
    ensures Apply(sys, a).history == sys.history || exists e :: Notes(sys, a, e)
    ensures Apply(sys, a).history == sys.history ==> Committed(Apply(sys, a)) == Committed(sys)
    ensures forall e | Notes(sys, a, e) :: Replay1(Committed(sys), e) == Some(Committed(Apply(sys, a)))
  {
    InternedStep(sys, a);
    var sys', t := Apply(sys, a), a.t;
    assert WriterInv(sys, sys.At(t));
    if sys'.history != sys.history {
      var e := sys'.history[|sys.history|];
      assert Notes(sys, a, e);
    }
    if (a.Look? || a.Check? || a.Insert?) && sys.At(t).op.Intern? {
      HitIsSequential(sys.lookup, Committed(sys), sys.At(t).op.s);
    }
  }

  /** The event an action records. */
  ghost function Recorded(sys: System, a: Action): Option<Event>
    requires Enabled(sys, a)
  {
    match a
    case Call(t, op) => Some(Inv(t, op))
    case Look(t) => RecordedBy(sys, t, AfterLook(sys, t).At(t))
    case Check(t) => RecordedBy(sys, t, AfterCheck(sys, t).At(t))
    case Insert(t) => RecordedBy(sys, t, AfterInsert(sys, t).At(t))
    case Return(t) => Some(Ret(t, sys.At(t).op, sys.At(t).res))
    case _ => None
  }

  ghost function RecordedBy(sys: System, t: Tid, pc: Pc): Option<Event> {
    if pc.ReadDone? || pc.WriteDone? then Some(Lin(t, pc.op, pc.res)) else None
  }

  lemma HistoryGrows(sys: System, a: Action)
    requires Enabled(sys, a)
    ensures Apply(sys, a).history == match Recorded(sys, a)
                                     case None => sys.history
                                     case Some(e) => sys.history + [e]
  {
  }

  /** The acting thread's program counter moves as its event says. */
  lemma MoverPhase(sys: System, a: Action)
    requires Enabled(sys, a)
    ensures PhaseAt(Apply(sys, a).At(a.t)) == match Recorded(sys, a)
                                              case None => PhaseAt(sys.At(a.t))
                                              case Some(e) => Phase1(PhaseAt(sys.At(a.t)), a.t, e)
  {
  }

  lemma PhaseNoted(h: seq<Event>, e: Event, t: Tid)
    ensures PhaseOf(h + [e], t) == Phase1(PhaseOf(h, t), t, e)
  {
    assert (h + [e])[..|h|] == h;
  }

  lemma PhaseStep(sys: System, a: Action, u: Tid)
    requires Enabled(sys, a) && PhaseOf(sys.history, u) == PhaseAt(sys.At(u))
    ensures PhaseOf(Apply(sys, a).history, u) == PhaseAt(Apply(sys, a).At(u))
  {
    HistoryGrows(sys, a);
    if u == a.t { MoverPhase(sys, a); } else { OthersStay(sys, a, u); }
    if Recorded(sys, a).Some? {
      PhaseNoted(sys.history, Recorded(sys, a).value, u);
    }
  }

  lemma HistoryStep(sys: System, a: Action)
    requires Enabled(sys, a) && Safe(sys)
    ensures HistoryInv(Apply(sys, a))
  {
    EffectIsSequential(sys, a);
    var sys' := Apply(sys, a);
    if sys'.history != sys.history {
      var e :| Notes(sys, a, e);
      NoteHistory(sys.history, e);
    }
    forall u: Tid ensures PhaseOf(sys'.history, u) == PhaseAt(sys'.At(u)) {
      PhaseStep(sys, a, u);
    }
  }

  /** Every step of every thread keeps the invariant. */
  lemma StepIsSafe(sys: System, a: Action)
    requires Enabled(sys, a) && Safe(sys)
    ensures Safe(Apply(sys, a))
  {
    LockStep(sys, a);
    DataStep(sys, a);
    HistoryStep(sys, a);
  }

  // ----- Whole runs -----

  ghost predicate StepOf(sys: System, a: Action, sys': System) {
    Enabled(sys, a) && sys' == Apply(sys, a)
  }

  ghost predicate Follows(sys: System, sys': System) {
    exists a :: StepOf(sys, a, sys')
  }

  /** A run: any interleaving of any number of threads, from the empty interner. */
  ghost predicate IsRun(run: seq<System>) {
    && run != [] && run[0] == Init
    && forall i | 0 < i < |run| :: Follows(run[i - 1], run[i])
  }

  lemma {:induction false} RunIsSafe(run: seq<System>, i: nat)
    requires IsRun(run) && i < |run|
    ensures Safe(run[i])
  {
    if i > 0 {
      RunIsSafe(run, i - 1);
      assert Follows(run[i - 1], run[i]);
      var a :| StepOf(run[i - 1], a, run[i]);
      StepIsSafe(run[i - 1], a);
    }
  }

  lemma StepOnlyAppends(sys: System, a: Action)
    requires Enabled(sys, a) && LockInv(sys) && DataInv(sys)
    ensures Committed(sys) <= Committed(Apply(sys, a))
    ensures sys.strings <= Apply(sys, a).strings
    ensures sys.history <= Apply(sys, a).history
  {
    InternedStep(sys, a);
  }

  lemma PrefixTransitive<T>(a: seq<T>, b: seq<T>, c: seq<T>)
    requires a <= b && b <= c
    ensures a <= c
  {
  }

  lemma {:induction false} RunOnlyAppends(run: seq<System>, i: nat, j: nat)
    requires IsRun(run) && i <= j < |run|
    ensures Committed(run[i]) <= Committed(run[j])
    ensures run[i].strings <= run[j].strings
    ensures run[i].history <= run[j].history
    decreases j
  {
    if i < j {
      RunOnlyAppends(run, i, j - 1);
      RunIsSafe(run, j - 1);
      var x, y, z := run[i], run[j - 1], run[j];
      assert Follows(y, z);
      var a :| StepOf(y, a, z);
      StepOnlyAppends(y, a);
      PrefixTransitive(Committed(x), Committed(y), Committed(z));
      PrefixTransitive(x.strings, y.strings, z.strings);
      PrefixTransitive(x.history, y.history, z.history);
    }
  }

  /** Every call that took effect is answered by the symbol at which its string sits. */
  lemma {:induction false} IssuedSitsAtIndex(h: seq<Event>, strings: seq<Str>, t: Tid, s: Str, sym: Symbol)
    requires Replay(h) == Some(strings) && Lin(t, Intern(s), Interned(Issued(sym))) in h
    ensures sym.index < |strings| && strings[sym.index] == s
    decreases |h|
  {
    var init, e := h[..|h| - 1], h[|h| - 1];
    assert h == init + [e];
    if Lin(t, Intern(s), Interned(Issued(sym))) in init {
      IssuedSitsAtIndex(init, Replay(init).value, t, s, sym);
    }
  }

  /** The main theorem. Over every run: the map and the vector are inverse whenever no write is half
      done; the history is linearizable, that is each call takes effect once between its invocation
      and its response and the effects replay on the sequential interner; and two interned strings
      get the same symbol exactly when they are equal. */
  lemma RunRefinesSequential(run: seq<System>, i: nat)
    requires IsRun(run) && i < |run|
    ensures Inverse(run[i].lookup, Committed(run[i]))
    ensures !MidWrite(run[i]) ==> Inverse(run[i].lookup, run[i].strings)
    ensures Replay(run[i].history) == Some(Committed(run[i]))
    ensures forall t: Tid :: PhaseOf(run[i].history, t) == PhaseAt(run[i].At(t)) != Garbled
    ensures forall t, s, sym, t', s', sym' |
              && Lin(t, Intern(s), Interned(Issued(sym))) in run[i].history
              && Lin(t', Intern(s'), Interned(Issued(sym'))) in run[i].history :: sym == sym' <==> s == s'
  {
    RunIsSafe(run, i);
    var strings := Committed(run[i]);
    InverseIsDistinct(run[i].lookup, strings);
    forall t, s, sym, t', s', sym' |
      && Lin(t, Intern(s), Interned(Issued(sym))) in run[i].history
      && Lin(t', Intern(s'), Interned(Issued(sym'))) in run[i].history
      ensures sym == sym' <==> s == s'
    {
      IssuedSitsAtIndex(run[i].history, strings, t, s, sym);
      IssuedSitsAtIndex(run[i].history, strings, t', s', sym');
    }
  }

  /** A symbol issued at one point of a run is never the dummy, and resolves to its string at every
      later point, also while another thread is in the middle of an insertion. */
  lemma IssuedResolvesForever(run: seq<System>, i: nat, j: nat, t: Tid, s: Str, sym: Symbol)
    requires IsRun(run) && i <= j < |run| && Lin(t, Intern(s), Interned(Issued(sym))) in run[i].history
    ensures sym != DUMMY
    ensures SeqResolve(run[j].strings, sym) == Some(s)
  {
    RunIsSafe(run, i);
    RunOnlyAppends(run, i, j);
    IssuedSitsAtIndex(run[i].history, Committed(run[i]), t, s, sym);
    assert Committed(run[i])[sym.index] == run[i].strings[sym.index] == run[j].strings[sym.index];
  }

  /** A thread that has returned from `intern` was given the answer its call took effect with. */
  lemma ReturnMatchesEffect(run: seq<System>, i: nat, t: Tid)
    requires IsRun(run) && i < |run| && run[i].At(t).Finished?
    ensures Lin(t, run[i].At(t).op, run[i].At(t).res) in run[i].history
  {
    RunIsSafe(run, i);
    assert PhaseOf(run[i].history, t) == PhaseAt(run[i].At(t));
    EffectiveWasNoted(run[i].history, t, run[i].At(t).op, run[i].At(t).res);
  }

  lemma {:induction false} EffectiveWasNoted(h: seq<Event>, t: Tid, op: Op, res: Res)
    requires PhaseOf(h, t) == Effective(op, res)
    ensures Lin(t, op, res) in h
    decreases |h|
  {
    var init, e := h[..|h| - 1], h[|h| - 1];
    assert h == init + [e];
    if PhaseOf(init, t) == Effective(op, res) { EffectiveWasNoted(init, t, op, res); }
  }
}
