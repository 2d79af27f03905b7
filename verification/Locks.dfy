/**
  The locks of the daemon and the hand-over of the silent terminal (core/src/daemon.c,
  core/src/daemon_cmd.c): a state machine over every interleaving of the command reader, the
  animation thread, the key monitor and the signal handler.

  A thread runs routines; a routine is the list of what it does that other threads can notice.
  The kernel sends SIGUSR1 when it wants the silent terminal released, which happens when the
  daemon answers with VT_RELDISP, and SIGUSR2 when it has brought it back to the front.
 */
module Locks {

  datatype Mutex = PaintLock | TtyLock | AnimLock

  datatype Op =
    | Lock(m: Mutex)
    | Unlock(m: Mutex)
    | IfSilent(n: nat)      // if (ctty == CTTY_SILENT): render the theme, in n writes
    | Write                 // one write to the framebuffer
    | Touch                 // objects or lists of the theme are changed
    | BareTouch             // the same, in a routine that does not take the paint lock for it
    | Release               // VT_RELDISP 1
    | Ack                   // VT_RELDISP 2
    | SetCtty(silent: bool)
    | Look                  // anything that changes none of the state below

  datatype Routine =
    | CmdPaint(n: nat) | CmdUpdateSvc | CmdSetTheme | CmdSetGpm | CmdSetMode | CmdProgress | CmdLog | CmdSetMessage | CmdExit(n: nat)
    | AnimRound(n: nat)
    | KeyF2Event | KeyF2Tty | KeyF3(n: nat)
    | SigRelease | SigAcquire(n: nat)

  /** The paint commands: paint, repaint and paint rect. */
  function PaintOps(n: nat): seq<Op> {
    [Lock(PaintLock), IfSilent(n), Unlock(PaintLock)]
  }

  function Render(n: nat): seq<Op> {
    [Touch] + Writes(n)
  }

  function Writes(n: nat): seq<Op> {
    if n == 0 then [] else [Write] + Writes(n - 1)
  }

  function Body(r: Routine): seq<Op> {
    match r
    case CmdPaint(n) => PaintOps(n)
    case CmdUpdateSvc => [Lock(PaintLock), Touch, Lock(AnimLock), Look, Unlock(AnimLock), Unlock(PaintLock)]
    case CmdSetTheme => [Lock(PaintLock), Touch, Unlock(PaintLock)]
    case CmdSetGpm => [Lock(TtyLock), Look, Unlock(TtyLock)]
    case CmdSetMode => [Look]
    case CmdProgress => [BareTouch]
    case CmdLog => [BareTouch]
    case CmdSetMessage => [BareTouch]
    case CmdExit(n) => [Lock(PaintLock), IfSilent(n), Look, Unlock(PaintLock)]
    case AnimRound(n) =>
      // the wait on the condition variable gives AnimLock up and takes it again
      [Lock(PaintLock), Look, Unlock(PaintLock),
       Lock(AnimLock), Unlock(AnimLock), Lock(AnimLock), Unlock(AnimLock),
       Lock(PaintLock), Touch, IfSilent(n), Unlock(PaintLock)]
    case KeyF2Event => [Lock(PaintLock), Look, Unlock(PaintLock), Look]
    case KeyF2Tty => [Lock(TtyLock), Look, Unlock(TtyLock)]
    case KeyF3(n) => [BareTouch] + PaintOps(n)
    case SigRelease =>
      [Lock(PaintLock), Lock(TtyLock), Release, Unlock(TtyLock), SetCtty(false), Unlock(PaintLock)]
    case SigAcquire(n) =>
      [Lock(PaintLock), Lock(TtyLock), Ack, Unlock(TtyLock), SetCtty(true), Unlock(PaintLock),
       Lock(PaintLock), Touch, Unlock(PaintLock)] + PaintOps(n)
  }

  // --------------------------------------------------------------------- the machine

  datatype Held = Held(paint: bool, tty: bool, anim: bool) {
    predicate Has(m: Mutex) {
      match m case PaintLock => paint case TtyLock => tty case AnimLock => anim
    }

    function Set(m: Mutex, b: bool): Held {
      match m case PaintLock => this.(paint := b) case TtyLock => this.(tty := b) case AnimLock => this.(anim := b)
    }
  }

  const NOTHING := Held(false, false, false)

  /** The mutexes a thread holds, and two notes about its past: it has seen ctty to be silent
      since it took the paint lock; it has released the terminal and not yet said so in ctty. */
  datatype Notes = Notes(held: Held, saw: bool, behind: bool)

  const IDLE := Notes(NOTHING, false, false)

  function Then(op: Op, now: Notes): Notes {
    match op
    case Lock(m) => now.(held := now.held.Set(m, true))
    case Unlock(m) => now.(held := now.held.Set(m, false), saw := now.saw && m != PaintLock)
    case Release => now.(saw := false, behind := true)
    case SetCtty(b) => now.(saw := false, behind := now.behind && b)
    case _ => now
  }

  /** A thread: the rest of its routine, and its notes. */
  datatype Thread = Thread(code: seq<Op>, now: Notes)

  const COMMAND := 0
  const ANIMATION := 1
  const KEYS := 2
  const SIGNALS := 3

  function Runner(r: Routine): nat {
    if r.AnimRound? then ANIMATION
    else if r.KeyF2Event? || r.KeyF2Tty? || r.KeyF3? then KEYS
    else if r.SigRelease? || r.SigAcquire? then SIGNALS
    else COMMAND
  }

  /** silent: ctty == CTTY_SILENT.  owned: the silent terminal is in front, so the framebuffer is
      the daemon's.  wanted: the kernel waits for a release.  Pending signals last. */
  datatype State = State(ths: seq<Thread>, silent: bool, owned: bool, wanted: bool, usr1: bool, usr2: bool)

  datatype Event =
    | Begin(r: Routine)
    | Exec(t: nat)
    | KernelWants       // somebody switches away from the silent terminal: SIGUSR1
    | KernelBrings      // somebody switches to it: SIGUSR2

  predicate Free(s: State, m: Mutex) {
    forall u :: 0 <= u < |s.ths| ==> !s.ths[u].now.held.Has(m)
  }

  predicate Enabled(s: State, e: Event) {
    match e
    case Begin(r) =>
      && Runner(r) < |s.ths| && s.ths[Runner(r)].code == []
      && (r.SigRelease? ==> s.usr1) && (r.SigAcquire? ==> s.usr2)
    case Exec(t) =>
      && t < |s.ths| && s.ths[t].code != []
      && (s.ths[t].code[0].Lock? ==> Free(s, s.ths[t].code[0].m))
    case KernelWants => s.owned
    case KernelBrings => !s.owned
  }

  /** What an operation does to its own thread. */
  function Advance(th: Thread, silent: bool): Thread
    requires th.code != []
  {
    var op, rest := th.code[0], th.code[1..];
    if op.IfSilent? && silent then Thread(Render(op.n) + rest, th.now.(saw := true))
    else Thread(rest, Then(op, th.now))
  }

  function Apply(s: State, e: Event): State
    requires Enabled(s, e)
  {
    match e
    case Begin(r) =>
      s.(ths := s.ths[Runner(r) := s.ths[Runner(r)].(code := Body(r))],
         usr1 := s.usr1 && !r.SigRelease?, usr2 := s.usr2 && !r.SigAcquire?)
    case Exec(t) =>
      var op := s.ths[t].code[0];
      var s1 := s.(ths := s.ths[t := Advance(s.ths[t], s.silent)]);
      if op.Release? then s1.(owned := s.owned && !s.wanted, wanted := false)
      else if op.SetCtty? then s1.(silent := op.silent)
      else s1
    case KernelWants => s.(wanted := true, usr1 := true)
    case KernelBrings => s.(owned := true, usr2 := true)
  }

  /** The daemon after start-up: no routine is running. */
  predicate Init(s: State) {
    && |s.ths| == 4 && (forall t :: 0 <= t < 4 ==> s.ths[t] == Thread([], IDLE))
    && (s.silent ==> s.owned) && !s.wanted && !s.usr1 && !s.usr2
  }

  /** Every event is possible when it happens. */
  predicate Legal(s: State, es: seq<Event>)
    decreases |es|, 0
  {
    es == [] || (Legal(s, es[..|es| - 1]) && Enabled(After(s, es[..|es| - 1]), es[|es| - 1]))
  }

  function After(s: State, es: seq<Event>): State
    requires Legal(s, es)
    decreases |es|, 1
  {
    if es == [] then s else Apply(After(s, es[..|es| - 1]), es[|es| - 1])
  }

  // --------------------------------------------------------------- well-behaved code

  /** The rules: the paint lock is taken before the others and never a third one; the theme is
      changed under the paint lock, except by the routines that are known not to; nothing is
      written unless ctty has been seen to be silent under the paint lock; the terminal is
      released, and ctty is set, under the paint lock, which is not given up in between. */
  predicate Allowed(op: Op, now: Notes) {
    match op
    case Lock(m) => now.held == NOTHING || (now.held == NOTHING.(paint := true) && m != PaintLock)
    case Unlock(m) => now.held.Has(m) && (m == PaintLock ==> !now.behind)
    case IfSilent(_) => now.held.paint && !now.behind
    case Write => now.held.paint && now.saw && !now.behind
    case Touch => now.held.paint
    case Release => now.held.paint
    case SetCtty(b) => now.held.paint && (b ==> !now.behind)
    case _ => true
  }

  /** Code that keeps the rules to its end, where no mutex is held. */
  predicate Good(code: seq<Op>, now: Notes)
    decreases |code|
  {
    if code == [] then now.held == NOTHING && !now.behind
    else Allowed(code[0], now) && Good(code[1..], Then(code[0], now))
  }

  lemma Cons(op: Op, rest: seq<Op>, now: Notes)
    requires Allowed(op, now) && Good(rest, Then(op, now))
    ensures Good([op] + rest, now)
  {
    assert ([op] + rest)[1..] == rest;
  }

  /** Good, for code built from literals. */
  predicate GoodFrom(code: seq<Op>, i: nat, now: Notes)
    requires i <= |code|
    decreases |code| - i
  {
    if i == |code| then now.held == NOTHING && !now.behind
    else Allowed(code[i], now) && GoodFrom(code, i + 1, Then(code[i], now))
  }

  lemma {:induction false} FromIsGood(code: seq<Op>, i: nat, now: Notes)
    requires i <= |code|
    ensures GoodFrom(code, i, now) == Good(code[i..], now)
    decreases |code| - i
  {
    if i < |code| {
      FromIsGood(code, i + 1, Then(code[i], now));
      assert code[i..][1..] == code[i + 1..];
    }
  }

  const PAINTING := IDLE.(held := Held(true, false, false))
  const SWITCHING := IDLE.(held := Held(true, true, false))
  const SIGNALLING := IDLE.(held := Held(true, false, true))
  const TTY := IDLE.(held := Held(false, true, false))
  const WAITING := IDLE.(held := Held(false, false, true))

  /** The notes of a thread at the points of a routine, if ctty is not silent. */
  function Points(r: Routine): seq<Notes> {
    match r
    case CmdPaint(_) => [IDLE, PAINTING, PAINTING, IDLE]
    case CmdUpdateSvc => [IDLE, PAINTING, PAINTING, SIGNALLING, SIGNALLING, PAINTING, IDLE]
    case CmdSetTheme => [IDLE, PAINTING, PAINTING, IDLE]
    case CmdSetGpm => [IDLE, TTY, TTY, IDLE]
    case CmdSetMode => [IDLE, IDLE]
    case CmdProgress => [IDLE, IDLE]
    case CmdLog => [IDLE, IDLE]
    case CmdSetMessage => [IDLE, IDLE]
    case CmdExit(_) => [IDLE, PAINTING, PAINTING, PAINTING, IDLE]
    case AnimRound(_) => [IDLE, PAINTING, PAINTING, IDLE, WAITING, IDLE, WAITING, IDLE, PAINTING, PAINTING, PAINTING, IDLE]
    case KeyF2Event => [IDLE, PAINTING, PAINTING, IDLE, IDLE]
    case KeyF2Tty => [IDLE, TTY, TTY, IDLE]
    case KeyF3(_) => [IDLE, IDLE, PAINTING, PAINTING, IDLE]
    case SigRelease =>
      [IDLE, PAINTING, SWITCHING, SWITCHING.(behind := true), PAINTING.(behind := true), PAINTING, IDLE]
    case SigAcquire(_) =>
      [IDLE, PAINTING, SWITCHING, SWITCHING, PAINTING, PAINTING, IDLE, PAINTING, PAINTING, IDLE, PAINTING, PAINTING, IDLE]
  }

  /** Every routine keeps the rules at each of its points. */
  lemma RoutineSteps(r: Routine, i: nat)
    ensures |Points(r)| == |Body(r)| + 1 && Points(r)[0] == Points(r)[|Body(r)|] == IDLE
    ensures i < |Body(r)| ==> Allowed(Body(r)[i], Points(r)[i]) && Then(Body(r)[i], Points(r)[i]) == Points(r)[i + 1]
  {
    if r.AnimRound? {
      AnimSteps(r, i);
    } else if r.SigRelease? {
      ReleaseSteps(r, i);
    } else if r.SigAcquire? {
      AcquireSteps(r, i);
    } else if Runner(r) == KEYS {
      KeySteps(r, i);
    } else {
      CommandSteps(r, i);
    }
  }

  lemma AnimSteps(r: Routine, i: nat)
    requires r.AnimRound?
    ensures |Points(r)| == |Body(r)| + 1 && Points(r)[0] == Points(r)[|Body(r)|] == IDLE
    ensures i < |Body(r)| ==> Allowed(Body(r)[i], Points(r)[i]) && Then(Body(r)[i], Points(r)[i]) == Points(r)[i + 1]
  {
  }

  lemma ReleaseSteps(r: Routine, i: nat)
    requires r.SigRelease?
    ensures |Points(r)| == |Body(r)| + 1 && Points(r)[0] == Points(r)[|Body(r)|] == IDLE
    ensures i < |Body(r)| ==> Allowed(Body(r)[i], Points(r)[i]) && Then(Body(r)[i], Points(r)[i]) == Points(r)[i + 1]
  {
  }

  lemma AcquireSteps(r: Routine, i: nat)
    requires r.SigAcquire?
    ensures |Points(r)| == |Body(r)| + 1 && Points(r)[0] == Points(r)[|Body(r)|] == IDLE
    ensures i < |Body(r)| ==> Allowed(Body(r)[i], Points(r)[i]) && Then(Body(r)[i], Points(r)[i]) == Points(r)[i + 1]
  {
  }

  lemma KeySteps(r: Routine, i: nat)
    requires Runner(r) == KEYS
    ensures |Points(r)| == |Body(r)| + 1 && Points(r)[0] == Points(r)[|Body(r)|] == IDLE
    ensures i < |Body(r)| ==> Allowed(Body(r)[i], Points(r)[i]) && Then(Body(r)[i], Points(r)[i]) == Points(r)[i + 1]
  {
  }

  lemma CommandSteps(r: Routine, i: nat)
    requires Runner(r) == COMMAND
    ensures |Points(r)| == |Body(r)| + 1 && Points(r)[0] == Points(r)[|Body(r)|] == IDLE
    ensures i < |Body(r)| ==> Allowed(Body(r)[i], Points(r)[i]) && Then(Body(r)[i], Points(r)[i]) == Points(r)[i + 1]
  {
  }

  lemma {:induction false} RoutineGoodFrom(r: Routine, i: nat)
    requires i <= |Body(r)| < |Points(r)|
    ensures GoodFrom(Body(r), i, Points(r)[i])
    decreases |Body(r)| - i
  {
    hide Body, Points, Allowed, Then;
    RoutineSteps(r, i);
    if i < |Body(r)| {
      RoutineGoodFrom(r, i + 1);
    }
  }

  lemma RoutineIsGood(r: Routine)
    ensures Good(Body(r), IDLE)
  {
    hide Body, Points, Good, GoodFrom;
    RoutineSteps(r, 0);
    RoutineGoodFrom(r, 0);
    FromIsGood(Body(r), 0, IDLE);
    assert Body(r)[0..] == Body(r);
  }

  lemma {:induction false} SawMore(code: seq<Op>, now: Notes)
    requires Good(code, now)
    ensures Good(code, now.(saw := true))
    decreases |code|
  {
    if code != [] {
      var next := Then(code[0], now);
      SawMore(code[1..], next);
      assert Then(code[0], now.(saw := true)) == next || Then(code[0], now.(saw := true)) == next.(saw := true);
    }
  }

  lemma {:induction false} WritesGood(n: nat, rest: seq<Op>, now: Notes)
    requires Good(rest, now) && now.held.paint && now.saw && !now.behind
    ensures Good(Writes(n) + rest, now)
    decreases n
  {
    if n == 0 {
      assert Writes(0) + rest == rest;
    } else {
      WritesGood(n - 1, rest, now);
      assert Writes(n) + rest == [Write] + (Writes(n - 1) + rest);
      Cons(Write, Writes(n - 1) + rest, now);
    }
  }

  /** A step of a thread leaves it with code that keeps the rules. */
  lemma AdvanceGood(th: Thread, silent: bool)
    requires th.code != [] && Good(th.code, th.now)
    ensures Good(Advance(th, silent).code, Advance(th, silent).now)
  {
    hide Allowed;
    var op, rest := th.code[0], th.code[1..];
    if op.IfSilent? && silent {
      var now := th.now.(saw := true);
      SawMore(rest, th.now);
      assert now.held.paint && !now.behind by { IfSilentAllowed(op, th.now); }
      WritesGood(op.n, rest, now);
      assert Render(op.n) + rest == [Touch] + (Writes(op.n) + rest);
      TouchAllowed(now);
      Cons(Touch, Writes(op.n) + rest, now);
    }
  }

  lemma IfSilentAllowed(op: Op, now: Notes)
    requires op.IfSilent? && Allowed(op, now)
    ensures now.held.paint && !now.behind
  {
  }

  lemma TouchAllowed(now: Notes)
    requires now.held.paint
    ensures Allowed(Touch, now)
  {
  }

  // ------------------------------------------------------------------- the invariant

  ghost predicate AllGood(s: State) {
    forall t :: 0 <= t < |s.ths| ==> Good(s.ths[t].code, s.ths[t].now)
  }

  /** No mutex has two holders. */
  ghost predicate Exclusive(s: State) {
    forall t, u, m :: 0 <= t < |s.ths| && 0 <= u < |s.ths| && s.ths[t].now.held.Has(m) && s.ths[u].now.held.Has(m) ==> t == u
  }

  /** Who has seen ctty silent is right and holds the paint lock, as does who is behind with it. */
  ghost predicate NotesRight(s: State) {
    forall t :: 0 <= t < |s.ths| ==>
      && (s.ths[t].now.saw ==> s.ths[t].now.held.Has(PaintLock) && s.silent)
      && (s.ths[t].now.behind ==> s.ths[t].now.held.Has(PaintLock))
  }

  /** Unless a thread is behind with it, a silent ctty means that the framebuffer is the daemon's. */
  ghost predicate CttyRight(s: State) {
    s.silent && !s.owned ==> exists t :: 0 <= t < |s.ths| && s.ths[t].now.behind
  }

  /** What every reachable state keeps, whatever the kernel does. */
  ghost predicate Base(s: State) {
    |s.ths| == 4 && AllGood(s) && Exclusive(s) && NotesRight(s)
  }

  /** What every reachable state keeps as long as acknowledgements are fresh. */
  ghost predicate Inv(s: State) {
    Base(s) && CttyRight(s)
  }

  /** The daemon sets ctty to silent only while the terminal is in front. */
  predicate FreshAck(s: State, e: Event)
    requires Enabled(s, e)
  {
    e.Exec? && s.ths[e.t].code[0] == SetCtty(true) ==> s.owned
  }

  lemma InitInv(s: State)
    requires Init(s)
    ensures Inv(s)
  {
  }

  lemma IdleThread(s: State, t: nat)
    requires Base(s) && t < 4 && s.ths[t].code == []
    ensures s.ths[t].now == IDLE
  {
  }

  /** The notes of the moving thread after an operation. */
  lemma NextNotes(s: State, t: nat)
    requires Enabled(s, Exec(t))
    ensures var th := s.ths[t];
            var s' := Apply(s, Exec(t));
            && |s'.ths| == |s.ths| && (forall u :: 0 <= u < |s.ths| && u != t ==> s'.ths[u] == s.ths[u])
            && s'.ths[t].now == (if th.code[0].IfSilent? && s.silent then th.now.(saw := true) else Then(th.code[0], th.now))
            && s'.silent == (if th.code[0].SetCtty? then th.code[0].silent else s.silent)
            && s'.owned == (s.owned && !(th.code[0].Release? && s.wanted))
  {
    hide Render, Free;
  }

  lemma HeldNext(op: Op, now: Notes, m: Mutex)
    ensures Then(op, now).held.Has(m) ==> now.held.Has(m) || op == Lock(m)
    ensures now.(saw := true).held == now.held
  {
  }

  lemma ExecExclusive(s: State, t: nat)
    requires Base(s) && Enabled(s, Exec(t))
    ensures Exclusive(Apply(s, Exec(t)))
  {
    NextNotes(s, t);
    var op := s.ths[t].code[0];
    var s' := Apply(s, Exec(t));
    forall u, v, m | 0 <= u < 4 && 0 <= v < 4 && s'.ths[u].now.held.Has(m) && s'.ths[v].now.held.Has(m) ensures u == v {
      hide Apply, AllGood, NotesRight, CttyRight, Then, s'.ths[u].now.held.Has;
      HeldNext(op, s.ths[t].now, m);
      assert op == Lock(m) ==> Free(s, m);
    }
  }

  lemma MayDo(s: State, t: nat)
    requires Base(s) && t < 4 && s.ths[t].code != []
    ensures Allowed(s.ths[t].code[0], s.ths[t].now)
  {
  }

  /** What an allowed operation does to the notes. */
  lemma NotesNext(op: Op, now: Notes)
    requires Allowed(op, now) && (now.saw ==> now.held.Has(PaintLock)) && (now.behind ==> now.held.Has(PaintLock))
    ensures var next := Then(op, now);
            && (next.saw ==> now.saw && !op.SetCtty? && next.held.Has(PaintLock))
            && (next.behind ==> next.held.Has(PaintLock))
            && (now.behind && !next.behind ==> op == SetCtty(false))
            && (op.Release? ==> next.behind)
    ensures op.SetCtty? || op.IfSilent? ==> now.held.Has(PaintLock)
  {
  }

  lemma ExecNotes(s: State, t: nat)
    requires Base(s) && Enabled(s, Exec(t))
    ensures NotesRight(Apply(s, Exec(t)))
  {
    var op, now := s.ths[t].code[0], s.ths[t].now;
    MayDo(s, t);
    NextNotes(s, t);
    NotesNext(op, now);
    hide Apply, AllGood, CttyRight, Then, Allowed, Free, now.held.Has;
    var s' := Apply(s, Exec(t));
    forall u | 0 <= u < 4
      ensures s'.ths[u].now.saw ==> s'.ths[u].now.held.Has(PaintLock) && s'.silent
      ensures s'.ths[u].now.behind ==> s'.ths[u].now.held.Has(PaintLock)
    {
      if u != t && op.SetCtty? {
        assert s.ths[t].now.held.Has(PaintLock);
      }
    }
  }

  lemma ExecCtty(s: State, t: nat)
    requires Inv(s) && Enabled(s, Exec(t)) && FreshAck(s, Exec(t))
    ensures CttyRight(Apply(s, Exec(t)))
  {
    var op, now := s.ths[t].code[0], s.ths[t].now;
    MayDo(s, t);
    NextNotes(s, t);
    assert (now.saw ==> now.held.Has(PaintLock)) && (now.behind ==> now.held.Has(PaintLock));
    NotesNext(op, now);
    hide Apply, AllGood, Exclusive, NotesRight, Then, Allowed, Free, now.held.Has;
    var s' := Apply(s, Exec(t));
    if s'.silent && !s'.owned {
      if op.Release? {
        assert s'.ths[t].now.behind;
      } else if s.silent {
        var b :| 0 <= b < 4 && s.ths[b].now.behind;
        assert s'.ths[b].now.behind;
      }
    }
  }

  lemma ExecGood(s: State, t: nat)
    requires Base(s) && Enabled(s, Exec(t))
    ensures AllGood(Apply(s, Exec(t)))
  {
    AdvanceGood(s.ths[t], s.silent);
    hide Good, Exclusive, NotesRight, CttyRight, Advance, Free;
  }

  lemma ExecBase(s: State, t: nat)
    requires Base(s) && Enabled(s, Exec(t))
    ensures Base(Apply(s, Exec(t)))
  {
    NextNotes(s, t);
    ExecGood(s, t);
    ExecExclusive(s, t);
    ExecNotes(s, t);
    hide AllGood, Exclusive, NotesRight, Apply;
  }

  lemma BeginBase(s: State, r: Routine)
    requires Base(s) && Enabled(s, Begin(r))
    ensures Base(Apply(s, Begin(r)))
    ensures CttyRight(s) ==> CttyRight(Apply(s, Begin(r)))
  {
    RoutineIsGood(r);
    IdleThread(s, Runner(r));
    hide Good, Body;
    var s' := Apply(s, Begin(r));
    assert forall u :: 0 <= u < 4 ==> s'.ths[u].now == s.ths[u].now;
    if CttyRight(s) && s.silent && !s.owned {
      var b :| 0 <= b < 4 && s.ths[b].now.behind;
      assert s'.ths[b].now.behind;
    }
  }

  lemma KernelBase(s: State, e: Event)
    requires Base(s) && Enabled(s, e) && (e.KernelWants? || e.KernelBrings?)
    ensures Base(Apply(s, e))
    ensures CttyRight(s) ==> CttyRight(Apply(s, e))
  {
    hide Good;
    assert Apply(s, e).ths == s.ths;
  }

  /** Every step keeps the basic invariant. */
  lemma StepBase(s: State, e: Event)
    requires Base(s) && Enabled(s, e)
    ensures Base(Apply(s, e))
  {
    if e.Begin? {
      BeginBase(s, e.r);
    } else if e.Exec? {
      ExecBase(s, e.t);
    } else {
      KernelBase(s, e);
    }
  }

  /** Every step keeps the invariant, as long as acknowledgements are fresh. */
  lemma StepInv(s: State, e: Event)
    requires Inv(s) && Enabled(s, e) && FreshAck(s, e)
    ensures Inv(Apply(s, e))
  {
    StepBase(s, e);
    hide Base;
    if e.Begin? {
      BeginBase(s, e.r);
    } else if e.Exec? {
      ExecCtty(s, e.t);
    } else {
      KernelBase(s, e);
    }
  }

  lemma {:induction false} RunBase(s: State, es: seq<Event>)
    requires Init(s) && Legal(s, es)
    ensures Base(After(s, es))
    decreases |es|
  {
    hide Base, Apply, Enabled, Init;
    if es == [] {
      InitInv(s);
    } else {
      RunBase(s, es[..|es| - 1]);
      StepBase(After(s, es[..|es| - 1]), es[|es| - 1]);
    }
  }

  predicate FreshRun(s: State, es: seq<Event>)
    requires Legal(s, es)
    decreases |es|
  {
    es == [] || (FreshRun(s, es[..|es| - 1]) && FreshAck(After(s, es[..|es| - 1]), es[|es| - 1]))
  }

  /** A run from a state that has the invariant keeps it while acknowledgements are fresh. */
  lemma {:induction false} RunInv(s: State, es: seq<Event>)
    requires Inv(s) && Legal(s, es) && FreshRun(s, es)
    ensures Inv(After(s, es))
    decreases |es|
  {
    hide Inv, Apply, Enabled, FreshAck;
    if es != [] {
      RunInv(s, es[..|es| - 1]);
      StepInv(After(s, es[..|es| - 1]), es[|es| - 1]);
    }
  }

  // ------------------------------------------------------------ who may write, and when

  predicate AtOp(s: State, t: nat, op: Op) {
    t < |s.ths| && s.ths[t].code != [] && s.ths[t].code[0] == op
  }

  /** A write to the framebuffer is about to happen while the terminal is not the daemon's. */
  ghost predicate StrayWrite(s: State) {
    !s.owned && exists t :: AtOp(s, t, Write)
  }

  lemma NoStrayWrite(s: State)
    requires Inv(s)
    ensures !StrayWrite(s)
  {
    forall t | AtOp(s, t, Write) ensures s.owned {
      MayDo(s, t);
      HoldersOf(s, t);
    }
  }

  /** In every interleaving with fresh acknowledgements, a thread about to write to the
      framebuffer holds the paint lock, the daemon owns the silent terminal, and no other thread
      is about to write. */
  lemma WritesAreOwned(s: State, es: seq<Event>, t: nat)
    requires Init(s) && Legal(s, es) && FreshRun(s, es) && AtOp(After(s, es), t, Write)
    ensures After(s, es).owned && After(s, es).ths[t].now.held.paint
    ensures forall u :: AtOp(After(s, es), u, Write) ==> u == t
  {
    InitInv(s);
    RunInv(s, es);
    var r := After(s, es);
    hide Init, Legal, After, FreshRun;
    NoStrayWrite(r);
    MayDo(r, t);
    HoldersOf(r, t);
    forall u | AtOp(r, u, Write) ensures u == t {
      MayDo(r, u);
      HoldersOf(r, u);
    }
  }

  lemma HoldersOf(s: State, t: nat)
    requires Base(s) && t < 4
    ensures s.ths[t].now.held.paint ==> s.ths[t].now.held.Has(PaintLock)
  {
  }

  // ------------------------------------------------------------------- no deadlock

  /** Thread a waits for a mutex that thread b holds. */
  predicate WaitsFor(s: State, a: nat, b: nat) {
    && a < |s.ths| && b < |s.ths| && s.ths[a].code != []
    && s.ths[a].code[0].Lock? && s.ths[b].now.held.Has(s.ths[a].code[0].m)
  }

  /** A thread that waits holds the paint lock or nothing, and does not wait for itself. */
  lemma WaiterHolds(s: State, a: nat, b: nat)
    requires Base(s) && WaitsFor(s, a, b)
    ensures a != b && s.ths[a].now.held != s.ths[b].now.held
    ensures forall m :: s.ths[a].now.held.Has(m) ==> m == PaintLock && s.ths[a].code[0].m != PaintLock
  {
    MayDo(s, a);
  }

  /** Waiting chains are short: whoever is waited for by a waiting thread does not wait. */
  lemma ChainsAreShort(s: State, a: nat, b: nat, c: nat, d: nat)
    requires Base(s) && WaitsFor(s, a, b) && WaitsFor(s, b, c)
    ensures !WaitsFor(s, c, d)
  {
    WaiterHolds(s, a, b);
    WaiterHolds(s, b, c);
    if WaitsFor(s, c, d) {
      WaiterHolds(s, c, d);
    }
  }

  /** The next position around a cycle of n. */
  function Around(i: nat, n: nat): nat
    requires i < n
    ensures Around(i, n) < n
  {
    if i + 1 == n then 0 else i + 1
  }

  /** In every interleaving, whatever the kernel does, there is no cycle of threads that wait for
      each other. */
  lemma NoWaitCycle(s: State, es: seq<Event>, cycle: seq<nat>)
    requires Init(s) && Legal(s, es) && |cycle| > 0
    ensures exists i :: 0 <= i < |cycle| && !WaitsFor(After(s, es), cycle[i], cycle[Around(i, |cycle|)])
  {
    RunBase(s, es);
    hide Base, WaitsFor, Init, Legal, After;
    var r, n := After(s, es), |cycle|;
    var i2 := Around(0, n);
    var i3 := Around(i2, n);
    if WaitsFor(r, cycle[0], cycle[i2]) && WaitsFor(r, cycle[i2], cycle[i3]) {
      ChainsAreShort(r, cycle[0], cycle[i2], cycle[i3], cycle[Around(i3, n)]);
    }
  }

  lemma Blocked(s: State, t: nat) returns (b: nat)
    requires Base(s) && t < 4 && s.ths[t].code != [] && !Enabled(s, Exec(t))
    ensures WaitsFor(s, t, b)
  {
    b :| b < 4 && s.ths[b].now.held.Has(s.ths[t].code[0].m);
  }

  /** Who is waited for by a thread that holds a mutex can go on. */
  lemma WaitedForGoesOn(s: State, t: nat, b: nat, m: Mutex)
    requires Base(s) && WaitsFor(s, t, b) && s.ths[t].now.held.Has(m)
    ensures Enabled(s, Exec(b)) && s.ths[b].now.held != NOTHING
  {
    WaiterHolds(s, t, b);
    HolderHasCode(s, b, s.ths[t].code[0].m);
    hide Base;
    if !Enabled(s, Exec(b)) {
      var c := Blocked(s, b);
      WaiterHolds(s, b, c);
    }
  }

  /** While any thread holds a mutex, some thread that holds one can go on. */
  lemma HoldersGoOn(s: State, es: seq<Event>, t: nat, m: Mutex)
    requires Init(s) && Legal(s, es) && t < |After(s, es).ths| && After(s, es).ths[t].now.held.Has(m)
    ensures exists u :: 0 <= u < |After(s, es).ths| && After(s, es).ths[u].now.held != NOTHING && Enabled(After(s, es), Exec(u))
  {
    RunBase(s, es);
    var r := After(s, es);
    hide Init, Legal, After;
    FourThreads(r);
    HolderHasCode(r, t, m);
    hide Base, Enabled;
    if !Enabled(r, Exec(t)) {
      var b := Blocked(r, t);
      WaitedForGoesOn(r, t, b, m);
      WaitersAreThreads(r, t, b);
    }
  }

  lemma FourThreads(s: State)
    requires Base(s)
    ensures |s.ths| == 4
  {
  }

  lemma WaitersAreThreads(s: State, a: nat, b: nat)
    requires WaitsFor(s, a, b)
    ensures a < |s.ths| && b < |s.ths|
  {
  }

  lemma HolderHasCode(s: State, t: nat, m: Mutex)
    requires Base(s) && t < 4 && s.ths[t].now.held.Has(m)
    ensures s.ths[t].code != [] && s.ths[t].now.held != NOTHING
  {
  }

  // -------------------------------------------------------------- access to the theme

  /** In every interleaving at most one thread is about to change the theme under the paint
      lock, or to write. */
  lemma ThemeIsGuarded(s: State, es: seq<Event>, t: nat, u: nat)
    requires Init(s) && Legal(s, es)
    requires AtOp(After(s, es), t, Touch) || AtOp(After(s, es), t, Write)
    requires AtOp(After(s, es), u, Touch) || AtOp(After(s, es), u, Write)
    ensures t == u
  {
    RunBase(s, es);
    var r := After(s, es);
    hide Init, Legal, After;
    MayDo(r, t);
    HoldersOf(r, t);
    MayDo(r, u);
    HoldersOf(r, u);
  }

  /** The routines that change the theme without the paint lock; set message does so where
      TrueType text is built in. */
  predicate ChangesBare(r: Routine) {
    r.CmdProgress? || r.CmdLog? || r.CmdSetMessage? || r.KeyF3?
  }

  /** A thread is about to change the theme, with or without the lock, or to render it. */
  predicate Access(s: State, t: nat) {
    AtOp(s, t, Touch) || AtOp(s, t, BareTouch) || AtOp(s, t, Write)
  }

  ghost predicate BeginsOnly(es: seq<Event>, rs: iset<Routine>) {
    forall i :: 0 <= i < |es| && es[i].Begin? ==> es[i].r in rs
  }

  /** No interleaving of the given routines brings two threads to the theme at once. */
  ghost predicate AccessAlone(rs: iset<Routine>) {
    forall s, es, t, u :: Init(s) && Legal(s, es) && BeginsOnly(es, rs) && Access(After(s, es), t) && Access(After(s, es), u)
      ==> t == u
  }

  ghost predicate NoBareTouch(s: State) {
    |s.ths| == 4 && forall t :: 0 <= t < 4 ==> BareTouch !in s.ths[t].code
  }

  lemma BareBody(r: Routine)
    ensures BareTouch in Body(r) ==> ChangesBare(r)
    ensures ChangesBare(r) ==> Body(r) != [] && Body(r)[0] == BareTouch && Runner(r) != ANIMATION
  {
  }

  lemma StepNoBareTouch(s: State, e: Event)
    requires NoBareTouch(s) && Enabled(s, e) && (e.Begin? ==> !ChangesBare(e.r))
    ensures NoBareTouch(Apply(s, e))
  {
    hide Body, Advance, ChangesBare;
    if e.Begin? {
      BareBody(e.r);
    } else if e.Exec? && BareTouch in Advance(s.ths[e.t], s.silent).code {
      AdvanceOps(s.ths[e.t], s.silent, BareTouch);
    }
  }

  lemma {:induction false} RunNoBareTouch(s: State, es: seq<Event>, rs: iset<Routine>)
    requires Init(s) && Legal(s, es) && BeginsOnly(es, rs) && forall r :: r in rs ==> !ChangesBare(r)
    ensures NoBareTouch(After(s, es))
    decreases |es|
  {
    hide Apply, Enabled, ChangesBare;
    if es != [] {
      RunNoBareTouch(s, es[..|es| - 1], rs);
      StepNoBareTouch(After(s, es[..|es| - 1]), es[|es| - 1]);
    }
  }

  /** Only the animation thread is at work. */
  function Animating(th: Thread): State {
    var idle := Thread([], IDLE);
    State([idle, th, idle, idle], false, false, false, false, false)
  }

  lemma AnimatingFree(th: Thread, m: Mutex)
    requires !th.now.held.Has(m)
    ensures Free(Animating(th), m)
  {
  }

  /** One more step of the animation thread on its own. */
  lemma AnimationStep(s: State, es: seq<Event>, op: Op, rest: seq<Op>, now: Notes, rs: iset<Routine>) returns (es': seq<Event>)
    requires Legal(s, es) && After(s, es) == Animating(Thread([op] + rest, now)) && BeginsOnly(es, rs)
    requires (op.Lock? && !now.held.Has(op.m)) || op.Unlock? || op.Look?
    ensures Legal(s, es') && After(s, es') == Animating(Thread(rest, Then(op, now))) && BeginsOnly(es', rs)
  {
    var r := Animating(Thread([op] + rest, now));
    if op.Lock? {
      AnimatingFree(r.ths[ANIMATION], op.m);
    }
    assert r.ths[ANIMATION].code[0] == op && r.ths[ANIMATION].code[1..] == rest;
    assert Apply(r, Exec(ANIMATION)).ths == Animating(Thread(rest, Then(op, now))).ths;
    hide Then, Free, Legal, After;
    es' := es + [Exec(ANIMATION)];
    Longer(s, es, Exec(ANIMATION));
  }

  /** The animation thread up to the wait on its condition variable, and from there to its
      change of the theme. */
  lemma AnimationWaits(s: State, n: nat, rs: iset<Routine>, c4: seq<Op>) returns (es: seq<Event>)
    requires s == Animating(Thread([], IDLE)) && AnimRound(n) in rs
    requires Body(AnimRound(n)) == [Lock(PaintLock)] + ([Look] + ([Unlock(PaintLock)] + c4))
    ensures Legal(s, es) && After(s, es) == Animating(Thread(c4, IDLE)) && BeginsOnly(es, rs)
  {
    EmptyRun(s);
    Longer(s, [], Begin(AnimRound(n)));
    es := [] + [Begin(AnimRound(n))];
    assert After(s, es).ths == Animating(Thread(Body(AnimRound(n)), IDLE)).ths;
    hide Legal, After, Body, Animating;
    es := AnimationStep(s, es, Lock(PaintLock), [Look] + ([Unlock(PaintLock)] + c4), IDLE, rs);
    es := AnimationStep(s, es, Look, [Unlock(PaintLock)] + c4, PAINTING, rs);
    es := AnimationStep(s, es, Unlock(PaintLock), c4, PAINTING, rs);
  }

  lemma AnimationAtTheme(s: State, n: nat, rs: iset<Routine>) returns (es: seq<Event>)
    requires s == Animating(Thread([], IDLE)) && AnimRound(n) in rs
    ensures Legal(s, es) && BeginsOnly(es, rs)
    ensures After(s, es) == Animating(Thread([Touch] + [IfSilent(n), Unlock(PaintLock)], PAINTING))
  {
    var c9 := [Touch] + [IfSilent(n), Unlock(PaintLock)];
    var c8 := [Lock(PaintLock)] + c9;
    var c7 := [Unlock(AnimLock)] + c8;
    var c6 := [Lock(AnimLock)] + c7;
    var c5 := [Unlock(AnimLock)] + c6;
    var c4 := [Lock(AnimLock)] + c5;
    assert Body(AnimRound(n)) == [Lock(PaintLock)] + ([Look] + ([Unlock(PaintLock)] + c4));
    hide Legal, After, Body, Animating;
    es := AnimationWaits(s, n, rs, c4);
    es := AnimationStep(s, es, Lock(AnimLock), c5, IDLE, rs);
    es := AnimationStep(s, es, Unlock(AnimLock), c6, WAITING, rs);
    es := AnimationStep(s, es, Lock(AnimLock), c7, IDLE, rs);
    es := AnimationStep(s, es, Unlock(AnimLock), c8, WAITING, rs);
    es := AnimationStep(s, es, Lock(PaintLock), c9, IDLE, rs);
  }

  /** A routine that changes the theme without the lock meets the animation thread there. */
  lemma BareTouchRaces(r: Routine, n: nat, rs: iset<Routine>) returns (s: State, es: seq<Event>)
    requires ChangesBare(r) && r in rs && AnimRound(n) in rs
    ensures Init(s) && Legal(s, es) && BeginsOnly(es, rs)
    ensures Access(After(s, es), ANIMATION) && Access(After(s, es), Runner(r)) && Runner(r) != ANIMATION
  {
    s := Animating(Thread([], IDLE));
    es := AnimationAtTheme(s, n, rs);
    BareBody(r);
    Longer(s, es, Begin(r));
    es := es + [Begin(r)];
  }

  /** Exactly when the theme is safe: take any set of routines that has a round of the animation
      thread.  In no interleaving of them do two threads meet at the theme if and only if none of
      them is progress, log, set message or the F3 key. */
  lemma AccessAloneIff(rs: iset<Routine>, n: nat)
    requires AnimRound(n) in rs
    ensures AccessAlone(rs) <==> forall r :: r in rs ==> !ChangesBare(r)
  {
    hide Init, Legal, After, BeginsOnly, Access, ChangesBare;
    if forall r :: r in rs ==> !ChangesBare(r) {
      forall s, es, t: nat, u: nat | Init(s) && Legal(s, es) && BeginsOnly(es, rs) && Access(After(s, es), t) && Access(After(s, es), u)
        ensures t == u
      {
        RunNoBareTouch(s, es, rs);
        LockedAccess(After(s, es), t);
        LockedAccess(After(s, es), u);
        ThemeIsGuarded(s, es, t, u);
      }
    } else {
      var r :| r in rs && ChangesBare(r);
      var s, es := BareTouchRaces(r, n, rs);
    }
  }

  lemma LockedAccess(s: State, t: nat)
    requires NoBareTouch(s) && Access(s, t)
    ensures AtOp(s, t, Touch) || AtOp(s, t, Write)
  {
  }

  // ------------------------------------------------------ acknowledgements and signals

  /** The hand-over discipline: the kernel sends a signal only when the one before has been
      handled. */
  predicate InTurn(s: State, e: Event) {
    e.KernelWants? || e.KernelBrings? ==> !s.usr1 && !s.usr2 && |s.ths| == 4 && s.ths[SIGNALS].code == []
  }

  predicate InTurnRun(s: State, es: seq<Event>)
    requires Legal(s, es)
    decreases |es|
  {
    es == [] || (InTurnRun(s, es[..|es| - 1]) && InTurn(After(s, es[..|es| - 1]), es[|es| - 1]))
  }

  /** What the discipline keeps: only the signal handler acknowledges and releases, a release and
      an acknowledgement are never on their way together, and an acknowledgement on its way means
      that the terminal is still in front. */
  ghost predicate Orderly(s: State) {
    && |s.ths| == 4
    && (forall t :: 0 <= t < 4 && t != SIGNALS ==> SetCtty(true) !in s.ths[t].code && Release !in s.ths[t].code)
    && (s.usr1 ==> s.ths[SIGNALS].code == [] && !s.usr2)
    && (s.usr2 ==> s.ths[SIGNALS].code == [] && s.owned)
    && (SetCtty(true) in s.ths[SIGNALS].code ==> s.owned && Release !in s.ths[SIGNALS].code)
  }

  lemma BodyOps(r: Routine)
    ensures !r.SigAcquire? ==> SetCtty(true) !in Body(r)
    ensures !r.SigRelease? ==> Release !in Body(r)
    ensures Body(r) != []
  {
  }

  lemma {:induction false} RenderOps(n: nat, op: Op)
    ensures op in Writes(n) ==> op == Write
    ensures op in Render(n) ==> op == Write || op == Touch
    decreases n
  {
    if n > 0 {
      RenderOps(n - 1, op);
    }
  }

  lemma AdvanceOps(th: Thread, silent: bool, op: Op)
    requires th.code != [] && op in Advance(th, silent).code && op != Write && op != Touch
    ensures op in th.code
  {
    var first := th.code[0];
    if first.IfSilent? && silent {
      RenderOps(first.n, op);
    }
  }

  lemma StepOrderly(s: State, e: Event)
    requires Orderly(s) && Enabled(s, e) && InTurn(s, e)
    ensures Orderly(Apply(s, e)) && FreshAck(s, e)
  {
    hide Body, Advance;
    match e {
      case Begin(r) => BodyOps(r);
      case Exec(t) =>
        forall op | op in Advance(s.ths[t], s.silent).code && (op == Release || op == SetCtty(true)) ensures op in s.ths[t].code {
          AdvanceOps(s.ths[t], s.silent, op);
        }
      case KernelWants =>
      case KernelBrings =>
    }
  }

  /** If every switch signal is handled before the next is sent, all acknowledgements are fresh;
      so no write is stray in any interleaving. */
  lemma {:induction false} InTurnIsFresh(s: State, es: seq<Event>)
    requires Init(s) && Legal(s, es) && InTurnRun(s, es)
    ensures FreshRun(s, es) && Orderly(After(s, es))
    decreases |es|
  {
    hide Apply, Enabled, FreshAck, InTurn;
    if es != [] {
      InTurnIsFresh(s, es[..|es| - 1]);
      StepOrderly(After(s, es[..|es| - 1]), es[|es| - 1]);
    }
  }

  lemma InTurnIsSafe(s: State, es: seq<Event>)
    requires Init(s) && Legal(s, es) && InTurnRun(s, es)
    ensures !StrayWrite(After(s, es))
  {
    InTurnIsFresh(s, es);
    InitInv(s);
    RunInv(s, es);
    NoStrayWrite(After(s, es));
  }

  // --------------------------------------------------------- stale acknowledgements

  /** One more step of the signal handler, on its own. */
  lemma Solo(s0: State, es: seq<Event>, s: State, op: Op, rest: seq<Op>) returns (es': seq<Event>, s': State)
    requires Legal(s0, es) && FreshRun(s0, es) && After(s0, es) == s
    requires |s.ths| == 4 && s.ths[SIGNALS].code == [op] + rest && (op.Lock? ==> Free(s, op.m))
    requires op != SetCtty(true) && !op.IfSilent?
    ensures Legal(s0, es') && FreshRun(s0, es') && After(s0, es') == s'
    ensures |s'.ths| == 4 && s'.ths[SIGNALS] == Thread(rest, Then(op, s.ths[SIGNALS].now))
    ensures forall u :: 0 <= u < 4 && u != SIGNALS ==> s'.ths[u] == s.ths[u]
    ensures s'.silent == (if op.SetCtty? then op.silent else s.silent)
    ensures s'.owned == (s.owned && !(op.Release? && s.wanted)) && s'.usr1 == s.usr1 && s'.usr2 == s.usr2
    ensures s'.wanted == (s.wanted && !op.Release?)
  {
    hide Then, Free, Legal, FreshRun, After;
    es' := es + [Exec(SIGNALS)];
    assert s.ths[SIGNALS].code[0] == op && s.ths[SIGNALS].code[1..] == rest;
    s' := Apply(s, Exec(SIGNALS));
    Longer(s0, es, Exec(SIGNALS));
  }

  lemma Longer(s0: State, es: seq<Event>, e: Event)
    requires Legal(s0, es) && Enabled(After(s0, es), e)
    ensures Legal(s0, es + [e]) && After(s0, es + [e]) == Apply(After(s0, es), e)
    ensures FreshRun(s0, es) && FreshAck(After(s0, es), e) ==> FreshRun(s0, es + [e])
  {
    hide Enabled, Apply, FreshAck;
    assert (es + [e])[..|es|] == es;
  }

  /** The signal handler with SIGUSR2, about to set ctty. */
  predicate Acknowledging(s: State, n: nat) {
    |s.ths| == 4 && s.ths[SIGNALS].code == Body(SigAcquire(n))[4..]
  }

  lemma AckCode(n: nat)
    ensures Body(SigAcquire(n))[4..] == [SetCtty(true)] + ([Unlock(PaintLock)] + ([Lock(PaintLock)] + ([Touch] + ([Unlock(PaintLock)]
              + ([Lock(PaintLock)] + ([IfSilent(n)] + [Unlock(PaintLock)]))))))
  {
  }

  /** Nobody else can have the paint lock while the handler acknowledges. */
  lemma AckHolds(s: State, n: nat)
    requires Base(s) && Acknowledging(s, n)
    ensures s.ths[SIGNALS].now.held == Held(true, false, false) && !s.ths[SIGNALS].now.behind
    ensures forall u :: 0 <= u < 4 && u != SIGNALS ==> !s.ths[u].now.held.Has(PaintLock)
    ensures Enabled(s, Exec(SIGNALS))
    ensures var s' := Apply(s, Exec(SIGNALS));
            && |s'.ths| == 4 && s'.ths[SIGNALS].code == Body(SigAcquire(n))[5..] && s'.silent && s'.owned == s.owned
            && s'.ths[SIGNALS].now == PAINTING
            && forall u :: 0 <= u < 4 && u != SIGNALS ==> s'.ths[u] == s.ths[u]
  {
    AckCode(n);
    var c := s.ths[SIGNALS].code;
    var now := s.ths[SIGNALS].now;
    assert c[0] == SetCtty(true) && c[1..] == Body(SigAcquire(n))[5..];
    assert c[1..][0] == Unlock(PaintLock) && c[1..][1..][0] == Lock(PaintLock);
    var n1 := Then(c[0], now);
    assert Allowed(c[0], now) && Good(c[1..], n1);
    assert Allowed(c[1..][0], n1) && Good(c[1..][1..], Then(c[1..][0], n1));
    assert Allowed(Lock(PaintLock), Then(Unlock(PaintLock), n1));
    assert now.held.Has(PaintLock);
  }

  lemma FreeAgain(s: State)
    requires |s.ths| == 4 && !s.ths[SIGNALS].now.held.Has(PaintLock)
    requires forall u :: 0 <= u < 4 && u != SIGNALS ==> !s.ths[u].now.held.Has(PaintLock)
    ensures Free(s, PaintLock)
  {
  }

  /** The handler goes on alone from its acknowledgement to the repaint. */
  lemma AloneToRepaint(s: State, n: nat) returns (es: seq<Event>, r: State)
    requires |s.ths| == 4 && s.ths[SIGNALS].code == Body(SigAcquire(n))[5..] && s.ths[SIGNALS].now == PAINTING
    requires forall u :: 0 <= u < 4 && u != SIGNALS ==> !s.ths[u].now.held.Has(PaintLock)
    ensures Legal(s, es) && FreshRun(s, es) && After(s, es) == r
    ensures |r.ths| == 4 && r.ths[SIGNALS].code == [IfSilent(n)] + [Unlock(PaintLock)]
    ensures r.silent == s.silent && r.owned == s.owned
  {
    AckCode(n);
    var c5 := [IfSilent(n)] + [Unlock(PaintLock)];
    var c4 := [Lock(PaintLock)] + c5;
    var c3 := [Unlock(PaintLock)] + c4;
    var c2 := [Touch] + c3;
    var c1 := [Lock(PaintLock)] + c2;
    assert Body(SigAcquire(n))[4..][1..] == [Unlock(PaintLock)] + c1;
    hide Body, Legal, FreshRun, After, Free;
    es, r := [], s;
    assert Legal(s, es) && FreshRun(s, es) && After(s, es) == s by { EmptyRun(s); }
    es, r := Solo(s, es, r, Unlock(PaintLock), c1);
    FreeAgain(r);
    es, r := Solo(s, es, r, Lock(PaintLock), c2);
    es, r := Solo(s, es, r, Touch, c3);
    es, r := Solo(s, es, r, Unlock(PaintLock), c4);
    FreeAgain(r);
    es, r := Solo(s, es, r, Lock(PaintLock), c5);
  }

  lemma EmptyRun(s: State)
    ensures Legal(s, []) && FreshRun(s, []) && After(s, []) == s
  {
  }

  lemma RepaintWrites(s: State, es: seq<Event>, s1: State, n: nat) returns (es': seq<Event>, r: State)
    requires Legal(s, es) && FreshRun(s, es) && After(s, es) == s1 && n > 0
    requires |s1.ths| == 4 && s1.silent && s1.ths[SIGNALS].code == [IfSilent(n)] + [Unlock(PaintLock)]
    ensures Legal(s, es') && FreshRun(s, es') && After(s, es') == r && r.owned == s1.owned && AtOp(r, SIGNALS, Write)
  {
    assert s1.ths[SIGNALS].code[0] == IfSilent(n);
    Longer(s, es, Exec(SIGNALS));
    var s2 := Apply(s1, Exec(SIGNALS));
    var rest := Writes(n) + [Unlock(PaintLock)];
    assert s1.ths[SIGNALS].code[1..] == [Unlock(PaintLock)];
    assert s2.ths[SIGNALS].code == [Touch] + rest;
    assert Writes(n)[0] == Write;
    hide Legal, FreshRun, After, Writes;
    es', r := Solo(s, es + [Exec(SIGNALS)], s2, Touch, rest);
  }

  /** From an acknowledgement on, with all later ones fresh, no interleaving has a stray write
      if and only if the terminal is in front when ctty is set. */
  lemma AckIff(s: State, n: nat)
    requires Inv(s) && Acknowledging(s, n) && n > 0
    ensures Enabled(s, Exec(SIGNALS))
    ensures var s1 := Apply(s, Exec(SIGNALS));
            s.owned <==> forall es :: Legal(s1, es) && FreshRun(s1, es) ==> !StrayWrite(After(s1, es))
  {
    AckHolds(s, n);
    var s1 := Apply(s, Exec(SIGNALS));
    if s.owned {
      StepInv(s, Exec(SIGNALS));
      forall es | Legal(s1, es) && FreshRun(s1, es) ensures !StrayWrite(After(s1, es)) {
        RunInv(s1, es);
        NoStrayWrite(After(s1, es));
      }
    } else {
      var es, r := AloneToRepaint(s1, n);
      es, r := RepaintWrites(s1, es, r, n);
      assert StrayWrite(r);
    }
  }

  // ---- two signals at once

  function Quiet(th: Thread, silent: bool, owned: bool, wanted: bool, usr1: bool, usr2: bool): State {
    var idle := Thread([], IDLE);
    State([idle, idle, idle, th], silent, owned, wanted, usr1, usr2)
  }

  lemma QuietFree(s: State, m: Mutex)
    requires |s.ths| == 4 && !s.ths[SIGNALS].now.held.Has(m)
    requires forall u :: 0 <= u < 4 && u != SIGNALS ==> s.ths[u].now == IDLE
    ensures Free(s, m)
  {
  }

  /** The terminal is brought to the front and wanted away again before the daemon has handled
      the first signal, and the second one is delivered first: a legal run that ends in a stale
      acknowledgement, though nothing but the daemon's own routines has run. */
  lemma OverlapIsStale() returns (s: State, es: seq<Event>)
    ensures Init(s) && Legal(s, es)
    ensures Acknowledging(After(s, es), 1) && !After(s, es).owned
  {
    var idle := Thread([], IDLE);
    s := Quiet(idle, false, false, false, false, false);
    es := [];
    EmptyRun(s);
    Longer(s, es, KernelBrings);
    es := es + [KernelBrings];
    Longer(s, es, KernelWants);
    es := es + [KernelWants];
    var r := Quiet(idle, false, true, true, true, true);
    assert After(s, es) == r;
    Longer(s, es, Begin(SigRelease));
    es := es + [Begin(SigRelease)];
    r := Quiet(Thread(Body(SigRelease), IDLE), false, true, true, false, true);
    assert After(s, es).ths == r.ths;
    assert FreshRun(s, es);
    es, r := ReleaseAlone(s, es, r);
    assert r == Quiet(idle, false, false, false, false, true) by { assert r.ths == [idle, idle, idle, idle]; }
    es, r := AcknowledgeAlone(s, es, r);
  }

  lemma ReleaseAlone(s: State, es0: seq<Event>, r0: State) returns (es: seq<Event>, r: State)
    requires Legal(s, es0) && FreshRun(s, es0) && After(s, es0) == r0
    requires r0 == Quiet(Thread(Body(SigRelease), IDLE), false, true, true, false, true)
    ensures Legal(s, es) && FreshRun(s, es) && After(s, es) == r && |r.ths| == 4
    ensures forall u :: 0 <= u < 4 ==> r.ths[u] == Thread([], IDLE)
    ensures !r.silent && !r.owned && !r.wanted && !r.usr1 && r.usr2
  {
    hide Legal, FreshRun, After, Free;
    var c5: seq<Op> := [Unlock(PaintLock)];
    var c4 := [SetCtty(false)] + c5;
    var c3 := [Unlock(TtyLock)] + c4;
    var c2 := [Release] + c3;
    var c1 := [Lock(TtyLock)] + c2;
    assert Body(SigRelease) == [Lock(PaintLock)] + c1;
    hide Body;
    es, r := es0, r0;
    QuietFree(r, PaintLock);
    es, r := Solo(s, es, r, Lock(PaintLock), c1);
    QuietFree(r, TtyLock);
    es, r := Solo(s, es, r, Lock(TtyLock), c2);
    es, r := Solo(s, es, r, Release, c3);
    es, r := Solo(s, es, r, Unlock(TtyLock), c4);
    es, r := Solo(s, es, r, SetCtty(false), c5);
    assert c5 == [Unlock(PaintLock)] + [];
    es, r := Solo(s, es, r, Unlock(PaintLock), []);
  }

  lemma AckBodyFront(n: nat)
    ensures |Body(SigAcquire(n))| >= 4
    ensures Body(SigAcquire(n)) ==
            [Lock(PaintLock)] + ([Lock(TtyLock)] + ([Ack] + ([Unlock(TtyLock)] + Body(SigAcquire(n))[4..])))
  {
  }

  lemma BeginAcquire(s: State, es: seq<Event>, r: State)
    requires Legal(s, es) && FreshRun(s, es) && After(s, es) == r
    requires r == Quiet(Thread([], IDLE), false, false, false, false, true)
    ensures var es' := es + [Begin(SigAcquire(1))];
            && Legal(s, es') && FreshRun(s, es')
            && After(s, es') == Quiet(Thread(Body(SigAcquire(1)), IDLE), false, false, false, false, false)
  {
    hide Body, Legal, FreshRun, After;
    Longer(s, es, Begin(SigAcquire(1)));
    var q := Quiet(Thread(Body(SigAcquire(1)), IDLE), false, false, false, false, false);
    assert Apply(r, Begin(SigAcquire(1))).ths == q.ths;
  }

  lemma AcknowledgeAlone(s: State, es0: seq<Event>, r0: State) returns (es: seq<Event>, r: State)
    requires Legal(s, es0) && FreshRun(s, es0) && After(s, es0) == r0
    requires r0 == Quiet(Thread([], IDLE), false, false, false, false, true)
    ensures Legal(s, es) && After(s, es) == r && Acknowledging(r, 1) && !r.owned
  {
    hide Legal, FreshRun, After, Free, Body;
    BeginAcquire(s, es0, r0);
    es, r := es0 + [Begin(SigAcquire(1))], Quiet(Thread(Body(SigAcquire(1)), IDLE), false, false, false, false, false);
    AckBodyFront(1);
    var c4 := Body(SigAcquire(1))[4..];
    var c3 := [Unlock(TtyLock)] + c4;
    var c2 := [Ack] + c3;
    var c1 := [Lock(TtyLock)] + c2;
    QuietFree(r, PaintLock);
    es, r := Solo(s, es, r, Lock(PaintLock), c1);
    QuietFree(r, TtyLock);
    es, r := Solo(s, es, r, Lock(TtyLock), c2);
    es, r := Solo(s, es, r, Ack, c3);
    es, r := Solo(s, es, r, Unlock(TtyLock), c4);
  }
}
