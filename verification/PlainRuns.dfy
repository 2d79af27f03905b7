/**
  Runs in which only plain boxes and plain icons change their visibility: every paint is exact.
 */
module PlainRuns {
  import opened Rects
  import opened Boxes
  import opened Objects
  import opened Blit
  import opened Framebuffer
  import opened Scene
  import opened Runs

  predicate Plain(o: Obj) {
    o.spec.shape.PlainBox? || o.spec.shape.PlainIcon?
  }

  /** An object that follows the progress belongs to no service and not to the textbox. */
  predicate Ordinary(o: Obj) {
    Plain(o) || (TriggerOf(o.spec.shape).None? && !o.spec.textbox)
  }

  ghost predicate AllOrdinary(objs: seq<Obj>) {
    forall i :: 0 <= i < |objs| ==> Ordinary(objs[i])
  }

  lemma ToggledKeeps(c: Cmd, o: Obj)
    requires Ordinary(o)
    ensures Ordinary(Toggled(c, o).0) && Toggled(c, o).0.spec == o.spec
    ensures !o.visible && Toggled(c, o).0.visible ==> Plain(o)
  {
    hide Steps;
  }

  lemma MarkKeepsOrdinary(o: Obj, p: int, force: bool, pad: bool)
    requires InRange(p) && Ordinary(o)
    ensures Ordinary(Mark(o, p, force, pad).0) && Plain(Mark(o, p, force, pad).0) == Plain(o)
  {
    hide BoxAt, StripsX, StripsY;
  }

  lemma StepOrdinary(su: Setup, s: State, c: Cmd, i: nat)
    requires WellFormed(su, s) && i < |s.objs| && Ordinary(s.objs[i])
    ensures var o' := Step(su, s, c).objs; |o'| == |s.objs| && Ordinary(o'[i]) && Plain(o'[i]) == Plain(s.objs[i])
  {
    hide AllFit, AllInside, Prerender, Mark, Redrawn, MarkDamage, ToggleDamage, Toggled;
    match c {
      case Service(_, _) => ToggledKeeps(c, s.objs[i]);
      case Textbox(_) => ToggledKeeps(c, s.objs[i]);
      case Paint(pads) => MarkKeepsOrdinary(s.objs[i], s.progress, false, PadAt(pads, i));
      case Repaint => MarkKeepsOrdinary(InvalidateAll(s.objs)[i], s.progress, true, false);
      case Tick(fades) => MarkKeepsOrdinary(InvalidateAll(FaintAll(s.objs, fades))[i], s.progress, true, false);
      case _ =>
    }
  }

  /** What such runs keep from their first repaint on. */
  ghost predicate InStep(s: State, h: History) {
    && h.synced && s.silent && AllOrdinary(s.objs)
    && forall i :: i in h.revealed && i < |s.objs| ==> Plain(s.objs[i])
  }

  lemma RevealsArePainted(s: State, h: History, pads: seq<bool>)
    requires InRange(s.progress) && InStep(s, h)
    ensures AllRevealsPainted(s, h, pads)
  {
    hide BoxAt, Interpolate;
  }

  lemma SilentStays(su: Setup, s: State, c: Cmd)
    requires WellFormed(su, s) && s.silent && !c.Leave?
    ensures Step(su, s, c).silent
  {
    hide AllFit, AllInside, MarkAll, Redrawn, MarkDamage, ToggleDamage, ToggleAll, Normalize, CopiedAll, Copied, FaintAll, InvalidateAll;
  }

  lemma RevealedArePlain(c: Cmd, objs: seq<Obj>)
    requires AllOrdinary(objs)
    ensures forall i :: i in Revealed(c, objs) ==> i < |objs| && Plain(objs[i])
  {
    hide Toggled, Plain;
    forall i | i in Revealed(c, objs) ensures Plain(objs[i]) {
      ToggledKeeps(c, objs[i]);
    }
  }

  lemma StepInStep(su: Setup, s: State, h: History, c: Cmd)
    requires WellFormed(su, s) && InStep(s, h) && !c.Leave?
    ensures InStep(Step(su, s, c), Follow(s, h, c))
  {
    SilentStays(su, s, c);
    RevealedArePlain(c, s.objs);
    if c.Paint? {
      RevealsArePainted(s, h, c.pads);
    }
    hide Step, Plain, Ordinary, Revealed, AllRevealsPainted, AllFit, AllInside;
    var s' := Step(su, s, c);
    forall i: nat | i < |s.objs| ensures |s'.objs| == |s.objs| && Ordinary(s'.objs[i]) && Plain(s'.objs[i]) == Plain(s.objs[i]) {
      StepOrdinary(su, s, c, i);
    }
    StepCount(su, s, c);
  }

  lemma StepCount(su: Setup, s: State, c: Cmd)
    requires WellFormed(su, s)
    ensures |Step(su, s, c).objs| == |s.objs|
  {
    hide AllFit, AllInside, Redrawn, MarkDamage, ToggleDamage, Normalize, CopiedAll, Copied;
  }

  lemma FirstRepaint(su: Setup, s: State)
    requires WellFormed(su, s) && s.silent && AllOrdinary(s.objs)
    ensures InStep(Step(su, s, Repaint), History(true, {}))
  {
    SilentStays(su, s, Repaint);
    StepCount(su, s, Repaint);
    hide Step, Plain, Ordinary, AllFit, AllInside;
    forall i: nat | i < |s.objs| ensures Ordinary(Step(su, s, Repaint).objs[i]) {
      StepOrdinary(su, s, Repaint, i);
    }
  }

  lemma {:induction false} RunInStep(su: Setup, s: State, cmds: seq<Cmd>)
    requires WellFormed(su, s) && s.silent && AllOrdinary(s.objs)
    requires cmds != [] && cmds[0] == Repaint && forall k :: 0 <= k < |cmds| ==> !cmds[k].Leave?
    ensures InStep(Run(su, s, cmds), HistoryOf(su, s, cmds))
    decreases |cmds|
  {
    hide Step, InStep, WellFormed, AllOrdinary;
    var n := |cmds| - 1;
    if n == 0 {
      FirstRepaint(su, s);
      assert cmds[..0] == [];
    } else {
      RunInStep(su, s, cmds[..n]);
      StepInStep(su, Run(su, s, cmds[..n]), HistoryOf(su, s, cmds[..n]), cmds[n]);
    }
  }

  /** Every run that begins with a repaint, stays on the silent terminal and ends in a paint, a
      repaint or an animation round ends with the exact picture, if only plain objects belong to
      services or to the textbox. */
  lemma PlainRunsEndExact(su: Setup, s: State, cmds: seq<Cmd>)
    requires WellFormed(su, s) && s.silent && AllOrdinary(s.objs)
    requires cmds != [] && cmds[0] == Repaint && forall k :: 0 <= k < |cmds| ==> !cmds[k].Leave?
    requires Paints(cmds[|cmds| - 1])
    ensures Exact(su, Run(su, s, cmds))
  {
    RunInStep(su, s, cmds);
    hide Exact, Step, WellFormed, Run, HistoryOf;
    RunsEndExact(su, s, cmds);
  }
}
