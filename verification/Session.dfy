/**
  The daemon at work: events arrive in any order and are handled by the methods of class Theme.
  The state after any number of events is the state of a run in module Runs, so the picture is
  exact whenever the run result says so.
 */
module Session {
  import opened Rects
  import opened Pixels
  import opened Objects
  import opened Lists
  import opened Framebuffer
  import opened Scene
  import opened Runs
  import opened Theme
  import opened Services
  import opened Nodes
  import opened Fades
  import Lives

  /** A command, or one round of the animation thread after a delay. */
  datatype Event = Do(c: Cmd) | Animate(rdelay: int)

  /** The command a handled event amounts to: animation rounds fix their fades only when they run. */
  predicate Matches(e: Event, c: Cmd) {
    match e
    case Do(d) => c == d
    case Animate(_) => c.Tick?
  }

  lemma ValidIsWellFormed(t: Theme)
    requires t.Valid()
    ensures WellFormed(t.su, t.View())
  {
  }

  /** Another terminal draws on the framebuffer. */
  method ConsoleDraws(t: Theme, bytes: seq<byte>)
    requires t.Valid()
    modifies t.fb
    ensures t.Valid() && t.View() == Step(t.su, old(t.View()), Console(bytes))
  {
    hide AllInside, AllFit;
    if !t.silent && |bytes| == t.fb.Length {
      forall k | 0 <= k < |bytes| {
        t.fb[k] := bytes[k];
      }
      assert t.fb[..] == bytes;
    }
  }

  /** The terminal in front changes. */
  method SwitchTerminal(t: Theme, silent: bool)
    requires t.Valid()
    modifies t`silent
    ensures t.Valid() && t.View() == old(t.View()).(silent := silent)
  {
    hide AllInside, AllFit;
    t.silent := silent;
  }

  // ------------------------------------------------------------------ lives of the objects

  /** What an event is in the life of an object. */
  function LifeEvent(e: Event): Lives.Event {
    match e
    case Do(c) => Lives.Told(c)
    case Animate(d) => Lives.Round(d)
  }

  function LifeEvents(es: seq<Event>): (out: seq<Lives.Event>)
    ensures |out| == |es| && forall i :: 0 <= i < |es| ==> out[i] == LifeEvent(es[i])
  {
    seq(|es|, i requires 0 <= i < |es| => LifeEvent(es[i]))
  }

  /** The objects of a theme, each with its number of entries in the list of fading objects. */
  ghost function LivesAt(nodes: seq<Node>, v: seq<Obj>, f: seq<Node>): (ls: seq<Lives.Life>)
    ensures |ls| == |v| && forall i :: 0 <= i < |v| && i < |nodes| ==> ls[i] == Lives.Life(v[i], Times(f, nodes[i]))
  {
    seq(|v|, i requires 0 <= i < |v| => Lives.Life(v[i], if i < |nodes| then Times(f, nodes[i]) else 0))
  }

  ghost function LivesOf(t: Theme): (ls: seq<Lives.Life>)
    reads t, t.fxobjs
    ensures |ls| == |t.vals|
  {
    LivesAt(t.objs, t.vals, t.fxobjs.contents)
  }

  /** Every life has gone on by the event, up to caches. */
  ghost predicate LedBy(before: seq<Lives.Life>, after: seq<Lives.Life>, e: Lives.Event) {
    && |before| == |after|
    && forall i :: 0 <= i < |before| ==> Lives.SameFade(after[i], Lives.Next(before[i], e))
  }

  ghost predicate LedOn(before: seq<Lives.Life>, after: seq<Lives.Life>, es: seq<Lives.Event>) {
    && |before| == |after|
    && forall i :: 0 <= i < |before| ==> Lives.SameFade(after[i], Lives.Live(before[i], es))
  }

  lemma LedStart(ls: seq<Lives.Life>)
    ensures LedOn(ls, ls, [])
  {
    forall i | 0 <= i < |ls| ensures Lives.SameFade(ls[i], Lives.Live(ls[i], [])) {
      Lives.LiveNone(ls[i]);
    }
  }

  lemma LedMore(a: seq<Lives.Life>, b: seq<Lives.Life>, c: seq<Lives.Life>, es: seq<Lives.Event>, e: Lives.Event)
    requires LedOn(a, b, es) && LedBy(b, c, e)
    ensures LedOn(a, c, es + [e])
  {
    hide Lives.Next, Lives.Live;
    forall i | 0 <= i < |a| ensures Lives.SameFade(c[i], Lives.Live(a[i], es + [e])) {
      Lives.LiveNext(a[i], es, e);
      Lives.SameNext(b[i], Lives.Live(a[i], es), e);
    }
  }

  lemma {:induction false} TimesConcat(a: seq<Node>, b: seq<Node>, n: Node)
    ensures Times(a + b, n) == Times(a, n) + Times(b, n)
    decreases |a|
  {
    if a == [] {
      assert a + b == b;
    } else {
      assert (a + b)[1..] == a[1..] + b;
      TimesConcat(a[1..], b, n);
    }
  }

  lemma {:induction false} ListedTimes(c: Cmd, nodes: seq<Node>, v: seq<Obj>, n: nat, i: nat)
    requires n <= |v| == |nodes| && i < |nodes| && Distinct(nodes)
    ensures Times(ListedBy(c, nodes, v, n), nodes[i]) == if i < n && Toggled(c, v[i]).2 then 1 else 0
    decreases n
  {
    hide Toggled, Times;
    if n > 0 {
      ListedTimes(c, nodes, v, n - 1, i);
      var last := if Toggled(c, v[n - 1]).2 then [nodes[n - 1]] else [];
      TimesConcat(ListedBy(c, nodes, v, n - 1), last, nodes[i]);
      TimesOfOne(nodes[n - 1], nodes[i]);
    } else {
      TimesOfOne(nodes[i], nodes[i]);
    }
  }

  lemma {:induction false} StarterTimes(nodes: seq<Node>, n: nat, i: nat)
    requires n <= |nodes| && i < |nodes| && Distinct(nodes)
    ensures Times(Starters(nodes[..n]), nodes[i]) == if i < n && StartsFading(nodes[i].spec) then 1 else 0
    decreases n
  {
    hide Times, StartsFading;
    if n > 0 {
      StarterTimes(nodes, n - 1, i);
      var m := nodes[n - 1];
      assert nodes[..n][..n - 1] == nodes[..n - 1] && nodes[..n][n - 1] == m;
      TimesConcat(Starters(nodes[..n - 1]), if StartsFading(m.spec) then [m] else [], nodes[i]);
      TimesOfOne(m, nodes[i]);
    } else {
      TimesOfOne(nodes[i], nodes[i]);
    }
  }

  /** In a theme just loaded every life has just begun. */
  lemma LoadedIsBorn(t: Theme, specs: seq<Spec>)
    requires t.Valid() && t.vals == AllLoaded(t.su.g.xres, t.su.g.yres, specs, t.progress)
    requires t.fxobjs.contents == Starters(t.objs)
    ensures forall i :: 0 <= i < |specs| ==> LivesOf(t)[i] == Lives.Born(t.su.g.xres, t.su.g.yres, specs[i], t.progress)
  {
    hide Starters, Times, Loaded, StartsFading, AllInside, AllFit;
    ObjectsApart(t);
    forall i | 0 <= i < |specs|
      ensures LivesOf(t)[i] == Lives.Born(t.su.g.xres, t.su.g.yres, specs[i], t.progress)
    {
      Lives.SoundStart(t.su.g.xres, t.su.g.yres, specs[i], t.progress);
      StarterTimes(t.objs, |t.objs|, i);
      assert t.objs[..|t.objs|] == t.objs;
      assert t.objs[i].Val().spec == specs[i];
    }
  }

  lemma TimesOfOne(m: Node, n: Node)
    ensures Times([m], n) == if m == n then 1 else 0
    ensures Times([], n) == 0
  {
    assert [m][1..] == [];
  }

  lemma ToggleLives(c: Cmd, nodes: seq<Node>, v: seq<Obj>, f: seq<Node>)
    requires |v| == |nodes| && Distinct(nodes)
    ensures LedBy(LivesAt(nodes, v, f), LivesAt(nodes, ToggleAll(c, v), f + ListedBy(c, nodes, v, |v|)), Lives.Told(c))
  {
    hide Toggled, Times, ListedBy;
    var before, after := LivesAt(nodes, v, f), LivesAt(nodes, ToggleAll(c, v), f + ListedBy(c, nodes, v, |v|));
    forall i | 0 <= i < |v| ensures Lives.SameFade(after[i], Lives.Next(before[i], Lives.Told(c))) {
      TimesConcat(f, ListedBy(c, nodes, v, |v|), nodes[i]);
      ListedTimes(c, nodes, v, |v|, i);
    }
  }

  lemma PassLives(nodes: seq<Node>, v: seq<Obj>, v': seq<Obj>, f: seq<Node>, m: map<Node, Obj>, d: int)
    requires |v| == |nodes| == |v'| && forall n :: n in f ==> n in m
    requires forall i :: 0 <= i < |nodes| ==> nodes[i] in m && m[nodes[i]] == v[i]
    requires forall i :: 0 <= i < |nodes| ==> nodes[i] in Pass(f, m, d).1 && SameFades(v'[i], Pass(f, m, d).1[nodes[i]])
    ensures LedBy(LivesAt(nodes, v, f), LivesAt(nodes, v', Pass(f, m, d).0), Lives.Round(d))
  {
    hide Pass, Times, Lives.Next;
    forall i | 0 <= i < |v|
      ensures Lives.SameFade(Lives.Life(v'[i], Times(Pass(f, m, d).0, nodes[i])), Lives.Next(Lives.Life(v[i], Times(f, nodes[i])), Lives.Round(d)))
    {
      Lives.RoundOfPass(f, m, d, nodes[i]);
    }
  }

  /** Commands that neither show nor hide and rounds of nothing else leave fades alone. */
  lemma StepKeepsFades(su: Setup, s: State, c: Cmd)
    requires WellFormed(su, s) && !c.Service? && !c.Textbox? && !c.Tick?
    ensures |Step(su, s, c).objs| == |s.objs|
    ensures forall i :: 0 <= i < |s.objs| ==> SameFades(Step(su, s, c).objs[i], s.objs[i])
  {
    hide AllFit, AllInside, Mark, Redrawn, MarkDamage, FullRepaint, CopiedAll, Copied;
    if c.Repaint? {
      RepaintKeepsFades(su, s);
    } else if c.Paint? {
      forall i | 0 <= i < |s.objs| ensures SameFades(Mark(s.objs[i], s.progress, false, PadAt(c.pads, i)).0, s.objs[i]) {
        MarkKeepsFades(s.objs[i], s.progress, false, PadAt(c.pads, i));
      }
    }
  }

  lemma OtherLives(su: Setup, s: State, c: Cmd, nodes: seq<Node>, f: seq<Node>)
    requires WellFormed(su, s) && !c.Service? && !c.Textbox? && !c.Tick? && |nodes| == |s.objs|
    ensures LedBy(LivesAt(nodes, s.objs, f), LivesAt(nodes, Step(su, s, c).objs, f), Lives.Told(c))
  {
    hide Step, WellFormed, Times;
    StepKeepsFades(su, s, c);
  }

  // ---------------------------------------------------------------------- handling events

  lemma ObjectsApart(t: Theme)
    requires t.Valid()
    ensures Distinct(t.objs) && |t.vals| == |t.objs|
    ensures forall i :: 0 <= i < |t.objs| ==> t.objs[i] in t.members && t.objs[i].Val() == t.vals[i]
  {
  }

  method HandleToggle(t: Theme, c: Cmd)
    requires t.Valid() && (c.Service? || c.Textbox?)
    modifies t.objs, t.blit, t.blit.nodes, t.fxobjs, t.fxobjs.nodes, t`vals
    ensures t.Valid() && fresh(t.blit.nodes - old(t.blit.nodes)) && fresh(t.fxobjs.nodes - old(t.fxobjs.nodes))
    ensures t.View() == Step(t.su, old(t.View()), c)
    ensures LedBy(old(LivesOf(t)), LivesOf(t), Lives.Told(c))
  {
    hide t.Valid, ToggleAll, ToggleDamage, ListedBy, AllInside, AllFit, LivesAt, LedBy;
    ObjectsApart(t);
    ToggleLives(c, t.objs, t.vals, t.fxobjs.contents);
    ViewParts(t);
    t.CmdToggle(c);
    ViewParts(t);
  }

  method HandleRound(t: Theme, rdelay: int) returns (ghost c: Cmd)
    requires t.Valid()
    modifies t.objs, t.blit, t.blit.nodes, t.fxobjs, t.fxobjs.nodes, t.members, t.bgbuf, t.fb, t`vals
    ensures t.Valid() && fresh(t.blit.nodes - old(t.blit.nodes)) && t.fxobjs.nodes == old(t.fxobjs.nodes)
    ensures c.Tick? && t.View() == Step(t.su, old(t.View()), c) && Gentle(old(t.vals), c.fades)
    ensures LedBy(old(LivesOf(t)), LivesOf(t), Lives.Round(rdelay))
  {
    hide t.Valid, Pass, Gentle, AllInside, AllFit, FullRepaint, FaintAll, LivesAt, LedBy, SameFades;
    ghost var v, f, m := t.vals, t.fxobjs.contents, Values(t.members);
    ObjectsApart(t);
    ghost var fades := t.AnimRound(rdelay);
    c := Tick(fades);
    PassLives(t.objs, v, t.vals, f, m, rdelay);
  }

  method HandleOther(t: Theme, c: Cmd)
    requires t.Valid() && !c.Service? && !c.Textbox? && !c.Tick?
    modifies t.objs, t.blit, t.blit.nodes, t.bgbuf, t.fb, t`vals, t`progress, t`silent
    ensures t.Valid() && fresh(t.blit.nodes - old(t.blit.nodes))
    ensures t.View() == Step(t.su, old(t.View()), c)
    ensures LedBy(old(LivesOf(t)), LivesOf(t), Lives.Told(c))
  {
    hide t.Valid, AllInside, AllFit, FullRepaint, PartialPaint, TouchAll, Copied, LivesAt, LedBy;
    ObjectsApart(t);
    ValidIsWellFormed(t);
    ViewParts(t);
    OtherLives(t.su, t.View(), c, t.objs, t.fxobjs.contents);
    match c {
      case SetProgress(v) => t.ProgressSet(v);
      case Paint(pads) => t.CmdPaint(pads);
      case Repaint => t.CmdRepaint();
      case PaintArea(x0, y0, x1, y1) => t.CmdPaintRect(x0, y0, x1, y1);
      case Leave => SwitchTerminal(t, false);
      case Enter => SwitchTerminal(t, true);
      case Console(bytes) => ConsoleDraws(t, bytes);
    }
    ViewParts(t);
  }

  /** Handling any event is one step of the state machine and one event in the life of every
      object. */
  method Handle(t: Theme, e: Event) returns (ghost c: Cmd)
    requires t.Valid() && (e.Do? ==> !e.c.Tick?)
    modifies t, t.objs, t.members, t.blit, t.blit.nodes, t.fxobjs, t.fxobjs.nodes, t.bgbuf, t.fb
    ensures t.Valid() && fresh(t.blit.nodes - old(t.blit.nodes)) && fresh(t.fxobjs.nodes - old(t.fxobjs.nodes))
    ensures Matches(e, c) && t.View() == Step(t.su, old(t.View()), c)
    ensures forall i: nat :: i < |old(t.vals)| && Steadfast(old(t.vals)[i]) ==> NeverHides(c, i)
    ensures LedBy(old(LivesOf(t)), LivesOf(t), LifeEvent(e))
  {
    hide AllInside, AllFit, Step, LivesOf, LedBy, t.Valid, t.View;
    match e {
      case Do(d) =>
        c := d;
        if d.Service? || d.Textbox? {
          HandleToggle(t, d);
        } else {
          HandleOther(t, d);
        }
      case Animate(rdelay) => c := HandleRound(t, rdelay);
    }
  }

  /** Any sequence of events leads to the end of a run with matching commands; if the last one
      paints and the run is synchronised, back buffer and framebuffer are exact, and every object
      has led the life that these events make. */
  method Serve(t: Theme, events: seq<Event>) returns (ghost cmds: seq<Cmd>)
    requires t.Valid() && forall i :: 0 <= i < |events| ==> events[i].Do? ==> !events[i].c.Tick?
    modifies t, t.objs, t.members, t.blit, t.blit.nodes, t.fxobjs, t.fxobjs.nodes, t.bgbuf, t.fb
    ensures t.Valid() && WellFormed(t.su, old(t.View())) && WellFormed(t.su, t.View())
    ensures |cmds| == |events| && forall i :: 0 <= i < |events| ==> Matches(events[i], cmds[i])
    ensures t.View() == Run(t.su, old(t.View()), cmds)
    ensures cmds != [] && Paints(cmds[|cmds| - 1]) && t.silent && HistoryOf(t.su, old(t.View()), cmds).synced
            ==> Exact(t.su, t.View())
    ensures IconsFollow(old(t.vals), t.vals, UpdatesIn(cmds))
    ensures LedOn(old(LivesOf(t)), LivesOf(t), LifeEvents(events))
  {
    hide *;
    cmds := [];
    ghost var s0, l0 := t.View(), LivesOf(t);
    ValidIsWellFormed(t);
    CalmStart(t.su, s0);
    EmptyRun(t.su, s0);
    ViewParts(t);
    LedStart(l0);
    for i := 0 to |events|
      invariant t.Valid() && |cmds| == i && forall j :: 0 <= j < i ==> Matches(events[j], cmds[j])
      invariant fresh(t.blit.nodes - old(t.blit.nodes)) && fresh(t.fxobjs.nodes - old(t.fxobjs.nodes))
      invariant t.View() == Run(t.su, s0, cmds) && Calm(t.su, s0, cmds)
      invariant t.View().objs == t.vals && t.View().silent == t.silent
      invariant LedOn(l0, LivesOf(t), LifeEvents(events)[..i])
    {
      ghost var l := LivesOf(t);
      ghost var c := Handle(t, events[i]);
      RunAppend(t.su, s0, cmds, c);
      CalmNext(t.su, s0, cmds, c);
      ViewParts(t);
      LedMore(l0, l, LivesOf(t), LifeEvents(events)[..i], LifeEvent(events[i]));
      OneMore(LifeEvents(events), i);
      cmds := cmds + [c];
    }
    AllEvents(LifeEvents(events));
    ValidIsWellFormed(t);
    CalmRunFollows(t.su, s0, cmds);
    if cmds != [] && Paints(cmds[|cmds| - 1]) && t.silent {
      RunsEndExact(t.su, s0, cmds);
    }
  }

  lemma OneMore(es: seq<Lives.Event>, i: nat)
    requires i < |es|
    ensures es[..i + 1] == es[..i] + [es[i]]
  {
  }

  lemma AllEvents(es: seq<Lives.Event>)
    ensures es[..|es|] == es
  {
  }

  /** What a served daemon has made of an object, with blend-out or without: if c is the last
      command among the events that concerned it, it has, once its fades are over, the visibility
      c asked for if and only if c did not come too late. */
  lemma ServedSettles(l: Lives.Life, now: Lives.Life, es: seq<Lives.Event>, c: Cmd, after: seq<Lives.Event>)
    requires Lives.Sound(l) && Wanted(c, l.o).Some? && Lives.LeavesAlone(after, l.o)
    requires Lives.SameFade(now, Lives.Live(l, es + [Lives.Told(c)] + after))
    ensures now.k == 0 ==>
              (now.o.visible == Wanted(c, l.o).value <==> !Lives.TooLate(Lives.Live(l, es), Wanted(c, l.o).value))
  {
    hide Lives.Live, Lives.Next, Lives.Sound;
    Lives.LiveConcat(l, es + [Lives.Told(c)], after);
    Lives.LiveNext(l, es, Lives.Told(c));
    Lives.SettlesIff(l, es, c, after);
  }

  lemma ViewParts(t: Theme)
    ensures t.View().objs == t.vals && t.View().silent == t.silent
  {
  }

  lemma EmptyRun(su: Setup, s: State)
    requires WellFormed(su, s)
    ensures Run(su, s, []) == s
  {
  }

  lemma CalmStart(su: Setup, s: State)
    requires WellFormed(su, s)
    ensures Calm(su, s, [])
  {
    hide AllInside, AllFit;
  }
}
