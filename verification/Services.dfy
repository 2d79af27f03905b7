/**
  Service states: parsing them, the store of last states, and what they do to the icons of a
  theme (core/src/parse.c, parse_svc_state; core/src/daemon_cmd.c, cmd_update_svc;
  core/src/daemon.c, reload_theme; core/src/render.c, invalidate_service).
 */
module Services {
  import opened Rects
  import opened Boxes
  import opened Objects
  import opened Scene
  import opened Runs

  // ------------------------------------------------------------ names of the states

  function StateName(s: SvcState): string {
    match s
    case InactiveStart => "svc_inactive_start"
    case InactiveStop => "svc_inactive_stop"
    case Start => "svc_start"
    case Started => "svc_started"
    case Stop => "svc_stop"
    case Stopped => "svc_stopped"
    case StopFailed => "svc_stop_failed"
    case StartFailed => "svc_start_failed"
  }

  /** parse_svc_state: the text only has to begin with a name, and longer names are tried before
      their prefixes. */
  function ParseState(t: string): Option<SvcState> {
    if StateName(InactiveStart) <= t then Some(InactiveStart)
    else if StateName(InactiveStop) <= t then Some(InactiveStop)
    else if StateName(Started) <= t then Some(Started)
    else if StateName(Stopped) <= t then Some(Stopped)
    else if StateName(StartFailed) <= t then Some(StartFailed)
    else if StateName(StopFailed) <= t then Some(StopFailed)
    else if StateName(Stop) <= t then Some(Stop)
    else if StateName(Start) <= t then Some(Start)
    else None
  }

  /** Two names of which neither begins with the other cannot both begin a text. */
  lemma PrefixesMeet(a: string, b: string, t: string)
    requires a <= t && b <= t && |a| <= |b|
    ensures a <= b
  {
    assert a == t[..|a|] && b == t[..|b|];
  }

  /** The parser finds the longest state name the text begins with, and fails if and only if it
      begins with none. */
  lemma ParseIsLongestMatch(t: string, s: SvcState)
    ensures ParseState(t) == Some(s) <==>
            StateName(s) <= t && forall r: SvcState :: StateName(r) <= t ==> |StateName(r)| <= |StateName(s)|
    ensures ParseState(t) == None <==> forall r: SvcState :: !(StateName(r) <= t)
  {
    var p := ParseState(t);
    if p.Some? {
      forall r: SvcState | StateName(r) <= t
        ensures |StateName(r)| <= |StateName(p.value)|
        ensures |StateName(r)| == |StateName(p.value)| ==> r == p.value
      {
        OnlyOneLongest(t, p.value, r);
      }
      assert StateName(p.value) <= t;
    }
  }

  lemma SameAt(a: string, b: string, k: nat)
    requires a <= b
    ensures k < |a| ==> k < |b| && a[k] == b[k]
  {
  }

  /** A state name begins another one only if it is svc_start or svc_stop. */
  lemma NamePrefixes(s: SvcState, r: SvcState)
    requires StateName(s) <= StateName(r) && s != r
    ensures (s.Start? && (r.Started? || r.StartFailed?)) || (s.Stop? && (r.Stopped? || r.StopFailed?))
  {
    SameAt(StateName(s), StateName(r), 4);
    SameAt(StateName(s), StateName(r), 7);
    SameAt(StateName(s), StateName(r), 8);
    SameAt(StateName(s), StateName(r), 9);
    SameAt(StateName(s), StateName(r), 15);
  }

  lemma OnlyOneLongest(t: string, s: SvcState, r: SvcState)
    requires ParseState(t) == Some(s) && StateName(r) <= t
    ensures |StateName(r)| <= |StateName(s)|
    ensures |StateName(r)| == |StateName(s)| ==> r == s
  {
    if |StateName(s)| <= |StateName(r)| {
      PrefixesMeet(StateName(s), StateName(r), t);
      if s != r {
        NamePrefixes(s, r);
      }
    }
  }

  /** The texts by which updates name the states. */
  lemma StateTexts()
    ensures ParseState("svc_inactive_start") == Some(InactiveStart) && ParseState("svc_inactive_stop") == Some(InactiveStop)
    ensures ParseState("svc_start") == Some(Start) && ParseState("svc_started") == Some(Started)
    ensures ParseState("svc_stop") == Some(Stop) && ParseState("svc_stopped") == Some(Stopped)
    ensures ParseState("svc_stop_failed") == Some(StopFailed) && ParseState("svc_start_failed") == Some(StartFailed)
  {
    forall s: SvcState ensures ParseState(StateName(s)) == Some(s) {
      OwnName(s);
    }
  }

  lemma OwnName(s: SvcState)
    ensures ParseState(StateName(s)) == Some(s)
  {
    hide ParseState, StateName;
    ParseIsLongestMatch(StateName(s), s);
    forall r: SvcState | StateName(r) <= StateName(s) ensures |StateName(r)| <= |StateName(s)| {}
  }

  // ----------------------------------------------------------------------- the store

  datatype Svc = Svc(name: string, state: SvcState)

  /** An update in a store kept in the order in which services were first heard of. */
  function Put(st: seq<Svc>, u: Svc): seq<Svc> {
    if st == [] then [u]
    else if st[0].name == u.name then [u] + st[1..]
    else [st[0]] + Put(st[1..], u)
  }

  /** The store after a sequence of updates. */
  function Recorded(us: seq<Svc>): seq<Svc> {
    if us == [] then [] else Put(Recorded(us[..|us| - 1]), us[|us| - 1])
  }

  /** The state of the last update for a service. */
  function LastState(us: seq<Svc>, name: string): Option<SvcState> {
    if us == [] then None
    else if us[|us| - 1].name == name then Some(us[|us| - 1].state)
    else LastState(us[..|us| - 1], name)
  }

  predicate OnePerService(st: seq<Svc>) {
    forall i, j :: 0 <= i < j < |st| ==> st[i].name != st[j].name
  }

  lemma {:induction false} PutMembers(st: seq<Svc>, u: Svc)
    requires OnePerService(st)
    ensures OnePerService(Put(st, u))
    ensures forall s :: s in Put(st, u) <==> s == u || (s in st && s.name != u.name)
    decreases |st|
  {
    if st == [] {
    } else if st[0].name == u.name {
      assert forall s :: s in st <==> s == st[0] || s in st[1..];
      assert forall s :: s in st[1..] ==> s.name != u.name;
    } else {
      PutMembers(st[1..], u);
      assert forall s :: s in st <==> s == st[0] || s in st[1..];
      var r := Put(st[1..], u);
      forall j | 0 <= j < |r| ensures r[j].name != st[0].name {
        assert r[j] in r;
      }
    }
  }

  /** The store has one entry for each service, and it holds exactly the last states. */
  lemma {:induction false} RecordedIsLast(us: seq<Svc>)
    ensures OnePerService(Recorded(us))
    ensures forall s: Svc :: s in Recorded(us) <==> LastState(us, s.name) == Some(s.state)
    decreases |us|
  {
    hide OnePerService, Put;
    if us == [] {
      assert OnePerService([]) by { Nobody(); }
    } else {
      RecordedIsLast(us[..|us| - 1]);
      PutMembers(Recorded(us[..|us| - 1]), us[|us| - 1]);
    }
  }

  lemma Nobody()
    ensures OnePerService([])
  {
  }

  // ------------------------------------------------------------------ icons and updates

  /** An object after a sequence of updates: invalidate_service for each of them. */
  function AfterUpdates(o: Obj, us: seq<Svc>): Obj {
    if us == [] then o
    else
      var u := us[|us| - 1];
      Toggled(Service(u.name, u.state), AfterUpdates(o, us[..|us| - 1])).0
  }

  predicate IsIconOf(sp: Spec, t: Trigger) {
    TriggerOf(sp.shape) == Some(t)
  }

  /** The visibility of an icon after updates, given its first visibility. */
  function ShownBy(us: seq<Svc>, t: Trigger, first: bool): bool {
    if LastState(us, t.svc).Some? then LastState(us, t.svc).value == t.ty else first
  }

  /** obj_visibility_set gives the visibility asked for at once, unless the object is to vanish
      by a blend-out. */
  lemma SetVisibleIff(o: Obj, v: bool)
    ensures SetVisible(o, v).0.visible == v <==> !(o.spec.blendout > 0 && o.visible && !v)
    ensures SetVisible(o, v).0.spec == o.spec
  {
    hide Steps;
  }

  lemma {:induction false} UpdatesKeepSpec(o: Obj, us: seq<Svc>)
    ensures AfterUpdates(o, us).spec == o.spec
    decreases |us|
  {
    hide SetVisible;
    if us != [] {
      UpdatesKeepSpec(o, us[..|us| - 1]);
      var b := AfterUpdates(o, us[..|us| - 1]);
      SetVisibleIff(b.(invalid := true), true);
      SetVisibleIff(b.(invalid := true), false);
    }
  }

  /** An icon without blend-out is visible exactly when the last state of its service is its
      own, if its service was ever updated. */
  lemma {:induction false} VisibleIsLast(o: Obj, t: Trigger, us: seq<Svc>)
    requires IsIconOf(o.spec, t) && o.spec.blendout == 0
    ensures AfterUpdates(o, us).visible == ShownBy(us, t, o.visible)
    decreases |us|
  {
    hide SetVisible;
    if us != [] {
      var b := AfterUpdates(o, us[..|us| - 1]);
      VisibleIsLast(o, t, us[..|us| - 1]);
      UpdatesKeepSpec(o, us[..|us| - 1]);
      SetVisibleIff(b.(invalid := true), us[|us| - 1].state == t.ty);
    }
  }

  /** An icon with blend-out stays visible after the first update that has shown it, as far as
      updates are concerned: only the end of its fade hides it. */
  lemma {:induction false} BlendoutStays(o: Obj, t: Trigger, us: seq<Svc>)
    requires IsIconOf(o.spec, t) && o.spec.blendout > 0
    ensures AfterUpdates(o, us).visible <==> o.visible || Svc(t.svc, t.ty) in us
    decreases |us|
  {
    hide SetVisible;
    if us != [] {
      var u := us[|us| - 1];
      var b := AfterUpdates(o, us[..|us| - 1]);
      BlendoutStays(o, t, us[..|us| - 1]);
      UpdatesKeepSpec(o, us[..|us| - 1]);
      assert us == us[..|us| - 1] + [u];
      SetVisibleIff(b.(invalid := true), u.state == t.ty);
    }
  }

  // ---------------------------------------------------------------------------- reload

  lemma LoadedIconHidden(w: int, h: int, sp: Spec, p: int, t: Trigger)
    requires w > 0 && h > 0 && InRange(p) && IsIconOf(sp, t)
    ensures Loaded(w, h, sp, p).spec == sp && !Loaded(w, h, sp, p).visible
  {
    hide BoxAt, Interpolate, FirstBnd;
  }

  lemma {:induction false} LastOfOne(st: seq<Svc>, name: string)
    requires OnePerService(st)
    ensures forall v :: LastState(st, name) == Some(v) <==> Svc(name, v) in st
    decreases |st|
  {
    if st != [] {
      LastOfOne(st[..|st| - 1], name);
      assert forall s :: s in st <==> s == st[|st| - 1] || s in st[..|st| - 1];
      assert forall s :: s in st[..|st| - 1] ==> s.name != st[|st| - 1].name;
    }
  }

  lemma ReplayedLast(us: seq<Svc>, name: string)
    ensures LastState(Recorded(us), name) == LastState(us, name)
  {
    hide OnePerService, LastState, Recorded;
    RecordedIsLast(us);
    LastOfOne(Recorded(us), name);
    var a, b := LastState(Recorded(us), name), LastState(us, name);
    if b.Some? {
      assert Svc(name, b.value) in Recorded(us);
    } else if a.Some? {
      assert Svc(name, a.value) in Recorded(us);
    }
  }

  /** After a reload every service icon is visible exactly when the last state of its service is
      its own, with or without blend-out: the store names each service once. */
  lemma ReloadShowsLast(w: int, h: int, sp: Spec, p: int, t: Trigger, us: seq<Svc>)
    requires w > 0 && h > 0 && InRange(p) && IsIconOf(sp, t)
    ensures AfterUpdates(Loaded(w, h, sp, p), Recorded(us)).visible <==> LastState(us, t.svc) == Some(t.ty)
  {
    hide Loaded, AfterUpdates, LastState, OnePerService, Recorded, Toggled;
    var f := Loaded(w, h, sp, p);
    LoadedIconHidden(w, h, sp, p, t);
    ReplayedLast(us, t.svc);
    if sp.blendout == 0 {
      VisibleIsLast(f, t, Recorded(us));
    } else {
      BlendoutStays(f, t, Recorded(us));
      RecordedIsLast(us);
      assert Svc(t.svc, t.ty) in Recorded(us) <==> LastState(us, t.svc) == Some(t.ty);
    }
  }

  lemma LoadedShown(w: int, h: int, sp: Spec, p: int)
    requires w > 0 && h > 0 && InRange(p) && TriggerOf(sp.shape).None?
    ensures Loaded(w, h, sp, p).spec == sp && Loaded(w, h, sp, p).visible
  {
    hide BoxAt, Interpolate, FirstBnd, Steps;
  }

  lemma {:induction false} Untouched(o: Obj, us: seq<Svc>)
    requires TriggerOf(o.spec.shape).None?
    ensures AfterUpdates(o, us) == o
    decreases |us|
  {
    if us != [] {
      Untouched(o, us[..|us| - 1]);
    }
  }

  // ------------------------------------------------------------------------ whole runs

  /** The service updates among the commands of a run. */
  function UpdatesIn(cmds: seq<Cmd>): seq<Svc> {
    if cmds == [] then []
    else
      UpdatesIn(cmds[..|cmds| - 1])
      + match cmds[|cmds| - 1] case Service(name, state) => [Svc(name, state)] case _ => []
  }

  /** The animation thread never hides object i: the loop hides an object only at the end of a
      fade with a negative step. */
  predicate NeverHides(c: Cmd, i: nat) {
    c.Tick? && i < |c.fades| ==> !c.fades[i].hide
  }

  lemma MarkKeepsVisible(o: Obj, p: int, force: bool, pad: bool)
    requires InRange(p)
    ensures Mark(o, p, force, pad).0.visible == o.visible && Mark(o, p, force, pad).0.spec == o.spec
  {
    hide BoxAt, StripsX, StripsY;
  }

  /** What one command does to the visibility of an object. */
  lemma StepVisible(su: Setup, s: State, c: Cmd, i: nat)
    requires WellFormed(su, s) && i < |s.objs| && NeverHides(c, i)
    ensures var o' := Step(su, s, c).objs;
            && |o'| == |s.objs| && o'[i].spec == s.objs[i].spec
            && o'[i].visible == Toggled(c, s.objs[i]).0.visible
  {
    hide AllFit, AllInside, Prerender, Mark, Redrawn, MarkDamage, ToggleDamage, SetVisible;
    SetVisibleIff(s.objs[i].(invalid := true), true);
    SetVisibleIff(s.objs[i].(invalid := true), false);
    match c {
      case Paint(pads) => MarkKeepsVisible(s.objs[i], s.progress, false, PadAt(pads, i));
      case Repaint => MarkKeepsVisible(InvalidateAll(s.objs)[i], s.progress, true, false);
      case Tick(fades) => MarkKeepsVisible(InvalidateAll(FaintAll(s.objs, fades))[i], s.progress, true, false);
      case _ =>
    }
  }

  /** What a command makes of the visibility of such an icon. */
  lemma ToggledVisible(c: Cmd, o: Obj, t: Trigger)
    requires IsIconOf(o.spec, t) && o.spec.blendout == 0 && !o.spec.textbox
    ensures Toggled(c, o).0.visible == (if c.Service? && c.name == t.svc then c.state == t.ty else o.visible)
  {
    hide SetVisible;
    SetVisibleIff(o.(invalid := true), c.Service? && c.state == t.ty);
  }

  lemma ShownByNext(cmds: seq<Cmd>, t: Trigger, first: bool)
    requires cmds != []
    ensures var c := cmds[|cmds| - 1];
            ShownBy(UpdatesIn(cmds), t, first)
            == (if c.Service? && c.name == t.svc then c.state == t.ty else ShownBy(UpdatesIn(cmds[..|cmds| - 1]), t, first))
  {
    var us := UpdatesIn(cmds[..|cmds| - 1]);
    if cmds[|cmds| - 1].Service? {
      assert UpdatesIn(cmds)[..|us|] == us;
    } else {
      assert UpdatesIn(cmds) == us;
    }
  }

  /** After any run an icon without blend-out and outside the textbox is visible exactly when
      the last state of its service is its own, whatever else was going on. */
  lemma {:induction false} RunShowsLast(su: Setup, s: State, cmds: seq<Cmd>, i: nat, t: Trigger)
    requires WellFormed(su, s) && i < |s.objs| && forall k :: 0 <= k < |cmds| ==> NeverHides(cmds[k], i)
    requires IsIconOf(s.objs[i].spec, t) && s.objs[i].spec.blendout == 0 && !s.objs[i].spec.textbox
    ensures var o' := Run(su, s, cmds).objs;
            && |o'| == |s.objs| && o'[i].spec == s.objs[i].spec
            && o'[i].visible == ShownBy(UpdatesIn(cmds), t, s.objs[i].visible)
    decreases |cmds|
  {
    hide WellFormed, Step, Toggled, ShownBy, NeverHides, IsIconOf;
    if cmds == [] {
      ShownByNone(t, s.objs[i].visible);
    } else {
      hide UpdatesIn;
      var n := |cmds| - 1;
      var r := Run(su, s, cmds[..n]);
      RunShowsLast(su, s, cmds[..n], i, t);
      StepVisible(su, r, cmds[n], i);
      ToggledVisible(cmds[n], r.objs[i], t);
      ShownByNext(cmds, t, s.objs[i].visible);
    }
  }

  lemma ShownByNone(t: Trigger, first: bool)
    ensures ShownBy([], t, first) == first
  {
  }

  /** The last setting of the textbox in a run. */
  function LastTextbox(cmds: seq<Cmd>): Option<bool> {
    if cmds == [] then None
    else if cmds[|cmds| - 1].Textbox? then Some(cmds[|cmds| - 1].active)
    else LastTextbox(cmds[..|cmds| - 1])
  }

  lemma TextboxVisible(c: Cmd, o: Obj)
    requires o.spec.textbox && TriggerOf(o.spec.shape).None? && o.spec.blendout == 0
    ensures Toggled(c, o).0.visible == if c.Textbox? then c.active else o.visible
  {
    hide SetVisible;
    SetVisibleIff(o.(invalid := true), c.Textbox? && c.active);
  }

  /** After any run an object of the textbox without a service and without blend-out is visible
      exactly when the last setting of the textbox says so. */
  lemma {:induction false} RunShowsTextbox(su: Setup, s: State, cmds: seq<Cmd>, i: nat)
    requires WellFormed(su, s) && i < |s.objs| && forall k :: 0 <= k < |cmds| ==> NeverHides(cmds[k], i)
    requires s.objs[i].spec.textbox && TriggerOf(s.objs[i].spec.shape).None? && s.objs[i].spec.blendout == 0
    ensures var o' := Run(su, s, cmds).objs;
            && |o'| == |s.objs| && o'[i].spec == s.objs[i].spec
            && o'[i].visible == if LastTextbox(cmds).Some? then LastTextbox(cmds).value else s.objs[i].visible
    decreases |cmds|
  {
    hide WellFormed, Step, Toggled, NeverHides, TriggerOf;
    if cmds != [] {
      var n := |cmds| - 1;
      var r := Run(su, s, cmds[..n]);
      RunShowsTextbox(su, s, cmds[..n], i);
      StepVisible(su, r, cmds[n], i);
      TextboxVisible(cmds[n], r.objs[i]);
    }
  }

  /** An object that fades in, if at all, but never out. */
  predicate Steadfast(o: Obj) {
    o.spec.blendout == 0 && o.step >= 0
  }

  lemma SetVisibleSteadfast(o: Obj, v: bool)
    requires Steadfast(o)
    ensures Steadfast(SetVisible(o, v).0)
  {
    hide Steps;
  }

  lemma MarkKeepsStep(o: Obj, p: int, force: bool, pad: bool)
    requires InRange(p)
    ensures Mark(o, p, force, pad).0.step == o.step && Mark(o, p, force, pad).0.spec == o.spec
  {
    hide BoxAt, StripsX, StripsY;
  }

  lemma StepSteadfast(su: Setup, s: State, c: Cmd, i: nat)
    requires WellFormed(su, s) && i < |s.objs| && Steadfast(s.objs[i])
    ensures var o' := Step(su, s, c).objs; |o'| == |s.objs| && Steadfast(o'[i])
  {
    hide AllFit, AllInside, Prerender, Mark, Redrawn, MarkDamage, ToggleDamage, SetVisible;
    SetVisibleSteadfast(s.objs[i].(invalid := true), true);
    SetVisibleSteadfast(s.objs[i].(invalid := true), false);
    match c {
      case Paint(pads) => MarkKeepsStep(s.objs[i], s.progress, false, PadAt(pads, i));
      case Repaint => MarkKeepsStep(InvalidateAll(s.objs)[i], s.progress, true, false);
      case Tick(fades) => MarkKeepsStep(InvalidateAll(FaintAll(s.objs, fades))[i], s.progress, true, false);
      case _ =>
    }
  }

  /** No command of the run so far hides an object that never fades out. */
  ghost predicate Calm(su: Setup, s: State, cmds: seq<Cmd>)
    requires WellFormed(su, s)
  {
    forall i: nat :: i < |s.objs| && Steadfast(s.objs[i]) ==>
      && i < |Run(su, s, cmds).objs| && Steadfast(Run(su, s, cmds).objs[i])
      && forall k :: 0 <= k < |cmds| ==> NeverHides(cmds[k], i)
  }

  lemma CalmNext(su: Setup, s: State, cmds: seq<Cmd>, c: Cmd)
    requires WellFormed(su, s) && Calm(su, s, cmds)
    requires var r := Run(su, s, cmds).objs; forall i: nat :: i < |r| && Steadfast(r[i]) ==> NeverHides(c, i)
    requires Run(su, s, cmds + [c]) == Step(su, Run(su, s, cmds), c)
    ensures Calm(su, s, cmds + [c])
  {
    hide WellFormed, Step, Steadfast, NeverHides, Run;
    forall i: nat | i < |s.objs| && Steadfast(s.objs[i])
      ensures i < |Run(su, s, cmds + [c]).objs| && Steadfast(Run(su, s, cmds + [c]).objs[i])
      ensures forall k :: 0 <= k < |cmds + [c]| ==> NeverHides((cmds + [c])[k], i)
    {
      StepSteadfast(su, Run(su, s, cmds), c, i);
    }
  }

  /** All icons that show a service at once and without a way out follow their services. */
  ghost predicate IconsFollow(before: seq<Obj>, after: seq<Obj>, us: seq<Svc>) {
    && |before| == |after|
    && forall i, t :: 0 <= i < |before| && Steadfast(before[i]) && !before[i].spec.textbox && IsIconOf(before[i].spec, t)
         ==> after[i].visible == ShownBy(us, t, before[i].visible)
  }

  lemma {:induction false} RunKeepsCount(su: Setup, s: State, cmds: seq<Cmd>)
    requires WellFormed(su, s)
    ensures |Run(su, s, cmds).objs| == |s.objs|
    decreases |cmds|
  {
    hide WellFormed, AllFit, AllInside, Redrawn, MarkDamage, ToggleDamage;
    if cmds != [] {
      RunKeepsCount(su, s, cmds[..|cmds| - 1]);
    }
  }

  lemma CalmRunFollows(su: Setup, s: State, cmds: seq<Cmd>)
    requires WellFormed(su, s) && Calm(su, s, cmds)
    ensures IconsFollow(s.objs, Run(su, s, cmds).objs, UpdatesIn(cmds))
  {
    hide WellFormed, NeverHides, Run, UpdatesIn, LastState, IsIconOf;
    RunKeepsCount(su, s, cmds);
    forall i, t | 0 <= i < |s.objs| && Steadfast(s.objs[i]) && !s.objs[i].spec.textbox && IsIconOf(s.objs[i].spec, t)
      ensures Run(su, s, cmds).objs[i].visible == ShownBy(UpdatesIn(cmds), t, s.objs[i].visible)
    {
      RunShowsLast(su, s, cmds, i, t);
    }
  }
}
