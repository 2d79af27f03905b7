/**
  What a reload of the theme does to objects that have been through service updates, presses of
  F3 and passes of the effects loop (core/src/daemon.c, reload_theme): exactly when the replay of
  the recorded states leaves an object as visible as it was.
 */
module Reloads {
  import opened Rects
  import opened Objects
  import opened Fades
  import opened Scene
  import opened Services
  import opened Lives

  /** The service updates among the events of a life. */
  function UpdatesOf(es: seq<Event>): seq<Svc> {
    if es == [] then []
    else
      UpdatesOf(es[..|es| - 1])
      + match es[|es| - 1] case Told(Service(name, state)) => [Svc(name, state)] case _ => []
  }

  /** What the replay makes of an object: icons show the last state, all other objects are shown. */
  function ReplayShows(sp: Spec, us: seq<Svc>): bool {
    var t := TriggerOf(sp.shape);
    t.Some? ==> LastState(us, t.value.svc) == Some(t.value.ty)
  }

  lemma ReplayIs(w: int, h: int, sp: Spec, p: int, us: seq<Svc>)
    requires w > 0 && h > 0 && InRange(p)
    ensures AfterUpdates(Loaded(w, h, sp, p), Recorded(us)).visible <==> ReplayShows(sp, us)
  {
    hide Loaded, AfterUpdates, LastState, Recorded;
    var t := TriggerOf(sp.shape);
    if t.Some? {
      ReloadShowsLast(w, h, sp, p, t.value, us);
    } else {
      LoadedShown(w, h, sp, p);
      Untouched(Loaded(w, h, sp, p), Recorded(us));
    }
  }

  lemma UpdatesNext(es: seq<Event>, e: Event)
    ensures UpdatesOf(es + [e]) == UpdatesOf(es) + match e case Told(Service(name, state)) => [Svc(name, state)] case _ => []
  {
    assert (es + [e])[..|es|] == es;
  }

  lemma LastNext(us: seq<Svc>, u: Svc, name: string)
    ensures LastState(us + [u], name) == if u.name == name then Some(u.state) else LastState(us, name)
    ensures LastState(us + [], name) == LastState(us, name)
  {
    assert (us + [u])[..|us|] == us && us + [] == us;
  }

  /** Events that do not concern an icon leave the last state of its service alone. */
  lemma {:induction false} AloneKeepsLast(es: seq<Event>, after: seq<Event>, o: Obj, t: Trigger)
    requires TriggerOf(o.spec.shape) == Some(t) && LeavesAlone(after, o)
    ensures LastState(UpdatesOf(es + after), t.svc) == LastState(UpdatesOf(es), t.svc)
    decreases |after|
  {
    hide LastState, UpdatesOf;
    if after == [] {
      assert es + after == es;
    } else {
      var n := |after| - 1;
      var e := after[n];
      assert es + after == (es + after[..n]) + [e];
      AloneKeepsLast(es, after[..n], o, t);
      UpdatesNext(es + after[..n], e);
      LastNext(UpdatesOf(es + after[..n]), if e.Told? && e.c.Service? then Svc(e.c.name, e.c.state) else Svc("", Start), t.svc);
    }
  }

  /** A service update that concerns an icon decides what the replay shows. */
  lemma ServiceDecides(sp: Spec, o: Obj, es: seq<Event>, c: Cmd, after: seq<Event>)
    requires o.spec == sp && c.Service? && Wanted(c, o).Some? && LeavesAlone(after, o)
    ensures ReplayShows(sp, UpdatesOf(es + [Told(c)] + after)) == Wanted(c, o).value
  {
    hide LastState, UpdatesOf;
    var t := TriggerOf(sp.shape).value;
    AloneKeepsLast(es + [Told(c)], after, o, t);
    UpdatesNext(es, Told(c));
    LastNext(UpdatesOf(es), Svc(c.name, c.state), t.svc);
  }

  /** One of the downward fades that the object was in after the command has ended since. */
  predicate FadedOut(told: Life, now: Life) {
    told.o.step < 0 && now.k < told.k
  }

  /** Take any history of an object since its theme was loaded, in which c is the last command
      that concerned it.  A reload leaves the object as visible as it was if and only if: once its
      fades are over, the replay shows what the command asked for and got; before that, it shows
      what the command left visible and no ended fade has hidden. */
  lemma ReloadAgreesIff(w: int, h: int, sp: Spec, p: int, p': int, es: seq<Event>, c: Cmd, after: seq<Event>)
    requires w > 0 && h > 0 && InRange(p) && InRange(p')
    requires var o := Loaded(w, h, sp, p); Wanted(c, o).Some? && LeavesAlone(after, o)
    ensures var before := Live(Born(w, h, sp, p), es);
            var told := Next(before, Told(c));
            var now := Live(told, after);
            var v := Wanted(c, Loaded(w, h, sp, p)).value;
            var us := UpdatesOf(es + [Told(c)] + after);
            var agrees := AfterUpdates(Loaded(w, h, sp, p'), Recorded(us)).visible == now.o.visible;
            && told.o.visible == (v || (before.o.visible && sp.blendout > 0))
            && (now.k == 0 ==> (agrees <==> ReplayShows(sp, us) == (v && !TooLate(before, v))))
            && (agrees <==> ReplayShows(sp, us) == (told.o.visible && !FadedOut(told, now)))
  {
    hide Loaded, Live, Next, AfterUpdates, Recorded, UpdatesOf, LastState, Sound;
    SoundStart(w, h, sp, p);
    SettlesIff(Born(w, h, sp, p), es, c, after);
    ReplayIs(w, h, sp, p', UpdatesOf(es + [Told(c)] + after));
  }

  /** Icons after a service update, and objects of the textbox without a service after F3: once
      its fades are over, such an object survives a reload if and only if the command did not come
      too late and, for F3, the textbox was switched on. */
  lemma ReloadSettledIff(w: int, h: int, sp: Spec, p: int, p': int, es: seq<Event>, c: Cmd, after: seq<Event>)
    requires w > 0 && h > 0 && InRange(p) && InRange(p')
    requires var o := Loaded(w, h, sp, p); Wanted(c, o).Some? && LeavesAlone(after, o)
    requires c.Service? || TriggerOf(sp.shape).None?
    requires Live(Next(Live(Born(w, h, sp, p), es), Told(c)), after).k == 0
    ensures var before := Live(Born(w, h, sp, p), es);
            var now := Live(Next(before, Told(c)), after);
            var v := Wanted(c, Loaded(w, h, sp, p)).value;
            var us := UpdatesOf(es + [Told(c)] + after);
            AfterUpdates(Loaded(w, h, sp, p'), Recorded(us)).visible == now.o.visible
            <==> !TooLate(before, v) && (c.Service? || v)
  {
    hide Loaded, Live, Next, AfterUpdates, Recorded, UpdatesOf, LastState;
    SoundStart(w, h, sp, p);
    ReloadAgreesIff(w, h, sp, p, p', es, c, after);
    if c.Service? {
      ServiceDecides(sp, Loaded(w, h, sp, p), es, c, after);
    }
  }

  /** While an icon is still listed after a service update, it survives a reload if and only if it
      is wanted and no downward fade has ended, or is not wanted and is hidden already. */
  lemma ReloadListedIff(w: int, h: int, sp: Spec, p: int, p': int, es: seq<Event>, c: Cmd, after: seq<Event>)
    requires w > 0 && h > 0 && InRange(p) && InRange(p') && c.Service?
    requires var o := Loaded(w, h, sp, p); Wanted(c, o).Some? && LeavesAlone(after, o)
    ensures var before := Live(Born(w, h, sp, p), es);
            var told := Next(before, Told(c));
            var now := Live(told, after);
            var v := Wanted(c, Loaded(w, h, sp, p)).value;
            var us := UpdatesOf(es + [Told(c)] + after);
            AfterUpdates(Loaded(w, h, sp, p'), Recorded(us)).visible == now.o.visible
            <==> if v then !FadedOut(told, now) else !before.o.visible || sp.blendout == 0 || FadedOut(told, now)
  {
    hide Loaded, Live, Next, AfterUpdates, Recorded, UpdatesOf, LastState, FadedOut;
    SoundStart(w, h, sp, p);
    ReloadAgreesIff(w, h, sp, p, p', es, c, after);
    ServiceDecides(sp, Loaded(w, h, sp, p), es, c, after);
  }

  /** An object that no command has concerned survives every reload. */
  lemma ReloadUntold(w: int, h: int, sp: Spec, p: int, p': int, es: seq<Event>)
    requires w > 0 && h > 0 && InRange(p) && InRange(p') && LeavesAlone(es, Loaded(w, h, sp, p))
    ensures AfterUpdates(Loaded(w, h, sp, p'), Recorded(UpdatesOf(es))).visible == Live(Born(w, h, sp, p), es).o.visible
  {
    hide Loaded, Live, AfterUpdates, Recorded, UpdatesOf, LastState, Sound;
    SoundStart(w, h, sp, p);
    AloneVisible(Born(w, h, sp, p), es);
    ReplayIs(w, h, sp, p', UpdatesOf(es));
    var t := TriggerOf(sp.shape);
    if t.Some? {
      var none: seq<Event> := [];
      assert none + es == es;
      AloneKeepsLast(none, es, Loaded(w, h, sp, p), t.value);
      NothingUpdated(t.value.svc);
    }
    FirstShownIff(sp.shape);
  }

  lemma NothingUpdated(name: string)
    ensures LastState(UpdatesOf([]), name) == None
  {
  }

  lemma FirstShownIff(s: Shape)
    ensures ShownFirst(s) <==> TriggerOf(s).None?
  {
  }

  /** A reload brings back an icon that has vanished although its state was the last one. */
  lemma ReloadRevives(w: int, h: int, sp: Spec, p: int, p': int, t: Trigger, other: SvcState, after: seq<Event>)
    requires w > 0 && h > 0 && InRange(p) && InRange(p') && IsIconOf(sp, t) && other != t.ty
    requires sp.blendin == 0 && sp.blendout >= 10
    requires LeavesAlone(after, Loaded(w, h, sp, p)) && GoodDelays(after)
    ensures var own, off := Told(Service(t.svc, t.ty)), Told(Service(t.svc, other));
            var told := Live(Born(w, h, sp, p), [own, off, own]);
            && told.k == 1 && Fading(told.o)
            && AfterUpdates(Loaded(w, h, sp, p'), Recorded(UpdatesOf([own, off, own] + after))).visible
            && (RoundsIn(after) >= Span(told) ==> !Live(told, after).o.visible)
  {
    hide Loaded, Live, Next, AfterUpdates, Recorded, UpdatesOf, LastState, Span, Fading, LeavesAlone;
    var own, off := Told(Service(t.svc, t.ty)), Told(Service(t.svc, other));
    var born := Born(w, h, sp, p);
    SoundStart(w, h, sp, p);
    FirstShownIff(sp.shape);
    FirstOwn(born, t);
    var shown := Next(born, own);
    var none: seq<Event> := [];
    LiveNone(born);
    LiveNext(born, none, own);
    LiveNext(born, [own], off);
    LiveNext(born, [own, off], own);
    LiveNone(shown);
    LiveNext(shown, none, off);
    LiveNext(shown, [off], own);
    assert none + [own] == [own] && [own] + [off] == [own, off] && [own, off] + [own] == [own, off, own];
    assert none + [off] == [off] && [off] + [own] == [off, own];
    var told := Live(born, [own, off, own]);
    assert told == Live(shown, [off, own]);
    AloneBySpec(after, Loaded(w, h, sp, p), shown.o);
    WantedAgainVanishes(shown.o, t, other, after);
    ListedOnce(shown.o, t, other);
    ReplayIs(w, h, sp, p', UpdatesOf([own, off, own] + after));
    ServiceDecides(sp, shown.o, [own, off], own.c, after);
  }

  lemma FirstOwn(l: Life, t: Trigger)
    requires TriggerOf(l.o.spec.shape) == Some(t) && !l.o.visible && l.o.spec.blendin == 0 && l.k == 0
    ensures var n := Next(l, Told(Service(t.svc, t.ty)));
            n == Life(n.o, 0) && n.o.visible && n.o.spec == l.o.spec
  {
  }

  lemma ListedOnce(o: Obj, t: Trigger, other: SvcState)
    requires TriggerOf(o.spec.shape) == Some(t) && other != t.ty && o.visible && o.spec.blendout > 0
    ensures Live(Life(o, 0), [Told(Service(t.svc, other)), Told(Service(t.svc, t.ty))]).k == 1
  {
    hide Steps;
    var e1, e2 := Told(Service(t.svc, other)), Told(Service(t.svc, t.ty));
    assert [e1, e2][..1] == [e1] && [e1][..0] == [];
    assert Live(Life(o, 0), [e1]) == Next(Life(o, 0), e1);
  }
}
