/**
  The life of one object between the commands that show or hide it and the effects loop
  (core/src/render.c, obj_visibility_set and the invalidate functions; core/src/daemon.c,
  thf_anim): what an object with a blend-in or a blend-out looks like once its fades are over.
 */
module Lives {
  import opened Rects
  import opened Pixels
  import opened Boxes
  import opened Objects
  import opened Nodes
  import opened Fades
  import opened Scene

  /** An object, and how often it is in the list of fading objects. */
  datatype Life = Life(o: Obj, k: nat)

  datatype Event =
    | Told(c: Cmd)                                               // a service update or F3
    | Round(d: int)                                              // a pass of the effects loop
    | Cached(bnd: VRect, curr: Box, crop: VRect, invalid: bool)  // painting and progress

  function Next(l: Life, e: Event): Life {
    match e
    case Told(c) =>
      var (o, marked, listed) := Toggled(c, l.o);
      Life(o, l.k + if listed then 1 else 0)
    case Round(d) =>
      var (o, ends) := Visits(l.o, d, l.k);
      Life(o, l.k - ends)
    case Cached(bnd, curr, crop, invalid) =>
      Life(l.o.(bnd := bnd, curr := curr, cropCurr := crop, invalid := invalid), l.k)
  }

  function Live(l: Life, es: seq<Event>): Life
    decreases |es|
  {
    if es == [] then l else Next(Live(l, es[..|es| - 1]), es[|es| - 1])
  }

  lemma LiveNone(l: Life)
    ensures Live(l, []) == l
  {
  }

  lemma LiveNext(l: Life, es: seq<Event>, e: Event)
    ensures Live(l, es + [e]) == Next(Live(l, es), e)
  {
    hide Next;
    assert (es + [e])[..|es|] == es;
  }

  lemma {:induction false} LiveConcat(l: Life, es: seq<Event>, fs: seq<Event>)
    ensures Live(l, es + fs) == Live(Live(l, es), fs)
    decreases |fs|
  {
    hide Next;
    if fs == [] {
      assert es + fs == es;
    } else {
      var n := |fs| - 1;
      LiveConcat(l, es, fs[..n]);
      assert (es + fs)[..|es| + n] == es + fs[..n];
    }
  }

  /** A pass over the list of fading objects is a round in the life of every object. */
  lemma RoundOfPass(c: seq<Node>, m: map<Node, Obj>, d: int, n: Node)
    requires n in m && forall x :: x in c ==> x in m
    ensures var (c', m') := Pass(c, m, d);
            n in m' && Next(Life(m[n], Times(c, n)), Round(d)) == Life(m'[n], Times(c', n))
  {
    hide Pass, Times, Visits;
    PassOfNode(c, m, d, n);
  }

  /** A listed object is in the middle of a fade, or has no waiting time and is never touched. */
  predicate Sound(l: Life) {
    l.k > 0 ==> Fading(l.o) || l.o.wait <= 0
  }

  lemma VisitKeepsFading(o: Obj, d: int)
    requires Fading(o)
    ensures Fading(Visit(o, d).0) && Visit(o, d).0.spec == o.spec
  {
    var w := ToShort(o.wait - d);
    if w <= 0 {
      if Visit(o, d).1 {
        EndedFade(o, d);
      } else {
        LeftDrops(o);
      }
    }
  }

  /** Visits hide an object if and only if one of them ends a downward fade. */
  lemma {:induction false} VisitsVisible(o: Obj, d: int, k: nat)
    requires Fading(o) || o.wait <= 0
    ensures var (f, ends) := Visits(o, d, k);
            && (if Fading(o) then Fading(f) else f == o && ends == 0) && f.spec == o.spec && f.step == o.step
            && f.visible == (o.visible && !(o.step < 0 && ends > 0))
    decreases k
  {
    if Fading(o) && k > 0 {
      VisitKeepsFading(o, d);
      VisitKeeps(o, d);
      hide Visit;
      VisitsVisible(Visit(o, d).0, d, k - 1);
    } else if k > 0 {
      StuckVisits(o, d, k);
    }
  }

  lemma NothingVisited(o: Obj, d: int)
    ensures Visits(o, d, 0) == (o, 0)
  {
  }

  lemma FadeStarts(time: Millis)
    requires time > 0
    ensures var n := Steps(time);
            0 <= time / n <= 0x7fff && 0 < 255 / n <= 255 && (time / n > 0 <==> time >= 10)
  {
    hide Steps;
    WaitPositiveIff(time);
    StepInRange(Steps(time));
    DivMonotone(0, time, Steps(time));
  }

  /** What obj_visibility_set does to a fade. */
  lemma SetVisibleSound(l: Life, v: bool)
    requires Sound(l)
    ensures var (o, marked, listed) := SetVisible(l.o, v);
            Sound(Life(o, l.k + if listed then 1 else 0)) && o.spec == l.o.spec
  {
    hide Steps;
    if l.o.spec.blendin > 0 {
      FadeStarts(l.o.spec.blendin);
    }
    if l.o.spec.blendout > 0 {
      FadeStarts(l.o.spec.blendout);
    }
  }

  lemma SoundNext(l: Life, e: Event)
    requires Sound(l)
    ensures Sound(Next(l, e)) && Next(l, e).o.spec == l.o.spec
  {
    hide SetVisible, Visits;
    match e
    case Told(c) =>
      var want := Wanted(c, l.o);
      if want.Some? {
        SetVisibleSound(Life(l.o.(invalid := true), l.k), want.value);
      }
    case Round(d) =>
      if l.k > 0 {
        VisitsVisible(l.o, d, l.k);
      } else {
        NothingVisited(l.o, d);
      }
    case Cached(_, _, _, _) =>
  }

  lemma {:induction false} SoundLive(l: Life, es: seq<Event>)
    requires Sound(l)
    ensures Sound(Live(l, es)) && Live(l, es).o.spec == l.o.spec
    decreases |es|
  {
    hide Next, Sound;
    if es != [] {
      SoundLive(l, es[..|es| - 1]);
      SoundNext(Live(l, es[..|es| - 1]), es[|es| - 1]);
    }
  }

  /** The life of an object when its theme has been loaded. */
  function Born(w: int, h: int, sp: Spec, p: int): Life
    requires w > 0 && h > 0 && InRange(p)
  {
    Life(Loaded(w, h, sp, p), if StartsFading(sp) then 1 else 0)
  }

  /** A life begins soundly: the loader lists exactly the objects that it fades in. */
  lemma SoundStart(w: int, h: int, sp: Spec, p: int)
    requires w > 0 && h > 0 && InRange(p)
    ensures var l := Born(w, h, sp, p);
            && Sound(l) && l.o.spec == sp && l.o.visible == ShownFirst(sp.shape)
            && (l.k > 0 ==> l.o.step > 0)
  {
    hide Steps, BoxAt, Interpolate, FirstBnd;
    if StartsFading(sp) {
      FadeStarts(sp.blendin);
    }
  }

  /** The object has never been in the list of fading objects. */
  predicate NeverListed(l: Life, es: seq<Event>)
    decreases |es|
  {
    l.k == 0 && (es != [] ==> NeverListed(l, es[..|es| - 1]) && Live(l, es).k == 0)
  }

  lemma UnlistedNext(l: Life, e: Event)
    requires l.k == 0 && Next(l, e).k == 0
    ensures Next(l, e).o.opacity == l.o.opacity
  {
    hide Visits, Steps;
    if e.Round? {
      NothingVisited(l.o, e.d);
    }
  }

  /** An object that no fade has concerned keeps its opacity; a loaded one is opaque. */
  lemma {:induction false} OpaqueStays(w: int, h: int, sp: Spec, p: int, es: seq<Event>)
    requires w > 0 && h > 0 && InRange(p) && NeverListed(Born(w, h, sp, p), es)
    ensures Live(Born(w, h, sp, p), es).o.opacity == 255
    decreases |es|
  {
    hide Next, Loaded;
    if es == [] {
      LoadedIs(w, h, sp, p);
    } else {
      var n := |es| - 1;
      OpaqueStays(w, h, sp, p, es[..n]);
      UnlistedAt(Born(w, h, sp, p), es[..n]);
      UnlistedNext(Live(Born(w, h, sp, p), es[..n]), es[n]);
    }
  }

  lemma UnlistedAt(l: Life, es: seq<Event>)
    requires NeverListed(l, es)
    ensures Live(l, es).k == 0
  {
    hide Next;
  }

  /** Without durations nothing is ever listed. */
  lemma {:induction false} NoFadesNoEntries(l: Life, es: seq<Event>)
    requires l.k == 0 && l.o.spec.blendin == 0 && l.o.spec.blendout == 0
    ensures NeverListed(l, es) && Live(l, es).o.spec == l.o.spec
    decreases |es|
  {
    hide Visits;
    if es != [] {
      NoFadesNoEntries(l, es[..|es| - 1]);
      var b := Live(l, es[..|es| - 1]);
      UnlistedAt(l, es[..|es| - 1]);
      if es[|es| - 1].Round? {
        NothingVisited(b.o, es[|es| - 1].d);
      }
    }
  }

  // ---------------------------------------------------------------- the end of a fade

  /** None of the events concerns the visibility of the object. */
  predicate LeavesAlone(es: seq<Event>, o: Obj) {
    forall i :: 0 <= i < |es| && es[i].Told? ==> Wanted(es[i].c, o).None?
  }

  lemma WantedBySpec(c: Cmd, a: Obj, b: Obj)
    requires a.spec == b.spec
    ensures Wanted(c, a) == Wanted(c, b)
  {
  }

  lemma AloneNext(l: Life, e: Event)
    requires Sound(l) && (e.Told? ==> Wanted(e.c, l.o).None?)
    ensures var n := Next(l, e);
            && n.o.step == l.o.step && n.k <= l.k && n.o.visible == (l.o.visible && !(l.o.step < 0 && n.k < l.k))
  {
    hide Visits, SetVisible;
    if e.Round? {
      if l.k > 0 {
        VisitsVisible(l.o, e.d, l.k);
      } else {
        NothingVisited(l.o, e.d);
      }
    }
  }

  /** Left alone, an object is hidden if and only if one of its downward fades ends. */
  lemma {:induction false} AloneVisible(l: Life, es: seq<Event>)
    requires Sound(l) && LeavesAlone(es, l.o)
    ensures var n := Live(l, es);
            && n.o.step == l.o.step && n.k <= l.k && n.o.visible == (l.o.visible && !(l.o.step < 0 && n.k < l.k))
    decreases |es|
  {
    hide Next, Sound;
    if es != [] {
      var m := |es| - 1;
      SoundLive(l, es[..m]);
      AloneVisible(l, es[..m]);
      if es[m].Told? {
        WantedBySpec(es[m].c, l.o, Live(l, es[..m]).o);
      }
      AloneNext(Live(l, es[..m]), es[m]);
    }
  }

  /** The object can pay for all its entries with b milliseconds. */
  ghost predicate Covers(l: Life, r: int, b: int) {
    l.k > 0 ==> Pays(l.o, l.k, r, b)
  }

  function RoundsIn(es: seq<Event>): nat {
    if es == [] then 0 else RoundsIn(es[..|es| - 1]) + if es[|es| - 1].Round? then 1 else 0
  }

  predicate GoodDelays(es: seq<Event>) {
    forall i :: 0 <= i < |es| && es[i].Round? ==> GoodDelay(es[i].d)
  }

  lemma PaysNext(l: Life, e: Event, r: nat, b: int)
    requires Covers(l, r, b) && (e.Told? ==> Wanted(e.c, l.o).None?) && (e.Round? ==> GoodDelay(e.d))
    ensures Covers(Next(l, e), r, b - if e.Round? then 1 else 0)
  {
    hide Visits, SetVisible;
    if e.Round? {
      hide Fading, Rank;
      if l.k > 0 {
        VisitsPay(l.o, e.d, l.k, r);
        var ends := Visits(l.o, e.d, l.k).1;
        assert (l.k - 1 - ends) * r + ends * r == (l.k - 1) * r;
      } else {
        NothingVisited(l.o, e.d);
      }
    }
  }

  lemma {:induction false} AlonePays(l: Life, es: seq<Event>, r: nat, b: int)
    requires Sound(l) && Covers(l, r, b) && LeavesAlone(es, l.o) && GoodDelays(es)
    ensures Covers(Live(l, es), r, b - RoundsIn(es))
    decreases |es|
  {
    hide Next, Covers, Sound;
    if es != [] {
      var m := |es| - 1;
      AlonePays(l, es[..m], r, b);
      SoundLive(l, es[..m]);
      if es[m].Told? {
        WantedBySpec(es[m].c, l.o, Live(l, es[..m]).o);
      }
      PaysNext(Live(l, es[..m]), es[m], r, b - RoundsIn(es[..m]));
    }
  }

  lemma NothingOwed(l: Life, r: nat, b: int)
    requires Covers(l, r, b) && b <= 0
    ensures l.k == 0
  {
    hide Rank;
    if l.k > 0 {
      RankPositive(l.o);
      MulMonotone(0, l.k - 1, r);
      assert false;
    }
  }

  /** A bound on the milliseconds that each entry of an object in the list takes. */
  function Span(l: Life): int
    requires l.k > 0 ==> Fading(l.o)
  {
    if l.k > 0 then Max(Rank(l.o), l.o.tstep) else 0
  }

  /** The fades of an object that is left alone are over after Span(...) passes for each of its
      entries in the list. */
  lemma FadesEnd(l: Life, es: seq<Event>)
    requires l.k > 0 ==> Fading(l.o)
    requires LeavesAlone(es, l.o) && GoodDelays(es) && RoundsIn(es) >= l.k * Span(l)
    ensures Live(l, es).k == 0
  {
    hide Rank, Fading, Live;
    var r := Span(l);
    if l.k > 0 {
      RankPositive(l.o);
      assert (l.k - 1) * r == l.k * r - r;
      AlonePays(l, es, r, l.k * r);
      NothingOwed(Live(l, es), r, l.k * r - RoundsIn(es));
    } else {
      AlonePays(l, es, 0, 0);
      NothingOwed(Live(l, es), 0, 0 - RoundsIn(es));
    }
  }

  lemma {:induction false} SoManyRounds(n: nat)
    ensures RoundsIn(seq(n, _ => Round(1))) == n
    decreases n
  {
    if n > 0 {
      SoManyRounds(n - 1);
      assert seq(n, _ => Round(1))[..n - 1] == seq(n - 1, _ => Round(1));
    }
  }

  lemma {:induction false} StuckStaysListed(l: Life, es: seq<Event>)
    requires l.k > 0 && l.o.wait <= 0 && LeavesAlone(es, l.o)
    ensures Live(l, es).k == l.k && Live(l, es).o.wait == l.o.wait && Live(l, es).o.spec == l.o.spec
    decreases |es|
  {
    hide Visits, SetVisible;
    if es != [] {
      var m := |es| - 1;
      StuckStaysListed(l, es[..m]);
      var b := Live(l, es[..m]);
      if es[m].Round? {
        StuckVisits(b.o, es[m].d, b.k);
      } else if es[m].Told? {
        WantedBySpec(es[m].c, l.o, b.o);
      }
    }
  }

  /** The fades of an object can end if and only if it has a waiting time, or is not listed. */
  lemma FadesEndIff(l: Life)
    requires Sound(l)
    ensures (exists es :: LeavesAlone(es, l.o) && GoodDelays(es) && Live(l, es).k == 0) <==> l.k == 0 || Fading(l.o)
  {
    hide Rank, Live;
    if l.k == 0 || Fading(l.o) {
      if l.k > 0 {
        RankPositive(l.o);
      }
      MulMonotone(0, l.k, Span(l));
      var es := seq(l.k * Span(l), _ => Round(1));
      SoManyRounds(l.k * Span(l));
      FadesEnd(l, es);
    } else {
      forall es | LeavesAlone(es, l.o) ensures Live(l, es).k != 0 {
        StuckStaysListed(l, es);
      }
    }
  }

  // ------------------------------------------------------------------- the main result

  /** A call that wants an object visible comes too late if the object is in the list with a
      downward fade that the call does not replace. */
  predicate TooLate(l: Life, v: bool) {
    v && l.k > 0 && l.o.step < 0 && (l.o.visible || l.o.spec.blendin == 0)
  }

  lemma ToldFate(l: Life, c: Cmd)
    requires Wanted(c, l.o).Some?
    ensures var v, n := Wanted(c, l.o).value, Next(l, Told(c));
            && (n.o.visible && !(n.k > 0 && n.o.step < 0)) == (v && !TooLate(l, v))
            && n.o.visible == (v || (l.o.visible && l.o.spec.blendout > 0))
  {
    hide Steps;
    if l.o.spec.blendin > 0 {
      FadeStarts(l.o.spec.blendin);
    }
    if l.o.spec.blendout > 0 {
      FadeStarts(l.o.spec.blendout);
    }
  }

  /** Whatever an object has been through, and whatever else happens afterwards, a command that
      concerns it has led, once its fades are over, to the visibility asked for if and only if the
      command did not come too late.  Before that the object has been hidden if and only if one of
      its downward fades has ended. */
  lemma SettlesIff(l: Life, es: seq<Event>, c: Cmd, after: seq<Event>)
    requires Sound(l) && Wanted(c, l.o).Some? && LeavesAlone(after, l.o)
    ensures var before := Live(l, es);
            var told := Next(before, Told(c));
            var now := Live(told, after);
            var v := Wanted(c, l.o).value;
            && (now.k == 0 ==> (now.o.visible == v <==> !TooLate(before, v)))
            && told.o.visible == (v || (before.o.visible && l.o.spec.blendout > 0))
            && now.o.visible == (told.o.visible && !(told.o.step < 0 && now.k < told.k))
            && now.k <= told.k
  {
    hide Next, Live, Sound;
    SoundLive(l, es);
    var before := Live(l, es);
    WantedBySpec(c, before.o, l.o);
    var told := Next(before, Told(c));
    SoundNext(before, Told(c));
    ToldFate(before, c);
    AloneBySpec(after, l.o, told.o);
    AloneVisible(told, after);
  }

  lemma AloneBySpec(es: seq<Event>, a: Obj, b: Obj)
    requires a.spec == b.spec && LeavesAlone(es, a)
    ensures LeavesAlone(es, b)
  {
    forall i | 0 <= i < |es| && es[i].Told? ensures Wanted(es[i].c, b).None? {
      WantedBySpec(es[i].c, a, b);
    }
  }

  /** The first update starts the blend-out, the second finds the icon visible and does nothing. */
  lemma BlendoutGoesOn(o: Obj, t: Trigger, other: SvcState)
    requires TriggerOf(o.spec.shape) == Some(t) && other != t.ty
    requires o.visible && o.spec.blendout > 0
    ensures var l := Next(Life(o, 0), Told(Service(t.svc, other)));
            && TooLate(l, true) && l.o.visible
            && (Fading(l.o) <==> o.spec.blendout >= 10)
            && Next(l, Told(Service(t.svc, t.ty))) == Life(l.o.(invalid := true), l.k)
  {
    hide Steps;
    FadeStarts(o.spec.blendout);
  }

  /** An icon whose state comes back during its blend-out vanishes all the same, once it has been
      passed often enough, if the blend-out lasts ten milliseconds or more. */
  lemma WantedAgainVanishes(o: Obj, t: Trigger, other: SvcState, es: seq<Event>)
    requires TriggerOf(o.spec.shape) == Some(t) && other != t.ty
    requires o.visible && o.spec.blendout >= 10
    requires LeavesAlone(es, o) && GoodDelays(es)
    ensures var l := Live(Life(o, 0), [Told(Service(t.svc, other)), Told(Service(t.svc, t.ty))]);
            && l.o.visible && Fading(l.o)
            && (RoundsIn(es) >= l.k * Span(l) ==> Live(l, es).k == 0 && !Live(l, es).o.visible)
  {
    hide Live, Next, Rank, TooLate;
    var e1, e2 := Told(Service(t.svc, other)), Told(Service(t.svc, t.ty));
    var s := Life(o, 0);
    var none: seq<Event> := [];
    assert none + [e1] == [e1] && [e1] + [e2] == [e1, e2];
    LiveNext(s, none, e1);
    LiveNext(s, [e1], e2);
    LiveNone(s);
    BlendoutGoesOn(o, t, other);
    SettlesIff(s, [e1], e2.c, es);
    var l := Live(s, [e1, e2]);
    FadingIgnoresInvalid(Live(s, [e1]).o);
    SoundLive(s, [e1, e2]);
    AloneBySpec(es, o, l.o);
    if RoundsIn(es) >= l.k * Span(l) {
      FadesEnd(l, es);
    }
  }

  lemma FadingIgnoresInvalid(o: Obj)
    ensures Fading(o.(invalid := true)) == Fading(o)
  {
  }

  // ------------------------------------------------------------ lives up to their caches

  /** Two lives of one object that differ in its caches only. */
  predicate SameFade(a: Life, b: Life) {
    a.k == b.k && SameFades(a.o, b.o)
  }

  lemma {:induction false} VisitsSame(a: Obj, b: Obj, d: int, k: nat)
    requires SameFades(a, b)
    ensures SameFades(Visits(a, d, k).0, Visits(b, d, k).0) && Visits(a, d, k).1 == Visits(b, d, k).1
    decreases k
  {
    if k > 0 {
      VisitsSame(Visit(a, d).0, Visit(b, d).0, d, k - 1);
    }
  }

  /** The caches do not matter for what follows. */
  lemma SameNext(a: Life, b: Life, e: Event)
    requires SameFade(a, b)
    ensures SameFade(Next(a, e), Next(b, e))
  {
    hide Visits, Steps;
    if e.Round? {
      VisitsSame(a.o, b.o, e.d, a.k);
    }
  }
}
