/**
  Fading objects: the special-effects loop of the animation thread (core/src/daemon.c, thf_anim)
  and the fade parameters set by obj_visibility_set (core/src/render.c).

  One pass of the loop walks the list of fading objects, lowers their waiting times, moves the
  opacity of those whose time is up, and unlinks the ones that have arrived.
 */
module Fades {
  import opened Rects
  import opened Pixels
  import opened Objects
  import opened Lists
  import opened Nodes

  /** Conversion to a 16-bit signed integer. */
  function ToShort(v: int): int {
    (v + 0x8000) % 0x1_0000 - 0x8000
  }

  /** It keeps the low sixteen bits. */
  lemma ToShortWraps(v: int)
    ensures -0x8000 <= ToShort(v) <= 0x7fff && (ToShort(v) - v) % 0x1_0000 == 0
  {
  }

  /** What happens to an object whose waiting time is up, and whether its fade is over.  The end
      is recognised by the wrap-around of the opacity byte. */
  function Expire(o: Obj): (Obj, bool) {
    var moved: byte := (o.opacity + o.step) % 256;
    var next := o.(invalid := true, wait := ToShort(o.tstep));
    if o.step > 0 then
      if o.opacity > moved then (next.(opacity := 255), true) else (next.(opacity := moved), false)
    else
      if o.opacity < moved then (next.(opacity := 0, visible := false), true) else (next.(opacity := moved), false)
  }

  /** One visit of the loop to an object, after a delay of d milliseconds. */
  function Visit(o: Obj, d: int): (Obj, bool) {
    if o.wait > 0 then
      var w := ToShort(o.wait - d);
      if w <= 0 then Expire(o) else (o.(wait := w), false)
    else (o, false)
  }

  // ------------------------------------------------------------------- one fade

  /** The object after j expiries. */
  function AfterExpiries(o: Obj, j: nat): Obj {
    if j == 0 then o else Expire(AfterExpiries(o, j - 1)).0
  }

  /** The wrap-around is noticed exactly when the next step would pass 255. */
  lemma ExpireUp(o: Obj)
    requires 0 < o.step <= 255
    ensures Expire(o).1 <==> o.opacity + o.step > 255
    ensures Expire(o).0.opacity == Min(o.opacity + o.step, 255)
    ensures Expire(o).0.step == o.step && Expire(o).0.visible == o.visible
  {
  }

  /** Downward, exactly when the next step would pass 0. */
  lemma ExpireDown(o: Obj)
    requires -255 <= o.step < 0
    ensures Expire(o).1 <==> o.opacity + o.step < 0
    ensures Expire(o).0.opacity == Max(o.opacity + o.step, 0)
    ensures Expire(o).0.step == o.step && Expire(o).0.visible == (o.visible && !Expire(o).1)
  {
  }

  /** Every expiry invalidates the object and starts the next waiting time; nothing else but opacity
      and visibility changes. */
  lemma ExpireKeeps(o: Obj)
    requires 0 <= o.tstep <= 0x7fff
    ensures var f := Expire(o).0;
            f == o.(invalid := true, wait := o.tstep, opacity := f.opacity, visible := f.visible)
  {
  }

  /** m is the number of whole steps s in a range of the given length. */
  lemma WholeSteps(range: nat, s: int, j: nat)
    requires s > 0 && j <= range / s
    ensures j * s <= range
    ensures j == range / s <==> j * s + s > range
  {
    var m := range / s;
    assert m * s <= range < m * s + s;
    MulMonotone(j, m, s);
    if j < m {
      MulMonotone(j + 1, m, s);
      assert (j + 1) * s == j * s + s;
    }
  }

  /** Upward fade from any opacity: it rises by the step at each expiry, the wrap-around is
      noticed at the first expiry that would pass 255, and the object ends at exactly 255. */
  lemma {:induction false} RiseExactly(o: Obj, j: nat)
    requires 0 < o.step <= 255 && j <= (255 - o.opacity) / o.step
    ensures var f := AfterExpiries(o, j);
            && f.opacity == o.opacity + j * o.step && f.step == o.step && f.visible == o.visible
            && (Expire(f).1 <==> j == (255 - o.opacity) / o.step)
            && (Expire(f).1 ==> Expire(f).0.opacity == 255 && Expire(f).0.visible == o.visible)
  {
    hide Expire;
    WholeSteps(255 - o.opacity, o.step, j);
    if j > 0 {
      RiseExactly(o, j - 1);
      WholeSteps(255 - o.opacity, o.step, j - 1);
      ExpireUp(AfterExpiries(o, j - 1));
      assert j * o.step == (j - 1) * o.step + o.step;
    }
    ExpireUp(AfterExpiries(o, j));
  }

  /** Downward fade: the mirror image, ending at 0 and invisible. */
  lemma {:induction false} FallExactly(o: Obj, j: nat)
    requires -255 <= o.step < 0 && j <= o.opacity / -o.step
    ensures var f := AfterExpiries(o, j);
            && f.opacity == o.opacity + j * o.step && f.step == o.step && f.visible == o.visible
            && (Expire(f).1 <==> j == o.opacity / -o.step)
            && (Expire(f).1 ==> Expire(f).0.opacity == 0 && !Expire(f).0.visible)
  {
    hide Expire;
    var s := -o.step;
    assert j * o.step == -(j * s);
    WholeSteps(o.opacity, s, j);
    if j > 0 {
      FallExactly(o, j - 1);
      WholeSteps(o.opacity, s, j - 1);
      ExpireDown(AfterExpiries(o, j - 1));
      assert j * o.step == (j - 1) * o.step + o.step;
    }
    ExpireDown(AfterExpiries(o, j));
  }

  /** The number of expiries of a fade over the full range with n steps. */
  function Expiries(n: int): int
    requires 10 <= n <= 255
  {
    255 / (255 / n) + 1
  }

  lemma QuotientOf(v: nat, s: int)
    requires s > 0
    ensures v / s * s <= v < v / s * s + s
  {
  }

  lemma StepOf(n: int)
    requires 10 <= n <= 255
    ensures 255 / n >= 1
  {
    DivMonotone(n, 255, n);
    DivExact(1, n);
  }

  /** A full fade takes more than n expiries and at most 2n. */
  lemma ExpiriesBounds(n: int)
    requires 10 <= n <= 255
    ensures n + 1 <= Expiries(n) <= 2 * n
  {
    var s := 255 / n;
    StepOf(n);
    QuotientOf(255, n);
    QuotientOf(255, s);
    DivMonotone(n * s, 255, s);
    DivExact(n, s);
    MulMonotone(1, s, n);
    assert 2 * n * s == s * n + s * n;
    if 255 / s >= 2 * n {
      MulMonotone(2 * n, 255 / s, s);
    }
  }

  /** The whole life of a fade-in: n steps as obj_opacity_steps gives them, opacity a multiple of
      the step until the last expiry, which sets 255.  A fade-out mirrors it. */
  lemma FullFade(o: Obj, j: nat)
    requires o.spec.blendin > 0 && !o.visible
    requires j < Expiries(Steps(o.spec.blendin))
    ensures var n := Steps(o.spec.blendin);
            var f := AfterExpiries(SetVisible(o, true).0, j);
            && f.opacity == j * (255 / n) && f.visible
            && (Expire(f).1 <==> j + 1 == Expiries(n))
            && (Expire(f).1 ==> Expire(f).0.opacity == 255)
  {
    hide Expire, AfterExpiries, Steps;
    RiseExactly(SetVisible(o, true).0, j);
  }

  lemma FullFadeOut(o: Obj, j: nat)
    requires o.spec.blendout > 0 && o.visible && o.opacity == 255
    requires j < Expiries(Steps(o.spec.blendout))
    ensures var n := Steps(o.spec.blendout);
            var f := AfterExpiries(SetVisible(o, false).0, j);
            && f.opacity == 255 - j * (255 / n) && f.visible
            && (Expire(f).1 <==> j + 1 == Expiries(n))
            && (Expire(f).1 ==> Expire(f).0.opacity == 0 && !Expire(f).0.visible)
  {
    hide Expire, AfterExpiries, Steps;
    FallExactly(SetVisible(o, false).0, j);
    var s := 255 / Steps(o.spec.blendout);
    assert j * -s == -(j * s);
  }

  // ------------------------------------------------------------ fades that get stuck

  /** A fade gets a waiting time above zero, and so can make progress, if and only if it is
      meant to last at least ten milliseconds. */
  lemma WaitPositiveIff(time: nat)
    requires 0 < time < 0x1_0000
    ensures time / Steps(time) > 0 <==> time >= 10
    ensures time / Steps(time) <= 0x7fff
  {
    var n := Steps(time);
    if time >= 10 {
      if time >= 500 {
        assert n <= 20 * time / 1000 <= time;
      }
      DivMonotone(n, time, n);
      DivExact(1, n);
    }
    DivSmaller(time, n);
  }

  lemma DivSmaller(v: nat, n: int)
    requires n >= 10
    ensures v / n <= v / 10
  {
    if v / n > v / 10 {
      MulMonotone(10, n, v / n);
    }
  }

  /** A whole fade with a waiting time lasts about as long as the theme asks for: its waiting times
      add up to more than that less a millisecond for each step, and to at most twice that. */
  lemma FadeTime(time: nat)
    requires 10 <= time < 0x1_0000
    ensures var n := Steps(time);
            var total := Expiries(n) * (time / n);
            time - n < total <= 2 * time
  {
    hide Steps, Expiries;
    var n := Steps(time);
    ExpiriesBounds(n);
    QuotientOf(time, n);
    DivMonotone(0, time, n);
    TotalBetween(n, time / n, Expiries(n), time);
  }

  lemma TotalBetween(n: int, t: int, e: int, time: int)
    requires n + 1 <= e <= 2 * n && t >= 0 && t * n <= time < t * n + n
    ensures time - n < e * t <= 2 * time
  {
    MulMonotone(n + 1, e, t);
    MulMonotone(e, 2 * n, t);
    assert (n + 1) * t == t * n + t && (2 * n) * t == 2 * (t * n);
  }

  /** An object without waiting time is never touched again, however often the loop runs. */
  lemma {:induction false} StuckForever(o: Obj, ds: seq<int>)
    requires o.wait <= 0
    ensures VisitAll(o, ds) == (o, false)
    decreases |ds|
  {
    if ds != [] {
      StuckForever(o, ds[1..]);
    }
  }

  /** An object visited with the delays of a list, until its fade ends. */
  function VisitAll(o: Obj, ds: seq<int>): (Obj, bool)
    decreases |ds|
  {
    if ds == [] then (o, false)
    else
      var (o', end) := Visit(o, ds[0]);
      if end then (o', true) else VisitAll(o', ds[1..])
  }

  // --------------------------------------------------------- the fades always end

  /** An object in the middle of a fade. */
  predicate Fading(o: Obj) {
    && 0 < o.wait <= 0x7fff && 0 < o.tstep <= 0x7fff
    && (0 < o.step <= 255 || -255 <= o.step < 0)
  }

  /** The number of expiries after the next one. */
  function Left(o: Obj): int
    requires Fading(o)
  {
    if o.step > 0 then (255 - o.opacity) / o.step else o.opacity / -o.step
  }

  /** An upper bound on the milliseconds the fade still takes. */
  function Rank(o: Obj): int
    requires Fading(o)
  {
    Left(o) * o.tstep + o.wait
  }

  predicate GoodDelay(d: int) {
    0 < d <= 0x8000
  }

  lemma LeftDrops(o: Obj)
    requires Fading(o) && !Expire(o).1
    ensures Fading(Expire(o).0) && Left(Expire(o).0) == Left(o) - 1 >= 0
    ensures Expire(o).0.tstep == o.tstep && Expire(o).0.wait == o.tstep
  {
    if o.step > 0 {
      ExpireUp(o);
      DivDrop(255 - o.opacity, o.step);
    } else {
      ExpireDown(o);
      DivDrop(o.opacity, -o.step);
    }
  }

  lemma DivDrop(v: int, s: int)
    requires 0 < s <= v
    ensures (v - s) / s == v / s - 1 && v / s >= 1
  {
    var q := v / s;
    assert q * s <= v < q * s + s;
    assert (q - 1) * s == q * s - s;
    assert q >= 1;
    assert v - s == (q - 1) * s + (v - q * s);
    var r := (v - s) / s;
    assert r * s <= v - s < r * s + s;
    if r > q - 1 {
      MulMonotone(q, r, s);
    } else if r < q - 1 {
      MulMonotone(r + 1, q - 1, s);
    }
  }

  /** Every visit brings the end of a fade nearer. */
  lemma VisitLowersRank(o: Obj, d: int)
    requires Fading(o) && GoodDelay(d) && !Visit(o, d).1
    ensures Fading(Visit(o, d).0) && 0 < Rank(Visit(o, d).0) < Rank(o)
  {
    hide Expire, Left;
    var w := ToShort(o.wait - d);
    assert w == o.wait - d;
    if w <= 0 {
      LeftDrops(o);
      assert Left(o) * o.tstep == (Left(o) - 1) * o.tstep + o.tstep;
      MulMonotone(0, Left(o) - 1, o.tstep);
    } else {
      LeftNonNegative(o);
      MulMonotone(0, Left(o), o.tstep);
      LeftSame(o, w);
    }
  }

  lemma LeftNonNegative(o: Obj)
    requires Fading(o)
    ensures Left(o) >= 0
  {
    if o.step > 0 {
      DivMonotone(0, 255 - o.opacity, o.step);
    } else {
      DivMonotone(0, o.opacity, -o.step);
    }
  }

  lemma LeftSame(o: Obj, w: int)
    requires Fading(o) && 0 < w <= 0x7fff
    ensures Fading(o.(wait := w)) && Left(o.(wait := w)) == Left(o)
  {
  }

  lemma {:induction false} VisitAllEnds(o: Obj, ds: seq<int>)
    requires Fading(o) && |ds| >= Rank(o) && forall i :: 0 <= i < |ds| ==> GoodDelay(ds[i])
    ensures VisitAll(o, ds).1
    decreases |ds|
  {
    hide Visit, Fading, Rank;
    RankPositive(o);
    if !Visit(o, ds[0]).1 {
      VisitLowersRank(o, ds[0]);
      VisitAllEnds(Visit(o, ds[0]).0, ds[1..]);
    }
  }

  lemma RankPositive(o: Obj)
    requires Fading(o)
    ensures Rank(o) > 0
  {
    hide Left;
    LeftNonNegative(o);
    MulMonotone(0, Left(o), o.tstep);
  }

  /** A fade-in that has been started comes to its end if and only if it is meant to last at
      least ten milliseconds; a shorter one stays in the list for ever. */
  lemma FadeEndsIff(o: Obj)
    requires !o.visible && 0 < o.spec.blendin
    ensures (exists ds: seq<int> :: (forall i :: 0 <= i < |ds| ==> GoodDelay(ds[i])) && VisitAll(SetVisible(o, true).0, ds).1)
            <==> o.spec.blendin >= 10
  {
    hide Visit, VisitAll, Steps;
    var f := SetVisible(o, true).0;
    WaitPositiveIff(o.spec.blendin);
    if o.spec.blendin >= 10 {
      var n := Steps(o.spec.blendin);
      StepInRange(n);
      assert Fading(f);
      RankPositive(f);
      var ds := seq(Rank(f), _ => 1);
      VisitAllEnds(f, ds);
    } else {
      DivMonotone(0, o.spec.blendin, Steps(o.spec.blendin));
      forall ds: seq<int> ensures !VisitAll(f, ds).1 {
        StuckForever(f, ds);
      }
    }
  }

  /** The same for a fade-out: a visible object with a shorter one is never hidden. */
  lemma FadeOutHidesIff(o: Obj)
    requires o.visible && 0 < o.spec.blendout
    ensures (exists ds: seq<int> :: (forall i :: 0 <= i < |ds| ==> GoodDelay(ds[i])) && !VisitAll(SetVisible(o, false).0, ds).0.visible)
            <==> o.spec.blendout >= 10
  {
    hide Visit, VisitAll, Steps;
    var f := SetVisible(o, false).0;
    WaitPositiveIff(o.spec.blendout);
    if o.spec.blendout >= 10 {
      var n := Steps(o.spec.blendout);
      StepInRange(n);
      assert Fading(f);
      RankPositive(f);
      var ds := seq(Rank(f), _ => 1);
      VisitAllEnds(f, ds);
      EndOfFall(f, ds);
    } else {
      DivMonotone(0, o.spec.blendout, Steps(o.spec.blendout));
      forall ds: seq<int> ensures VisitAll(f, ds).0.visible {
        StuckForever(f, ds);
      }
    }
  }

  /** A fade with a negative step that has ended has hidden its object. */
  lemma {:induction false} EndOfFall(o: Obj, ds: seq<int>)
    requires -255 <= o.step < 0 && VisitAll(o, ds).1
    ensures !VisitAll(o, ds).0.visible
    decreases |ds|
  {
    VisitKeeps(o, ds[0]);
    hide Visit;
    if !Visit(o, ds[0]).1 {
      EndOfFall(Visit(o, ds[0]).0, ds[1..]);
    }
  }

  lemma VisitKeeps(o: Obj, d: int)
    ensures var (o', end) := Visit(o, d);
            && o'.spec == o.spec && o'.step == o.step && o'.tstep == o.tstep
            && (o.step < 0 ==> o'.visible == (o.visible && !end))
            && (o.step >= 0 ==> o'.visible == o.visible || (o.step == 0 && end))
  {
  }

  lemma StepInRange(n: int)
    requires 10 <= n <= 255
    ensures 0 < 255 / n <= 25
  {
  }

  /** A visit expires the waiting time if and only if the delay has reached it and is not so long
      that the 16-bit counter wraps around to a positive value. */
  lemma ExpiresIff(o: Obj, d: int)
    requires 0 < o.wait <= 0x7fff && 0 < d <= 0xffff
    ensures Visit(o, d) == (if o.wait <= d <= o.wait + 0x8000 then Expire(o) else (o.(wait := ToShort(o.wait - d)), false))
  {
    hide Expire;
  }

  /** Two states of an object that differ in what it caches for drawing only; fades and commands
      treat them alike. */
  predicate SameFades(a: Obj, b: Obj) {
    && a.spec == b.spec && a.visible == b.visible && a.opacity == b.opacity
    && a.tstep == b.tstep && a.step == b.step && a.wait == b.wait
  }

  // ---------------------------------------------------------------- the list walk

  /** One pass over a list of objects, in order: the objects that stay in the list, and the
      values of all objects afterwards.  An object that is in the list twice is visited twice. */
  ghost function Pass(c: seq<Node>, m: map<Node, Obj>, d: int): (seq<Node>, map<Node, Obj>)
    requires forall n :: n in c ==> n in m
  {
    if c == [] then ([], m)
    else
      var (o, end) := Visit(m[c[0]], d);
      var (rest, m') := Pass(c[1..], m[c[0] := o], d);
      ((if end then [] else [c[0]]) + rest, m')
  }

  // -------------------------------------------------- lists of fading objects empty

  /** How often a node is in a list. */
  ghost function Times(c: seq<Node>, n: Node): (k: nat)
    ensures k > 0 <==> n in c
    ensures k <= |c|
  {
    if c == [] then 0 else (if c[0] == n then 1 else 0) + Times(c[1..], n)
  }

  /** The k visits of one pass to an object that is in the list k times, and how many of them
      end its fade. */
  function Visits(o: Obj, d: int, k: nat): (r: (Obj, nat))
    ensures r.1 <= k
    decreases k
  {
    if k == 0 then (o, 0)
    else
      var (o', end) := Visit(o, d);
      var (f, ends) := Visits(o', d, k - 1);
      (f, ends + if end then 1 else 0)
  }

  lemma PassOfNothing(m: map<Node, Obj>, d: int)
    ensures Pass([], m, d) == ([], m)
  {
  }

  lemma PassSplits(c: seq<Node>, m: map<Node, Obj>, d: int)
    requires c != [] && forall n :: n in c ==> n in m
    ensures var (o, end) := Visit(m[c[0]], d);
            var (rest, m') := Pass(c[1..], m[c[0] := o], d);
            Pass(c, m, d) == ((if end then [] else [c[0]]) + rest, m')
  {
    hide Visit;
  }

  lemma VisitsSplit(o: Obj, d: int, k: nat)
    ensures k == 0 ==> Visits(o, d, k) == (o, 0)
    ensures k > 0 ==>
            var (o', end) := Visit(o, d);
            Visits(o, d, k) == (Visits(o', d, k - 1).0, Visits(o', d, k - 1).1 + if end then 1 else 0)
  {
    hide Visit;
  }

  lemma TimesOfFirst(a: seq<Node>, c: seq<Node>, n: Node)
    requires |a| <= 1
    ensures Times(a + c, n) == Times(c, n) + if a == [n] then 1 else 0
  {
    if a == [] {
      assert a + c == c;
    } else {
      assert (a + c)[1..] == c;
    }
  }

  /** What a pass does to one object, wherever and however often it is in the list. */
  lemma {:induction false} PassOfNode(c: seq<Node>, m: map<Node, Obj>, d: int, n: Node)
    requires n in m && forall x :: x in c ==> x in m
    ensures var (c', m') := Pass(c, m, d);
            && m'.Keys == m.Keys
            && m'[n] == Visits(m[n], d, Times(c, n)).0
            && Times(c', n) == Times(c, n) - Visits(m[n], d, Times(c, n)).1
    decreases |c|
  {
    hide Visit, Pass, Visits;
    if c == [] {
      PassOfNothing(m, d);
      VisitsSplit(m[n], d, 0);
    } else {
      PassSplits(c, m, d);
      var (o, end) := Visit(m[c[0]], d);
      var m1 := m[c[0] := o];
      PassOfNode(c[1..], m1, d, n);
      TimesOfFirst(if end then [] else [c[0]], Pass(c[1..], m1, d).0, n);
      VisitsSplit(m[n], d, Times(c, n));
    }
  }

  /** Any number of passes, each with the delay before it. */
  ghost function Passes(c: seq<Node>, m: map<Node, Obj>, ds: seq<int>): (seq<Node>, map<Node, Obj>)
    requires forall n :: n in c ==> n in m
    decreases |ds|
  {
    if ds == [] then (c, m)
    else
      StillThere(c, m, ds[0]);
      var (c', m') := Pass(c, m, ds[0]);
      Passes(c', m', ds[1..])
  }

  lemma StillThere(c: seq<Node>, m: map<Node, Obj>, d: int)
    requires forall n :: n in c ==> n in m
    ensures Pass(c, m, d).1.Keys == m.Keys && forall n :: n in Pass(c, m, d).0 ==> n in c && n in m
  {
    if c != [] {
      PassOfNode(c, m, d, c[0]);
      StillThere(c[1..], m[c[0] := Visit(m[c[0]], d).0], d);
    }
  }

  /** A visit brings the end nearer by a millisecond or more, where every end leaves at most r
      milliseconds to an object that is still in the list once more. */
  lemma VisitPays(o: Obj, d: int, r: int)
    requires Fading(o) && GoodDelay(d) && Rank(o) <= r && o.tstep <= r
    ensures var (o', end) := Visit(o, d);
            Fading(o') && Rank(o') <= r && o'.tstep == o.tstep && Rank(o') < Rank(o) + if end then r else 0
  {
    VisitKeeps(o, d);
    RankPositive(o);
    if Visit(o, d).1 {
      EndedFade(o, d);
    } else {
      VisitLowersRank(o, d);
    }
  }

  /** A fade that has ended still has its parameters, and no expiry is left. */
  lemma EndedFade(o: Obj, d: int)
    requires Fading(o) && Visit(o, d).1
    ensures var f := Visit(o, d).0;
            Fading(f) && Rank(f) == o.tstep && f.step == o.step
  {
    var f := Visit(o, d).0;
    assert f == Expire(o).0 || f == Expire(o.(wait := ToShort(o.wait - d))).0;
    assert f.wait == o.tstep;
    ZeroDivided(o.step);
    assert Left(f) == 0;
  }

  lemma ZeroDivided(s: int)
    requires s != 0
    ensures 0 / s == 0 && 0 / -s == 0
  {
  }

  lemma {:induction false} VisitsPay(o: Obj, d: int, k: nat, r: int)
    requires Fading(o) && GoodDelay(d) && Rank(o) <= r && o.tstep <= r
    ensures var (f, ends) := Visits(o, d, k);
            Fading(f) && Rank(f) <= r && f.tstep == o.tstep && Rank(f) + k <= Rank(o) + ends * r
    decreases k
  {
    hide Visit, Fading, Rank;
    if k > 0 {
      VisitPays(o, d, r);
      var (o', end) := Visit(o, d);
      VisitsPay(o', d, k - 1, r);
      var ends := Visits(o', d, k - 1).1;
      assert (ends + 1) * r == ends * r + r;
    }
  }

  /** Every object in the list is fading and can pay for all its entries with b milliseconds. */
  ghost predicate Payable(c: seq<Node>, m: map<Node, Obj>, r: int, b: int) {
    forall n :: n in c ==> n in m && Pays(m[n], Times(c, n), r, b)
  }

  ghost predicate Pays(o: Obj, k: nat, r: int, b: int) {
    Fading(o) && Rank(o) <= r && o.tstep <= r && (k - 1) * r + Rank(o) <= b
  }

  lemma PassPays(c: seq<Node>, m: map<Node, Obj>, d: int, r: int, b: int)
    requires (forall n :: n in c ==> n in m) && Payable(c, m, r, b) && GoodDelay(d)
    ensures (forall n :: n in Pass(c, m, d).0 ==> n in Pass(c, m, d).1)
    ensures Payable(Pass(c, m, d).0, Pass(c, m, d).1, r, b - 1)
  {
    hide Pass, Fading, Rank, Times, Visits;
    var (c', m') := Pass(c, m, d);
    StillThere(c, m, d);
    forall n | n in c' ensures n in m' && Pays(m'[n], Times(c', n), r, b - 1) {
      var k := Times(c, n);
      PassOfNode(c, m, d, n);
      VisitsPay(m[n], d, k, r);
      var ends := Visits(m[n], d, k).1;
      assert (k - 1 - ends) * r + ends * r == (k - 1) * r;
    }
  }

  lemma {:induction false} PassesPay(c: seq<Node>, m: map<Node, Obj>, ds: seq<int>, r: nat, b: int)
    requires (forall n :: n in c ==> n in m) && Payable(c, m, r, b) && |ds| >= b
    requires forall i :: 0 <= i < |ds| ==> GoodDelay(ds[i])
    ensures Passes(c, m, ds).0 == []
    decreases |ds|
  {
    hide Pass, Payable;
    if ds == [] {
      NothingPayable(c, m, r, b);
    } else {
      PassPays(c, m, ds[0], r, b);
      PassesPay(Pass(c, m, ds[0]).0, Pass(c, m, ds[0]).1, ds[1..], r, b - 1);
    }
  }

  lemma NothingPayable(c: seq<Node>, m: map<Node, Obj>, r: nat, b: int)
    requires Payable(c, m, r, b) && b <= 0
    ensures c == []
  {
    hide Rank, Times;
    if c != [] {
      RankPositive(m[c[0]]);
      MulMonotone(0, Times(c, c[0]) - 1, r);
      assert false;
    }
  }

  /** Repeated passes of the loop empty any list of fading objects, whatever the delays and even
      if objects are listed more than once: r passes for each entry are enough, where no fade in
      the list takes more than r milliseconds. */
  lemma AllFadesEnd(c: seq<Node>, m: map<Node, Obj>, ds: seq<int>, r: nat)
    requires forall n :: n in c ==> n in m
    requires forall n :: n in c ==> Fading(m[n]) && Rank(m[n]) <= r && m[n].tstep <= r
    requires |ds| >= |c| * r && forall i :: 0 <= i < |ds| ==> GoodDelay(ds[i])
    ensures Passes(c, m, ds).0 == []
  {
    hide Pass, Passes, Fading, Rank, Times;
    forall n | n in c ensures Pays(m[n], Times(c, n), r, |c| * r) {
      MulMonotone(Times(c, n), |c|, r);
      assert (Times(c, n) - 1) * r == Times(c, n) * r - r;
    }
    PassesPay(c, m, ds, r, |c| * r);
  }

  /** A bound on the milliseconds that any fade in a list takes. */
  ghost function Longest(c: seq<Node>, m: map<Node, Obj>): (r: nat)
    requires forall n :: n in c ==> n in m && Fading(m[n])
    ensures forall n :: n in c ==> Rank(m[n]) <= r && m[n].tstep <= r
  {
    if c == [] then 0
    else
      RankPositive(m[c[0]]);
      Max(Longest(c[1..], m), Max(Rank(m[c[0]]), m[c[0]].tstep))
  }

  /** The list can be emptied if and only if no object in it is without a waiting time, as fades
      shorter than ten milliseconds are. */
  lemma AllFadesEndIff(c: seq<Node>, m: map<Node, Obj>)
    requires forall n :: n in c ==> n in m && (Fading(m[n]) || m[n].wait <= 0)
    ensures (exists ds: seq<int> :: (forall i :: 0 <= i < |ds| ==> GoodDelay(ds[i])) && Passes(c, m, ds).0 == [])
            <==> forall n :: n in c ==> Fading(m[n])
  {
    hide Passes, Fading, Rank;
    if forall n :: n in c ==> Fading(m[n]) {
      var r := Longest(c, m);
      MulMonotone(0, |c|, r);
      var ds := seq(|c| * r, _ => 1);
      AllFadesEnd(c, m, ds, r);
    } else {
      var n :| n in c && !Fading(m[n]);
      forall ds: seq<int> ensures Passes(c, m, ds).0 != [] {
        StuckStays(c, m, ds, n);
      }
    }
  }

  lemma {:induction false} StuckStays(c: seq<Node>, m: map<Node, Obj>, ds: seq<int>, n: Node)
    requires (forall x :: x in c ==> x in m) && n in c && m[n].wait <= 0
    ensures n in Passes(c, m, ds).0
    decreases |ds|
  {
    hide Pass;
    if ds != [] {
      PassOfNode(c, m, ds[0], n);
      StuckVisits(m[n], ds[0], Times(c, n));
      StillThere(c, m, ds[0]);
      StuckStays(Pass(c, m, ds[0]).0, Pass(c, m, ds[0]).1, ds[1..], n);
    }
  }

  lemma {:induction false} StuckVisits(o: Obj, d: int, k: nat)
    requires o.wait <= 0
    ensures Visits(o, d, k) == (o, 0)
  {
    if k > 0 {
      StuckVisits(o, d, k - 1);
    }
  }

  ghost predicate Distinct(c: seq<Node>) {
    forall i, j :: 0 <= i < j < |c| ==> c[i] != c[j]
  }

  /** The objects of a list whose visit does not end their fade, in list order. */
  ghost function Unfinished(c: seq<Node>, m: map<Node, Obj>, d: int): seq<Node>
    requires forall n :: n in c ==> n in m
  {
    if c == [] then []
    else (if Visit(m[c[0]], d).1 then [] else [c[0]]) + Unfinished(c[1..], m, d)
  }

  /** Over distinct objects a pass visits every entry exactly once, removes exactly the finished
      ones, keeps the order of the rest, and leaves all other objects alone. */
  lemma {:induction false} PassOverDistinct(c: seq<Node>, m: map<Node, Obj>, d: int)
    requires Distinct(c) && forall n :: n in c ==> n in m
    ensures Pass(c, m, d).0 == Unfinished(c, m, d)
    ensures Pass(c, m, d).1.Keys == m.Keys
    ensures forall n :: n in m ==> Pass(c, m, d).1[n] == if n in c then Visit(m[n], d).0 else m[n]
    decreases |c|
  {
    hide Visit;
    if c != [] {
      var m1 := m[c[0] := Visit(m[c[0]], d).0];
      PassOverDistinct(c[1..], m1, d);
      UnfinishedIgnores(c[1..], m, m1, d);
    }
  }

  lemma {:induction false} UnfinishedIgnores(c: seq<Node>, m: map<Node, Obj>, m1: map<Node, Obj>, d: int)
    requires forall n :: n in c ==> n in m && n in m1 && m1[n] == m[n]
    ensures Unfinished(c, m, d) == Unfinished(c, m1, d)
    decreases |c|
  {
    hide Visit;
    if c != [] {
      UnfinishedIgnores(c[1..], m, m1, d);
    }
  }

  /** The body of the loop for one object. */
  method VisitNode(n: Node, d: int) returns (end: bool)
    modifies n
    ensures (n.Val(), end) == Visit(old(n.Val()), d)
  {
    end := false;
    if n.wait > 0 {
      n.wait := ToShort(n.wait - d);
      if n.wait <= 0 {
        var prevo := n.opacity;
        n.opacity := (n.opacity + n.step) % 256;
        if n.step > 0 {
          if prevo > n.opacity {
            n.opacity := 255;
            end := true;
          }
        } else {
          if prevo < n.opacity {
            n.opacity := 0;
            n.visible := false;
            end := true;
          }
        }
        n.invalid := true;
        n.wait := ToShort(n.tstep);
      }
    }
  }

  /** The values of the nodes in a set. */
  ghost function Values(ns: set<Node>): (m: map<Node, Obj>)
    reads ns
    ensures m.Keys == ns && forall n :: n in ns ==> m[n] == n.Val()
  {
    map n | n in ns :: n.Val()
  }

  /** The walk so far: `kept` stay in the list, `todo` are still to be visited with values m. */
  ghost predicate Walked(c0: seq<Node>, m0: map<Node, Obj>, kept: seq<Node>, todo: seq<Node>, m: map<Node, Obj>, d: int) {
    && (forall n :: n in c0 ==> n in m0) && (forall n :: n in todo ==> n in m)
    && Pass(c0, m0, d).0 == kept + Pass(todo, m, d).0 && Pass(c0, m0, d).1 == Pass(todo, m, d).1
  }

  lemma WalkStarts(c0: seq<Node>, m0: map<Node, Obj>, d: int)
    requires forall n :: n in c0 ==> n in m0
    ensures Walked(c0, m0, [], c0, m0, d)
  {
    hide Pass;
    assert [] + Pass(c0, m0, d).0 == Pass(c0, m0, d).0;
  }

  lemma WalkSteps(c0: seq<Node>, m0: map<Node, Obj>, kept: seq<Node>, todo: seq<Node>, m: map<Node, Obj>, d: int)
    requires Walked(c0, m0, kept, todo, m, d) && todo != []
    ensures var (o, end) := Visit(m[todo[0]], d);
            Walked(c0, m0, kept + if end then [] else [todo[0]], todo[1..], m[todo[0] := o], d)
  {
    hide Visit;
    var (o, end) := Visit(m[todo[0]], d);
    var rest := Pass(todo[1..], m[todo[0] := o], d).0;
    var mine := if end then [] else [todo[0]];
    assert kept + (mine + rest) == (kept + mine) + rest;
  }

  lemma WalkEnds(c0: seq<Node>, m0: map<Node, Obj>, kept: seq<Node>, m: map<Node, Obj>, d: int)
    requires Walked(c0, m0, kept, [], m, d)
    ensures Pass(c0, m0, d) == (kept, m)
  {
    assert kept + [] == kept;
  }

  /** list_del of the visited item during the walk. */
  method Unlink(fx: List<Node>, iprev: Item?<Node>, i: Item<Node>, ghost kept: seq<Node>, ghost todo: seq<Node>)
    requires fx.Valid() && fx.contents == kept + todo && todo != [] && i == fx.At(|kept|)
    requires iprev == if |kept| == 0 then null else fx.At(|kept| - 1)
    modifies fx, fx.nodes
    ensures fx.Valid() && fx.nodes == old(fx.nodes) && fx.contents == kept + todo[1..]
    ensures i.next == old(i.next) == fx.At(|kept|)
    ensures iprev == if |kept| == 0 then null else fx.At(|kept| - 1)
  {
    fx.NextIs(|kept|);
    fx.Del(iprev, i, |kept|);
  }

  /** The visit itself: the object of the item changes, the list does not. */
  method VisitItem(fx: List<Node>, i: Item<Node>, d: int, ghost ns: set<Node>,
                   ghost c0: seq<Node>, ghost m0: map<Node, Obj>, ghost kept: seq<Node>, ghost todo: seq<Node>)
    returns (end: bool)
    requires fx.Valid() && fx.contents == kept + todo && i == fx.At(|kept|)
    requires (forall n :: n in todo ==> n in ns) && Walked(c0, m0, kept, todo, Values(ns), d)
    modifies ns
    ensures fx.Valid() && todo != [] && i.next == fx.At(|kept| + 1)
    ensures Walked(c0, m0, kept + if end then [] else [todo[0]], todo[1..], Values(ns), d)
  {
    hide Visit, Walked;
    fx.NextIs(|kept|);
    var co := i.p;
    ghost var m := Values(ns);
    assert todo[0] == co;
    end := VisitNode(co, d);
    assert Values(ns) == m[co := Visit(m[co], d).0];
    WalkSteps(c0, m0, kept, todo, m, d);
    fx.NextIs(|kept|);
  }

  ghost predicate Among(kept: seq<Node>, todo: seq<Node>, c0: seq<Node>) {
    (forall n :: n in kept ==> n in c0) && (forall n :: n in todo ==> n in c0)
  }

  lemma AmongStart(c0: seq<Node>)
    ensures Among([], c0, c0) && [] + c0 == c0
  {
  }

  lemma AmongAll(kept: seq<Node>, todo: seq<Node>, c0: seq<Node>, ns: set<Node>)
    requires Among(kept, todo, c0) && forall n :: n in c0 ==> n in ns
    ensures forall n :: n in todo ==> n in ns
  {
  }

  lemma SplitLists(kept: seq<Node>, todo: seq<Node>, c0: seq<Node>)
    requires todo != [] && Among(kept, todo, c0)
    ensures (kept + [todo[0]]) + todo[1..] == kept + todo && kept + [] == kept
    ensures Among(kept + [todo[0]], todo[1..], c0) && Among(kept, todo[1..], c0)
  {
  }

  lemma AllKept(kept: seq<Node>, todo: seq<Node>, c0: seq<Node>)
    requires |kept + todo| == |kept| && Among(kept, todo, c0)
    ensures todo == [] && kept + todo == kept && forall n :: n in kept ==> n in c0
  {
  }

  /** The special-effects loop.  The jump back after a deletion is the branch that continues with
      the saved successor and leaves iprev alone; after the deletion of the last item the walk
      ends through the null link of that item. */
  method EffectsPass(fx: List<Node>, d: int, ghost ns: set<Node>)
    requires fx.Valid() && forall n :: n in fx.contents ==> n in ns
    modifies fx, fx.nodes, ns
    ensures fx.Valid() && fx.nodes == old(fx.nodes)
    ensures (fx.contents, Values(ns)) == Pass(old(fx.contents), old(Values(ns)), d)
    ensures forall n :: n in fx.contents ==> n in old(fx.contents)
  {
    hide Visit, Pass, Walked, Among, fx.Valid, fx.At;
    ghost var c0, m0 := fx.contents, Values(ns);
    ghost var kept, todo := [], c0;
    WalkStarts(c0, m0, d);
    AmongStart(c0);
    fx.HeadIs();
    var iprev: Item?<Node> := null;
    var i := fx.head;
    while i != null
      invariant fx.Valid() && fx.nodes == old(fx.nodes) && fx.contents == kept + todo
      invariant i == fx.At(|kept|)
      invariant i != null ==> iprev == if |kept| == 0 then null else fx.At(|kept| - 1)
      invariant Among(kept, todo, c0)
      invariant Walked(c0, m0, kept, todo, Values(ns), d)
      decreases |todo|
    {
      AmongAll(kept, todo, c0, ns);
      var end := VisitItem(fx, i, d, ns, c0, m0, kept, todo);
      if end {
        var itmp := i.next;
        Unlink(fx, iprev, i, kept, todo);
        SplitLists(kept, todo, c0);
        todo := todo[1..];
        if itmp != null {
          i := itmp;
          continue;
        }
      } else {
        SplitLists(kept, todo, c0);
        kept, todo := kept + [todo[0]], todo[1..];
      }
      iprev := i;
      i := i.next;
    }
    fx.EndIs(|kept|);
    AllKept(kept, todo, c0);
    WalkEnds(c0, m0, kept, Values(ns), d);
  }
}
