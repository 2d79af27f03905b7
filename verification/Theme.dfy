/**
  The theme as the program has it: heap objects, the linked re-blit list, the back buffer and
  the framebuffer, all updated in place (core/src/render.c; core/src/libfbsplashrender.c;
  core/src/daemon_cmd.c).  Each method is proved to do to the state what the functions of
  module Scene say, so the results about whole runs hold for these methods.
 */
module Theme {
  import opened Rects
  import opened Pixels
  import opened Boxes
  import opened Objects
  import opened Lists
  import opened Blit
  import opened Framebuffer
  import opened Nodes
  import opened Fades
  import opened Rendering
  import opened Scene

  /** The objects of a freshly loaded theme. */
  function AllLoaded(w: int, h: int, specs: seq<Spec>, p: int): (out: seq<Obj>)
    requires w > 0 && h > 0 && InRange(p)
    ensures |out| == |specs|
    ensures forall i :: 0 <= i < |specs| ==> out[i] == Loaded(w, h, specs[i], p)
  {
    seq(|specs|, i requires 0 <= i < |specs| => Loaded(w, h, specs[i], p))
  }

  lemma AllLoadedFit(g: Geometry, specs: seq<Spec>, p: int)
    requires g.Valid() && InRange(p) && forall i :: 0 <= i < |specs| ==> Loadable(g.xres, g.yres, specs[i].shape)
    ensures AllFit(g, AllLoaded(g.xres, g.yres, specs, p))
  {
    hide Loaded, Fits, Loadable;
    forall i | 0 <= i < |specs| ensures Fits(g.xres, g.yres, AllLoaded(g.xres, g.yres, specs, p)[i]) {
      LoadedFits(g.xres, g.yres, specs[i], p);
    }
  }

  method MakeNodes(w: int, h: int, specs: seq<Spec>, p: int) returns (nodes: seq<Node>)
    requires w > 0 && h > 0 && InRange(p)
    ensures |nodes| == |specs| && fresh(nodes)
    ensures forall i, j :: 0 <= i < j < |nodes| ==> nodes[i] != nodes[j]
    ensures forall i :: 0 <= i < |nodes| ==> nodes[i].Val() == AllLoaded(w, h, specs, p)[i]
  {
    hide Loaded;
    nodes := [];
    for k := 0 to |specs|
      invariant |nodes| == k && fresh(nodes)
      invariant forall i, j :: 0 <= i < j < k ==> nodes[i] != nodes[j]
      invariant forall i :: 0 <= i < k ==> nodes[i].Val() == AllLoaded(w, h, specs, p)[i]
    {
      var n := new Node(Loaded(w, h, specs[k], p));
      nodes := nodes + [n];
    }
  }

  /** The objects that a new theme fades in, in list order. */
  ghost function Starters(nodes: seq<Node>): seq<Node> {
    if nodes == [] then []
    else
      var last := nodes[|nodes| - 1];
      Starters(nodes[..|nodes| - 1]) + if StartsFading(last.spec) then [last] else []
  }

  lemma {:induction false} StartersAmong(nodes: seq<Node>)
    ensures forall n :: n in Starters(nodes) ==> n in nodes
    decreases |nodes|
  {
    if nodes != [] {
      StartersAmong(nodes[..|nodes| - 1]);
    }
  }

  /** The last loop of fbsplashr_theme_load, which lists the objects that fade in. */
  method ListStarters(nodes: seq<Node>) returns (fading: List<Node>)
    ensures fading.Valid() && fresh(fading) && fresh(fading.nodes) && fading.contents == Starters(nodes)
  {
    fading := new List<Node>();
    for k := 0 to |nodes|
      invariant fading.Valid() && fresh(fading.nodes) && fading.contents == Starters(nodes[..k])
    {
      hide fading.Valid;
      assert nodes[..k + 1][..k] == nodes[..k];
      if StartsFading(nodes[k].spec) {
        fading.Add(nodes[k]);
      }
    }
    assert nodes[..|nodes|] == nodes;
  }

  /** A list of objects of which the first i have been updated from a to b. */
  ghost function Mixed(a: seq<Obj>, b: seq<Obj>, i: nat): (out: seq<Obj>)
    requires |a| == |b| && i <= |a|
    ensures |out| == |a|
    ensures i < |a| ==> out[i] == a[i]
    ensures i == 0 ==> out == a
    ensures i == |a| ==> out == b
  {
    b[..i] + a[i..]
  }

  lemma MixedStep(a: seq<Obj>, b: seq<Obj>, i: nat)
    requires |a| == |b| && i < |a|
    ensures Mixed(a, b, i)[i := b[i]] == Mixed(a, b, i + 1)
  {
  }

  /** The first n objects that a command lists for fading. */
  ghost function ListedBy(c: Cmd, nodes: seq<Node>, v: seq<Obj>, n: nat): seq<Node>
    requires n <= |v| == |nodes|
  {
    if n == 0 then []
    else ListedBy(c, nodes, v, n - 1) + if Toggled(c, v[n - 1]).2 then [nodes[n - 1]] else []
  }

  lemma SameBitmap(g: Geometry, a: Bitmap, b: Bitmap)
    requires g.IsBitmap(a) && g.IsBitmap(b)
    requires forall y, x {:trigger a[y][x]} :: 0 <= y < g.yres && 0 <= x < g.xres ==> a[y][x] == b[y][x]
    ensures a == b
  {
    forall y | 0 <= y < g.yres ensures a[y] == b[y] {
      forall x | 0 <= x < g.xres ensures a[y][x] == b[y][x] {}
    }
  }

  lemma ComposeNone(vals: seq<Obj>)
    ensures forall x, y, p :: Compose(vals[..0], x, y, p) == p
  {
    hide Draw;
  }

  lemma ComposeNext(vals: seq<Obj>, j: nat)
    requires j < |vals|
    ensures forall x, y, p :: Compose(vals[..j + 1], x, y, p) == Draw(vals[j], x, y, Compose(vals[..j], x, y, p))
  {
    hide Draw;
    assert vals[..j + 1][..j] == vals[..j];
  }

  lemma FadeIrrelevant(w: int, h: int, o: Obj, visible: bool, opacity: byte, tstep: int, step: int, wait: int)
    ensures Fits(w, h, o.(visible := visible, opacity := opacity, tstep := tstep, step := step, wait := wait)) == Fits(w, h, o)
  {
  }

  lemma FadeStored(g: Geometry, v: seq<Obj>, i: nat, visible: bool, opacity: byte, tstep: int, step: int, wait: int)
    requires i < |v| && AllFit(g, v)
    ensures AllFit(g, v[i := v[i].(visible := visible, opacity := opacity, tstep := tstep, step := step, wait := wait)])
  {
    hide Fits;
    FadeIrrelevant(g.xres, g.yres, v[i], visible, opacity, tstep, step, wait);
  }

  class Theme {
    const su: Setup
    const objs: seq<Node>
    const blit: List<Rect>
    const fxobjs: List<Node>
    const bgbuf: array2<Pixel>
    const fb: array<byte>
    var progress: int
    var silent: bool
    ghost const members: set<Node>
    /** The values of the objects, in list order. */
    ghost var vals: seq<Obj>

    /** The part of Valid that no method can change. */
    ghost predicate Fixed() {
      && su.Valid() && bgbuf.Length0 == su.g.yres && bgbuf.Length1 == su.g.xres && fb.Length == su.g.fbLength
      && (forall i, j :: 0 <= i < j < |objs| ==> objs[i] != objs[j])
      && members == (set o | o in objs)
    }

    ghost predicate Valid()
      reads this, objs, blit, blit.nodes, fxobjs, fxobjs.nodes
    {
      && Fixed() && blit.Valid() && fxobjs.Valid()
      && |vals| == |objs| && (forall i :: 0 <= i < |objs| ==> objs[i].Val() == vals[i])
      && InRange(progress) && AllInside(su.g, blit.contents) && AllFit(su.g, vals)
      && (forall k :: 0 <= k < |fxobjs.contents| ==> fxobjs.contents[k] in members)
    }

    /** The state of module Scene. */
    ghost function View(): State
      reads this, blit, bgbuf, fb
    {
      State(vals, blit.contents, Picture(bgbuf), fb[..], progress, silent)
    }

    /** fbsplashr_theme_load, after parsing: objects are built from their configuration, and the
        buffers may hold anything. */
    constructor Load(su: Setup, specs: seq<Spec>, fb: array<byte>, progress: int, silent: bool)
      requires su.Valid() && fb.Length == su.g.fbLength && InRange(progress)
      requires forall i :: 0 <= i < |specs| ==> Loadable(su.g.xres, su.g.yres, specs[i].shape)
      ensures Valid() && fresh(objs) && fresh(blit) && fresh(blit.nodes) && fresh(fxobjs) && fresh(fxobjs.nodes) && fresh(bgbuf)
      ensures this.su == su && this.fb == fb && this.progress == progress && this.silent == silent
      ensures vals == AllLoaded(su.g.xres, su.g.yres, specs, progress)
      ensures blit.contents == [] && fxobjs.contents == Starters(objs)
    {
      hide Starters, Loaded, Loadable, AllFit;
      var nodes := MakeNodes(su.g.xres, su.g.yres, specs, progress);
      var list := new List<Rect>();
      var fading := ListStarters(nodes);
      StartersAmong(nodes);
      var buffer := new Pixel[su.g.yres, su.g.xres];
      this.su, this.fb, this.progress, this.silent := su, fb, progress, silent;
      this.objs, this.blit, this.fxobjs, this.bgbuf := nodes, list, fading, buffer;
      this.members := set o | o in nodes;
      this.vals := AllLoaded(su.g.xres, su.g.yres, specs, progress);
      AllLoadedFit(su.g, specs, progress);
    }

    // ------------------------------------------------------------ damage list

    /** blit_add: a sanitized copy joins the list. */
    method BlitAdd(a: VRect)
      requires Valid()
      modifies blit, blit.nodes
      ensures Valid() && blit.contents == old(blit.contents) + [Sanitize(su.g.xres, su.g.yres, a)]
      ensures fresh(blit.nodes - old(blit.nodes))
    {
      SanitizeCovers(su.g.xres, su.g.yres, a);
      blit.Add(Sanitize(su.g.xres, su.g.yres, a));
    }

    /** The strips of one axis, where only the named edges have moved. */
    method AddStripsX(c: Rect, t: VRect)
      requires Valid()
      modifies blit, blit.nodes
      ensures Valid() && blit.contents == old(blit.contents) + SanitizeAll(su.g.xres, su.g.yres, StripsX(c, t))
      ensures fresh(blit.nodes - old(blit.nodes))
    {
      hide Sanitize, AllFit;
      if c.x1 != t.x1 {
        BlitAdd(Rect(Min(c.x1, t.x1), Max(c.x1, t.x1), t.y1, t.y2));
      }
      if c.x2 != t.x2 {
        BlitAdd(Rect(Min(c.x2, t.x2), Max(c.x2, t.x2), t.y1, t.y2));
      }
    }

    method AddStripsY(c: Rect, t: VRect)
      requires Valid()
      modifies blit, blit.nodes
      ensures Valid() && blit.contents == old(blit.contents) + SanitizeAll(su.g.xres, su.g.yres, StripsY(c, t))
      ensures fresh(blit.nodes - old(blit.nodes))
    {
      hide Sanitize, AllFit;
      if c.y1 != t.y1 {
        BlitAdd(Rect(t.x1, t.x2, Min(c.y1, t.y1), Max(c.y1, t.y1)));
      }
      if c.y2 != t.y2 {
        BlitAdd(Rect(t.x1, t.x2, Min(c.y2, t.y2), Max(c.y2, t.y2)));
      }
    }

    // -------------------------------------------------------------- first pass

    lemma NodeFacts(i: nat)
      requires Valid() && i < |objs|
      ensures objs[i].Val() == vals[i] && Fits(su.g.xres, su.g.yres, vals[i]) && InRange(progress)
      ensures objs[i] in members && su.Valid() && |vals| == |objs|
    {
    }

    /** Stores a new cached state of the i-th object. */
    method Store(o: Node, bnd: VRect, curr: Box, crop: VRect, ghost i: nat)
      requires Valid() && i < |objs| && o == objs[i]
      requires Fits(su.g.xres, su.g.yres, vals[i].(bnd := bnd, curr := curr, cropCurr := crop))
      modifies o, this`vals
      ensures Valid() && vals == old(vals)[i := old(vals[i]).(bnd := bnd, curr := curr, cropCurr := crop)]
    {
      hide Fits;
      o.bnd, o.curr, o.cropCurr := bnd, curr, crop;
      vals := vals[i := o.Val()];
    }

    lemma Sanitized(a: Rect, b: Rect)
      ensures SanitizeAll(su.g.xres, su.g.yres, [a]) == [Sanitize(su.g.xres, su.g.yres, a)]
      ensures SanitizeAll(su.g.xres, su.g.yres, [a, b]) == [Sanitize(su.g.xres, su.g.yres, a), Sanitize(su.g.xres, su.g.yres, b)]
    {
    }

    /** Two rectangles join the list, the first one only if asked. */
    method AddPair(both: bool, a: VRect, b: VRect)
      requires Valid()
      modifies blit, blit.nodes
      ensures Valid() && fresh(blit.nodes - old(blit.nodes))
      ensures blit.contents == old(blit.contents) + SanitizeAll(su.g.xres, su.g.yres, (if both then [a] else []) + [b])
    {
      hide Sanitize;
      Sanitized(b, b);
      Sanitized(a, b);
      if both {
        BlitAdd(a);
      }
      BlitAdd(b);
    }

    /** The part of box_prerender that records damage, for a box that has changed. */
    method BoxDamage(o: Node, attr: Attr, t: Box, force: bool)
      requires Valid()
      modifies blit, blit.nodes
      ensures Valid() && fresh(blit.nodes - old(blit.nodes))
      ensures blit.contents == old(blit.contents) + SanitizeAll(su.g.xres, su.g.yres,
                if OnlyXMoves(attr, o.curr.re, t.re) && !force then StripsX(o.curr.re, t.re)
                else if OnlyYMoves(attr, o.curr.re, t.re) && !force then StripsY(o.curr.re, t.re)
                else (if t.re != o.bnd then [o.bnd] else []) + [t.re])
    {
      hide Sanitize, StripsX, StripsY, AllFit, AllInside;
      if OnlyXMoves(attr, o.curr.re, t.re) && !force {
        AddStripsX(o.curr.re, t.re);
      } else if OnlyYMoves(attr, o.curr.re, t.re) && !force {
        AddStripsY(o.curr.re, t.re);
      } else {
        AddPair(t.re != o.bnd, o.bnd, t.re);
      }
    }

    /** box_prerender for an interpolated box; padsEqual is what the comparison of the pointer
        fields of the two structures gives. */
    method BoxPrerender(o: Node, from: Box, to: Box, force: bool, padsEqual: bool, ghost i: nat)
      requires Valid() && i < |objs| && o == objs[i] && o.spec.shape == InterBox(from, to)
      modifies o, blit, blit.nodes, this`vals
      ensures Valid() && fresh(blit.nodes - old(blit.nodes))
      ensures vals == old(vals)[i := Prerender(old(vals[i]), progress, force, padsEqual).0]
      ensures blit.contents == old(blit.contents)
              + SanitizeAll(su.g.xres, su.g.yres, Prerender(old(vals[i]), progress, force, padsEqual).1)
    {
      hide BoxAt, Sanitize, StripsX, StripsY, OnlyXMoves, OnlyYMoves, Fits, AllFit, AllInside;
      NodeFacts(i);
      PrerenderFits(su.g.xres, su.g.yres, vals[i], progress, force, padsEqual);
      var t := BoxAt(from, to, progress);
      if Unchanged(t, o.curr, padsEqual) && !force {
        return;
      }
      BoxDamage(o, from.attr, t, force);
      Store(o, t.re, t, o.cropCurr, i);
    }

    /** icon_prerender for a cropped icon. */
    method CropPrerender(o: Node, force: bool, ghost padsEqual: bool, ghost i: nat)
      requires Valid() && i < |objs| && o == objs[i] && o.spec.shape.CropIcon?
      modifies o, blit, blit.nodes, this`vals
      ensures Valid() && fresh(blit.nodes - old(blit.nodes))
      ensures vals == old(vals)[i := Prerender(old(vals[i]), progress, force, padsEqual).0]
      ensures blit.contents == old(blit.contents)
              + SanitizeAll(su.g.xres, su.g.yres, Prerender(old(vals[i]), progress, force, padsEqual).1)
    {
      hide Interpolate, Sanitize, Fits, AllFit, AllInside;
      NodeFacts(i);
      PrerenderFits(su.g.xres, su.g.yres, vals[i], progress, force, padsEqual);
      var s := o.spec.shape;
      InterpolateStaysInBound(s.cropFrom, s.cropTo, progress);
      var crn: VRect := Interpolate(s.cropFrom, s.cropTo, progress);
      if crn == o.cropCurr && !force {
        return;
      }
      var moved: VRect := Shift(crn, s.x, s.y);
      AddPair(true, o.bnd, moved);
      assert [o.bnd] + [moved] == [o.bnd, moved];
      Store(o, moved, o.curr, crn, i);
    }

    /** obj_prerender, with box_prerender and icon_prerender for the plain cases. */
    method ObjPrerender(o: Node, force: bool, padsEqual: bool, ghost i: nat)
      requires Valid() && i < |objs| && o == objs[i]
      modifies o, blit, blit.nodes, this`vals
      ensures Valid() && fresh(blit.nodes - old(blit.nodes))
      ensures vals == old(vals)[i := if old(vals[i].visible) then Prerender(old(vals[i]), progress, force, padsEqual).0 else old(vals[i])]
      ensures blit.contents == old(blit.contents)
              + if old(vals[i].visible) then SanitizeAll(su.g.xres, su.g.yres, Prerender(old(vals[i]), progress, force, padsEqual).1) else []
    {
      if !o.visible {
        return;
      }
      match o.spec.shape {
        case PlainBox(_) => BlitAdd(o.bnd);
        case PlainIcon(_, _, _, _) => BlitAdd(o.bnd);
        case InterBox(from, to) => BoxPrerender(o, from, to, force, padsEqual, i);
        case CropIcon(_, _, _, _, _, _) => CropPrerender(o, force, padsEqual, i);
      }
    }

    /** Sets the invalid mark of the i-th object. */
    method SetInvalid(o: Node, b: bool, ghost i: nat)
      requires Valid() && i < |objs| && o == objs[i]
      modifies o`invalid, this`vals
      ensures Valid() && vals == old(vals)[i := old(vals[i]).(invalid := b)]
    {
      hide Fits;
      InvalidIrrelevant(su.g.xres, su.g.yres, vals[i]);
      o.invalid := b;
      vals := vals[i := o.Val()];
    }

    /** One round of the first loop of render_objs. */
    method MarkNode(o: Node, force: bool, padsEqual: bool, ghost i: nat)
      requires Valid() && i < |objs| && o == objs[i]
      modifies o, blit, blit.nodes, this`vals
      ensures Valid() && fresh(blit.nodes - old(blit.nodes))
      ensures vals == old(vals)[i := Mark(old(vals[i]), progress, force, padsEqual).0]
      ensures blit.contents == old(blit.contents)
              + SanitizeAll(su.g.xres, su.g.yres, Mark(old(vals[i]), progress, force, padsEqual).1)
    {
      hide Prerender, Fits, AllInside, AllFit;
      NodeFacts(i);
      if !o.spec.silent {
        return;
      }
      if o.invalid {
        ObjPrerender(o, force, padsEqual, i);
        SetInvalid(o, false, i);
      }
    }

    lemma MarkDamageStep(c: seq<Rect>, v: seq<Obj>, force: bool, pads: seq<bool>, i: nat)
      requires InRange(progress) && i < |v|
      ensures c + MarkDamage(su.g, v, progress, force, pads, i)
              + SanitizeAll(su.g.xres, su.g.yres, Mark(v[i], progress, force, PadAt(pads, i)).1)
              == c + MarkDamage(su.g, v, progress, force, pads, i + 1)
    {
      hide SanitizeAll, Mark;
      Regroup(c, MarkDamage(su.g, v, progress, force, pads, i),
              SanitizeAll(su.g.xres, su.g.yres, Mark(v[i], progress, force, PadAt(pads, i)).1));
    }

    /** The first i objects have been through the first pass. */
    ghost predicate Marked(v: seq<Obj>, c: seq<Rect>, force: bool, pads: seq<bool>, i: nat)
      reads this, blit
    {
      && InRange(progress) && i <= |v|
      && vals == Mixed(v, MarkAll(v, progress, force, pads), i)
      && blit.contents == c + MarkDamage(su.g, v, progress, force, pads, i)
    }

    method MarkNext(force: bool, pads: seq<bool>, ghost v: seq<Obj>, ghost c: seq<Rect>, i: nat)
      requires Valid() && i < |objs| && Marked(v, c, force, pads, i)
      modifies objs[i], blit, blit.nodes, this`vals
      ensures Valid() && fresh(blit.nodes - old(blit.nodes)) && Marked(v, c, force, pads, i + 1)
    {
      hide Mark, AllInside, AllFit, Mixed, SanitizeAll, MarkDamage;
      MarkNode(objs[i], force, PadAt(pads, i), i);
      MixedStep(v, MarkAll(v, progress, force, pads), i);
      MarkDamageStep(c, v, force, pads, i);
    }

    lemma MarkedEnds(v: seq<Obj>, c: seq<Rect>, force: bool, pads: seq<bool>, i: nat)
      requires InRange(progress)
      ensures i == 0 && vals == v && blit.contents == c ==> Marked(v, c, force, pads, i)
      ensures i == |v| && Marked(v, c, force, pads, i) ==>
                vals == MarkAll(v, progress, force, pads) && blit.contents == c + MarkDamage(su.g, v, progress, force, pads, |v|)
    {
      hide Mark, Mixed;
    }

    /** The first loop of render_objs. */
    method MarkPass(force: bool, pads: seq<bool>)
      requires Valid()
      modifies objs, blit, blit.nodes, this`vals
      ensures Valid() && fresh(blit.nodes - old(blit.nodes))
      ensures vals == MarkAll(old(vals), progress, force, pads)
      ensures blit.contents == old(blit.contents) + MarkDamage(su.g, old(vals), progress, force, pads, |old(vals)|)
    {
      hide Mark, AllInside, AllFit, Marked, MarkAll, MarkDamage;
      ghost var v, c := vals, blit.contents;
      MarkedEnds(v, c, force, pads, 0);
      for i := 0 to |objs|
        invariant Valid() && fresh(blit.nodes - old(blit.nodes)) && Marked(v, c, force, pads, i)
      {
        MarkNext(force, pads, v, c, i);
      }
      MarkedEnds(v, c, force, pads, |v|);
    }

    // ------------------------------------------------------------- second pass

    /** What is drawn of an object stays inside its picture. */
    lemma IconInside(o: Obj)
      requires Fits(su.g.xres, su.g.yres, o) && su.Valid()
      ensures o.spec.shape.PlainIcon? ==> Contains(IconRect(o.spec.shape.x, o.spec.shape.y, o.spec.shape.img), o.bnd)
      ensures o.spec.shape.CropIcon? ==> Contains(IconRect(o.spec.shape.x, o.spec.shape.y, o.spec.shape.img), o.bnd)
    {
    }

    /** obj_render on a clip rectangle inside the bounding rectangle. */
    method ObjRender(o: Node, clip: Rect)
      requires Valid() && o in objs && Inside(su.g.xres, su.g.yres, clip) && Contains(o.bnd, clip)
      modifies bgbuf
      ensures Valid()
      ensures forall v, u {:trigger bgbuf[v, u]} :: 0 <= v < bgbuf.Length0 && 0 <= u < bgbuf.Length1 ==>
                bgbuf[v, u] == if o.visible && Has(clip, u, v) then Ink(o.Val(), u, v, old(bgbuf[v, u])) else old(bgbuf[v, u])
    {
      hide InkBox, InkIcon, Fits;
      if !o.visible {
        return;
      }
      ghost var i :| 0 <= i < |objs| && objs[i] == o;
      NodeFacts(i);
      IconInside(vals[i]);
      match o.spec.shape {
        case PlainBox(box) => BoxRender(box, clip, bgbuf);
        case InterBox(_, _) => BoxRender(o.curr, clip, bgbuf);
        case PlainIcon(x, y, img, _) => IconRender(x, y, img, o.opacity, clip, bgbuf);
        case CropIcon(x, y, img, _, _, _) => IconRender(x, y, img, o.opacity, clip, bgbuf);
      }
    }

    /** One round of the inner loop of the second pass: clip, skip or render. */
    method ClippedRender(o: Node, re: Rect)
      requires Valid() && o in objs && Inside(su.g.xres, su.g.yres, re)
      modifies bgbuf
      ensures Valid()
      ensures forall v, u {:trigger bgbuf[v, u]} :: 0 <= v < bgbuf.Length0 && 0 <= u < bgbuf.Length1 ==>
                bgbuf[v, u] == if Has(re, u, v) then Draw(o.Val(), u, v, old(bgbuf[v, u])) else old(bgbuf[v, u])
    {
      hide Ink;
      if !o.spec.silent {
        return;
      }
      var clip := Meet(o.bnd, re);
      if clip.x2 < clip.x1 || clip.y2 < clip.y1 {
        return;
      }
      ObjRender(o, clip);
    }

    /** One round of the outer loop of the second pass. */
    method RedrawRect(re: Rect)
      requires Valid() && Inside(su.g.xres, su.g.yres, re)
      modifies bgbuf
      ensures Valid() && Picture(bgbuf) == RedrawnRect(su, vals, old(Picture(bgbuf)), re)
    {
      hide Draw, AllInside, AllFit, Has, Inside, Compose;
      ghost var b0 := Picture(bgbuf);
      BlitBackground(su.bg, re, bgbuf);
      assert forall x, y, p :: Compose(vals[..0], x, y, p) == p by {
        ComposeNone(vals);
      }
      for j := 0 to |objs|
        invariant Valid()
        invariant forall v, u {:trigger bgbuf[v, u]} :: 0 <= v < bgbuf.Length0 && 0 <= u < bgbuf.Length1 ==>
                    bgbuf[v, u] == if Has(re, u, v) then Compose(vals[..j], u, v, su.bg[v][u]) else old(bgbuf[v, u])
      {
        ClippedRender(objs[j], re);
        ComposeNext(vals, j);
        assert objs[j].Val() == vals[j];
      }
      assert vals[..|objs|] == vals;
      SameBitmap(su.g, Picture(bgbuf), RedrawnRect(su, vals, b0, re));
    }

    /** The second pass of render_objs. */
    method RedrawPass()
      requires Valid()
      modifies bgbuf
      ensures Valid() && Picture(bgbuf) == Redrawn(su, vals, old(Picture(bgbuf)), blit.contents)
    {
      hide RedrawnRect, Inside, AllFit;
      var i := blit.head;
      ghost var k := 0;
      ghost var rs, b0 := blit.contents, Picture(bgbuf);
      while i != null
        invariant Valid() && 0 <= k <= |rs| && i == blit.At(k)
        invariant Redrawn(su, vals, Picture(bgbuf), rs[k..]) == Redrawn(su, vals, b0, rs)
        decreases |rs| - k
      {
        blit.NextIs(k);
        RedrawRect(i.p);
        assert rs[k..][1..] == rs[k + 1..];
        i := i.next;
        k := k + 1;
      }
    }

    /** render_objs for the silent mode. */
    method RenderAll(force: bool, pads: seq<bool>)
      requires Valid()
      modifies objs, blit, blit.nodes, bgbuf, this`vals
      ensures Valid() && fresh(blit.nodes - old(blit.nodes))
      ensures View() == RenderObjs(su, old(View()), force, pads)
    {
      hide MarkAll, MarkDamage, Normalize, Redrawn, Inside, Fits;
      ghost var v0, c0 := vals, blit.contents;
      MarkPass(force, pads);
      NormalizeInside(su.g, blit.contents);
      BlitNormalize(blit);
      RedrawPass();
    }

    // -------------------------------------------------------------- visibility

    lemma OthersDiffer(i: nat)
      requires Fixed() && i < |objs|
      ensures objs[i] in members && forall j :: 0 <= j < |objs| && j != i ==> objs[j] != objs[i]
    {
    }

    /** Stores the fields that visibility changes and fades touch. */
    method StoreFade(o: Node, visible: bool, opacity: byte, tstep: int, step: int, wait: int, ghost i: nat)
      requires Valid() && i < |objs| && o == objs[i]
      modifies o, this`vals
      ensures Valid()
      ensures vals == old(vals)[i := old(vals[i]).(visible := visible, opacity := opacity, tstep := tstep, step := step, wait := wait)]
    {
      hide Fits, AllInside, AllFit, Fixed;
      OthersDiffer(i);
      FadeStored(su.g, vals, i, visible, opacity, tstep, step, wait);
      o.visible, o.opacity, o.tstep, o.step, o.wait := visible, opacity, tstep, step, wait;
      vals := vals[i := o.Val()];
    }

    /** list_add to the list of fading objects. */
    method FxAdd(o: Node)
      requires Valid() && o in members
      modifies fxobjs, fxobjs.nodes
      ensures Valid() && fxobjs.contents == old(fxobjs.contents) + [o] && fresh(fxobjs.nodes - old(fxobjs.nodes))
    {
      fxobjs.Add(o);
    }

    /** The two kinds of fade a visibility change starts. */
    method StartFade(o: Node, visible: bool, opacity: byte, time: nat, down: bool, ghost i: nat)
      requires Valid() && i < |objs| && o == objs[i]
      modifies o, fxobjs, fxobjs.nodes, this`vals
      ensures Valid() && fresh(fxobjs.nodes - old(fxobjs.nodes)) && fxobjs.contents == old(fxobjs.contents) + [o]
      ensures var n := Steps(time);
              vals == old(vals)[i := old(vals[i]).(visible := visible, opacity := opacity, tstep := time / n, wait := time / n,
                                                  step := if down then -(255 / n) else 255 / n)]
    {
      hide Fits, AllInside, AllFit;
      var n := Steps(time);
      var ts := time / n;
      StoreFade(o, visible, opacity, ts, if down then -(255 / n) else 255 / n, ts, i);
      FxAdd(o);
    }

    /** obj_visibility_set */
    method ObjVisibilitySet(o: Node, visible: bool, ghost i: nat)
      requires Valid() && i < |objs| && o == objs[i]
      modifies o, blit, blit.nodes, fxobjs, fxobjs.nodes, this`vals
      ensures Valid() && fresh(blit.nodes - old(blit.nodes)) && fresh(fxobjs.nodes - old(fxobjs.nodes))
      ensures vals == old(vals)[i := SetVisible(old(vals[i]), visible).0]
      ensures blit.contents == old(blit.contents)
              + if SetVisible(old(vals[i]), visible).1 then [Sanitize(su.g.xres, su.g.yres, old(vals[i]).bnd)] else []
      ensures fxobjs.contents == old(fxobjs.contents) + if SetVisible(old(vals[i]), visible).2 then [o] else []
    {
      hide Fits, AllInside, AllFit, Sanitize, Steps, Fixed, Valid;
      NodeFacts(i);
      if !visible && o.visible {
        BlitAdd(o.bnd);
        if o.spec.blendout > 0 {
          StartFade(o, o.visible, o.opacity, o.spec.blendout, true, i);
        } else {
          StoreFade(o, visible, o.opacity, o.tstep, o.step, o.wait, i);
        }
      } else if visible && !o.visible {
        if o.spec.blendin > 0 {
          StartFade(o, visible, 0, o.spec.blendin, false, i);
        } else {
          StoreFade(o, visible, o.opacity, o.tstep, o.step, o.wait, i);
        }
      }
    }

    /** One round of invalidate_service or invalidate_textbox. */
    method ToggleNode(c: Cmd, o: Node, want: Option<bool>, ghost i: nat)
      requires Valid() && i < |objs| && o == objs[i] && want == Wanted(c, vals[i])
      modifies o, blit, blit.nodes, fxobjs, fxobjs.nodes, this`vals
      ensures Valid() && fresh(blit.nodes - old(blit.nodes)) && fresh(fxobjs.nodes - old(fxobjs.nodes))
      ensures vals == old(vals)[i := Toggled(c, old(vals[i])).0]
      ensures blit.contents == old(blit.contents)
              + if Toggled(c, old(vals[i])).1 then [Sanitize(su.g.xres, su.g.yres, old(vals[i]).bnd)] else []
      ensures fxobjs.contents == old(fxobjs.contents) + if Toggled(c, old(vals[i])).2 then [o] else []
    {
      hide Fits, AllInside, AllFit, Sanitize, SetVisible, Fixed, Valid;
      NodeFacts(i);
      if want.None? {
        return;
      }
      SetInvalid(o, true, i);
      ObjVisibilitySet(o, want.value, i);
    }

    /** The first i objects have been toggled; d and f are the lists before that. */
    ghost predicate ToggledTo(c: Cmd, v: seq<Obj>, d: seq<Rect>, f: seq<Node>, i: nat)
      reads this, blit, fxobjs
    {
      && i <= |v| == |objs| && vals == Mixed(v, ToggleAll(c, v), i) && blit.contents == d + ToggleDamage(su.g, c, v, i)
      && fxobjs.contents == f + ListedBy(c, objs, v, i)
    }

    lemma ToggledEnds(c: Cmd, v: seq<Obj>, d: seq<Rect>, f: seq<Node>, i: nat)
      requires |v| == |objs|
      ensures i == 0 && vals == v && blit.contents == d && fxobjs.contents == f ==> ToggledTo(c, v, d, f, i)
      ensures i == |v| && ToggledTo(c, v, d, f, i) ==>
                && vals == ToggleAll(c, v) && blit.contents == d + ToggleDamage(su.g, c, v, |v|)
                && fxobjs.contents == f + ListedBy(c, objs, v, |v|)
    {
      hide Toggled, Mixed;
    }

    lemma ListedStep(c: Cmd, v: seq<Obj>, f: seq<Node>, i: nat)
      requires i < |v| == |objs|
      ensures f + ListedBy(c, objs, v, i) + (if Toggled(c, v[i]).2 then [objs[i]] else []) == f + ListedBy(c, objs, v, i + 1)
    {
      hide Toggled;
    }

    lemma ToggleDamageStep(c: Cmd, v: seq<Obj>, d: seq<Rect>, i: nat)
      requires i < |v|
      ensures d + ToggleDamage(su.g, c, v, i) + (if Toggled(c, v[i]).1 then [Sanitize(su.g.xres, su.g.yres, v[i].bnd)] else [])
              == d + ToggleDamage(su.g, c, v, i + 1)
    {
      hide Toggled, Sanitize;
      Regroup(d, ToggleDamage(su.g, c, v, i), if Toggled(c, v[i]).1 then [Sanitize(su.g.xres, su.g.yres, v[i].bnd)] else []);
    }

    method ToggleNext(c: Cmd, ghost v: seq<Obj>, ghost d: seq<Rect>, ghost f: seq<Node>, i: nat)
      requires Valid() && i < |objs| && ToggledTo(c, v, d, f, i)
      modifies objs[i], blit, blit.nodes, fxobjs, fxobjs.nodes, this`vals
      ensures Valid() && fresh(blit.nodes - old(blit.nodes)) && fresh(fxobjs.nodes - old(fxobjs.nodes))
      ensures ToggledTo(c, v, d, f, i + 1)
    {
      hide Toggled, AllInside, AllFit, Mixed, Sanitize, ToggleDamage, ListedBy, Fits, Valid;
      NodeFacts(i);
      var o := objs[i];
      var want := None;
      match c {
        case Service(name, state) =>
          var t := TriggerOf(o.spec.shape);
          if t.Some? && t.value.svc == name {
            want := Some(t.value.ty == state);
          }
        case Textbox(active) =>
          if o.spec.textbox {
            want := Some(active);
          }
        case _ =>
      }
      ToggleNode(c, o, want, i);
      MixedStep(v, ToggleAll(c, v), i);
      ToggleDamageStep(c, v, d, i);
      ListedStep(c, v, f, i);
    }

    /** invalidate_service and invalidate_textbox: a walk over the objects concerned. */
    method InvalidateWanted(c: Cmd)
      requires Valid()
      modifies objs, blit, blit.nodes, fxobjs, fxobjs.nodes, this`vals
      ensures Valid() && fresh(blit.nodes - old(blit.nodes)) && fresh(fxobjs.nodes - old(fxobjs.nodes))
      ensures vals == ToggleAll(c, old(vals))
      ensures blit.contents == old(blit.contents) + ToggleDamage(su.g, c, old(vals), |old(vals)|)
      ensures |old(vals)| == |objs| && fxobjs.contents == old(fxobjs.contents) + ListedBy(c, objs, old(vals), |old(vals)|)
    {
      hide ToggledTo, ToggleAll, ToggleDamage, ListedBy, AllInside, AllFit, Fixed;
      ghost var v, d, f := vals, blit.contents, fxobjs.contents;
      ToggledEnds(c, v, d, f, 0);
      for i := 0 to |objs|
        invariant Valid() && fresh(blit.nodes - old(blit.nodes)) && fresh(fxobjs.nodes - old(fxobjs.nodes))
        invariant ToggledTo(c, v, d, f, i)
      {
        ToggleNext(c, v, d, f, i);
      }
      ToggledEnds(c, v, d, f, |v|);
    }

    // ----------------------------------------------------------- whole-theme updates

    /** invalidate_all */
    method MarkInvalid()
      requires Valid()
      modifies objs, this`vals
      ensures Valid() && vals == InvalidateAll(old(vals))
    {
      hide AllInside, AllFit, Mixed, InvalidateAll;
      ghost var v := vals;
      for i := 0 to |objs|
        invariant Valid() && |vals| == |v| && vals == Mixed(v, InvalidateAll(v), i)
      {
        NodeFacts(i);
        SetInvalid(objs[i], true, i);
        MixedStep(v, InvalidateAll(v), i);
      }
    }

    /** invalidate_progress, for one object. */
    method TouchNode(o: Node, ghost i: nat)
      requires Valid() && i < |objs| && o == objs[i]
      modifies o`invalid, this`vals
      ensures Valid() && vals == old(vals)[i := ProgressTouch(old(vals[i]))]
    {
      hide AllInside, AllFit, Fits, Fixed;
      NodeFacts(i);
      if o.spec.shape.InterBox? || o.spec.shape.CropIcon? {
        SetInvalid(o, true, i);
      }
    }

    /** invalidate_progress */
    method InvalidateProgress()
      requires Valid()
      modifies objs, this`vals
      ensures Valid() && vals == TouchAll(old(vals))
    {
      hide AllInside, AllFit, Mixed, TouchAll;
      ghost var v := vals;
      for i := 0 to |objs|
        invariant Valid() && |vals| == |v| && vals == Mixed(v, TouchAll(v), i)
      {
        TouchNode(objs[i], i);
        MixedStep(v, TouchAll(v), i);
      }
    }

    /** fbsplashr_progress_set */
    method ProgressSet(value: int)
      requires Valid()
      modifies objs, this`vals, this`progress
      ensures Valid() && View() == Step(su, old(View()), SetProgress(value))
    {
      hide AllInside, AllFit, TouchAll;
      progress := if value < 0 then 0 else if value > PROGRESS_MAX then PROGRESS_MAX else value;
      InvalidateProgress();
    }

    // -------------------------------------------------------------------- painting

    /** fbsplashr_render_buf with repaint set: the background replaces the back buffer, and
        everything is rendered. */
    method RebuildBuffer()
      requires Valid()
      modifies objs, blit, blit.nodes, bgbuf, this`vals
      ensures Valid() && fresh(blit.nodes - old(blit.nodes))
      ensures View() == Rebuilt(su, old(View()))
    {
      hide RenderObjs, AllInside, AllFit, InvalidateAll, Fixed;
      assert su.Valid() && bgbuf.Length0 == su.g.yres && bgbuf.Length1 == su.g.xres by { BufferSize(); }
      BlitBackground(su.bg, WholeWindow(su.g), bgbuf);
      SameBitmap(su.g, Picture(bgbuf), su.bg);
      MarkInvalid();
      RenderAll(true, []);
    }

    lemma BufferSize()
      requires Fixed()
      ensures su.Valid() && bgbuf.Length0 == su.g.yres && bgbuf.Length1 == su.g.xres && fb.Length == su.g.fbLength
    {
    }

    /** fbsplashr_render_screen with repaint set: the back buffer is built again and the whole
        window is copied. */
    method RepaintScreen()
      requires Valid()
      modifies objs, blit, blit.nodes, bgbuf, fb, this`vals
      ensures Valid() && fresh(blit.nodes - old(blit.nodes))
      ensures View() == FullRepaint(su, old(View()))
    {
      hide Rebuilt, AllInside, AllFit, Copied, Fixed;
      BufferSize();
      RebuildBuffer();
      PutImg(su.g, fb, bgbuf);
    }

    /** fbsplashr_render_screen with repaint clear. */
    method PaintScreen(pads: seq<bool>)
      requires Valid()
      modifies objs, blit, blit.nodes, bgbuf, fb, this`vals
      ensures Valid() && fresh(blit.nodes - old(blit.nodes))
      ensures View() == PartialPaint(su, old(View()), pads)
    {
      hide RenderObjs, AllFit, CopiedAll, Inside;
      RenderAll(false, pads);
      PaintImg(su.g, blit, fb, bgbuf);
    }

    // -------------------------------------------------------------------- commands

    /** cmd_paint */
    method CmdPaint(pads: seq<bool>)
      requires Valid()
      modifies objs, blit, blit.nodes, bgbuf, fb, this`vals
      ensures Valid() && fresh(blit.nodes - old(blit.nodes))
      ensures View() == Step(su, old(View()), Paint(pads))
    {
      hide PartialPaint, AllInside, AllFit;
      if silent {
        PaintScreen(pads);
      }
    }

    /** cmd_repaint, without effects. */
    method CmdRepaint()
      requires Valid()
      modifies objs, blit, blit.nodes, bgbuf, fb, this`vals
      ensures Valid() && fresh(blit.nodes - old(blit.nodes))
      ensures View() == Step(su, old(View()), Repaint)
    {
      hide FullRepaint, AllInside, AllFit;
      if silent {
        RepaintScreen();
      }
    }

    /** cmd_paint_rect: swap, then clamp each corner to the theme. */
    method CmdPaintRect(x0: int, y0: int, x1: int, y1: int)
      requires Valid()
      modifies fb
      ensures Valid() && View() == Step(su, old(View()), PaintArea(x0, y0, x1, y1))
    {
      hide AllInside, AllFit, Copied, OrderedArea;
      if !silent {
        return;
      }
      var re := OrderedCorners(x0, y0, x1, y1);
      PaintRect(su.g, fb, bgbuf, re.x1, re.y1, re.x2, re.y2);
    }

    method OrderedCorners(x0: int, y0: int, x1: int, y1: int) returns (re: Rect)
      requires su.Valid()
      ensures re == OrderedArea(su.g, x0, y0, x1, y1) && Inside(su.g.xres, su.g.yres, re)
    {
      var xa, xb, ya, yb := x0, x1, y0, y1;
      if xa > xb {
        xa, xb := xb, xa;
      }
      if ya > yb {
        ya, yb := yb, ya;
      }
      xa, xb := if xa < 0 then 0 else xa, if xb < 0 then 0 else xb;
      ya, yb := if ya < 0 then 0 else ya, if yb < 0 then 0 else yb;
      xa, xb := if xa >= su.g.xres then su.g.xres - 1 else xa, if xb >= su.g.xres then su.g.xres - 1 else xb;
      ya, yb := if ya >= su.g.yres then su.g.yres - 1 else ya, if yb >= su.g.yres then su.g.yres - 1 else yb;
      re := Rect(xa, xb, ya, yb);
    }

    /** The visibility part of cmd_update_svc, and of the F3 key. */
    method CmdToggle(c: Cmd)
      requires Valid() && (c.Service? || c.Textbox?)
      modifies objs, blit, blit.nodes, fxobjs, fxobjs.nodes, this`vals
      ensures Valid() && fresh(blit.nodes - old(blit.nodes)) && fresh(fxobjs.nodes - old(fxobjs.nodes))
      ensures View() == Step(su, old(View()), c)
      ensures |old(vals)| == |objs| && fxobjs.contents == old(fxobjs.contents) + ListedBy(c, objs, old(vals), |objs|)
    {
      hide ToggleAll, ToggleDamage, AllInside, AllFit;
      InvalidateWanted(c);
    }

    // -------------------------------------------------------------- animation thread

    /** Records the values of all objects again; only ghost state changes. */
    ghost method Resync()
      requires Fixed() && |vals| == |objs|
      modifies this`vals
      ensures |vals| == |objs| && forall i :: 0 <= i < |objs| ==> objs[i].Val() == vals[i]
    {
      vals := seq(|objs|, i requires 0 <= i < |objs| reads objs => objs[i].Val());
    }

    /** One round of the animation thread: the effects loop, and a repaint if the silent terminal
        is in front. */
    method AnimRound(rdelay: int) returns (ghost fades: seq<Fade>)
      requires Valid()
      modifies objs, blit, blit.nodes, fxobjs, fxobjs.nodes, members, bgbuf, fb, this`vals
      ensures Valid() && fresh(blit.nodes - old(blit.nodes)) && fxobjs.nodes == old(fxobjs.nodes)
      ensures View() == Step(su, old(View()), Tick(fades)) && Gentle(old(vals), fades)
      ensures (forall n :: n in old(fxobjs.contents) ==> n in members)
              && fxobjs.contents == Pass(old(fxobjs.contents), old(Values(members)), rdelay).0
              && Passed(Pass(old(fxobjs.contents), old(Values(members)), rdelay).1)
    {
      hide FullRepaint, AllInside, AllFit, FaintAll, Fixed, Pass, Gentle, Valid, Passed;
      NodesAreMembers();
      fades := EffectsRound(rdelay);
      MembersPassed(Values(members));
      AnimPaint(Values(members));
    }

    /** The repaint at the end of a round. */
    method AnimPaint(ghost m: map<Node, Obj>)
      requires Valid() && Passed(m)
      modifies objs, blit, blit.nodes, bgbuf, fb, this`vals
      ensures Valid() && fresh(blit.nodes - old(blit.nodes)) && Passed(m)
      ensures View() == if silent then FullRepaint(su, old(View())) else old(View())
    {
      hide FullRepaint, Fixed, Valid, SameFades;
      if silent {
        NodesAreMembers();
        ghost var s := View();
        RepaintKeepsFades(su, s);
        RepaintScreen();
        StillPassed(s.objs, m);
      }
    }

    /** The objects have the values of m, up to their caches. */
    ghost predicate Passed(m: map<Node, Obj>)
      reads this
    {
      AllSameFades(vals, m)
    }

    ghost predicate AllSameFades(v: seq<Obj>, m: map<Node, Obj>) {
      |v| == |objs| && forall i :: 0 <= i < |objs| ==> objs[i] in m && SameFades(v[i], m[objs[i]])
    }

    lemma MembersPassed(m: map<Node, Obj>)
      requires Valid() && m == Values(members)
      ensures AllSameFades(vals, m) && Passed(m)
    {
      hide AllInside, AllFit;
    }

    lemma StillPassed(v: seq<Obj>, m: map<Node, Obj>)
      requires AllSameFades(v, m) && |vals| == |v| && forall i :: 0 <= i < |v| ==> SameFades(v[i], vals[i])
      ensures Passed(m)
    {
    }

    lemma NodesAreMembers()
      requires Valid()
      ensures forall n :: n in fxobjs.contents ==> n in members
      ensures |vals| == |objs| && forall i :: 0 <= i < |objs| ==> objs[i] in members
      ensures WellFormed(su, View())
    {
    }

    method EffectsRound(rdelay: int) returns (ghost fades: seq<Fade>)
      requires Valid()
      modifies fxobjs, fxobjs.nodes, members, this`vals
      ensures Valid() && fxobjs.nodes == old(fxobjs.nodes)
      ensures vals == FaintAll(old(vals), fades) && Gentle(old(vals), fades)
      ensures (fxobjs.contents, Values(members)) == Pass(old(fxobjs.contents), old(Values(members)), rdelay)
    {
      hide AllFit, AllInside, Pass, FaintOf, FaintAll, Gentle, Fits, Loaded, Visit, FadesOf;
      ghost var v, m, c := vals, Values(members), fxobjs.contents;
      EffectsPass(fxobjs, rdelay, members);
      PassFaints(c, m, rdelay);
      Resync();
      fades := FadesOf(v, vals);
      forall i | 0 <= i < |objs| ensures FaintOf(v[i], vals[i]) {
        assert objs[i] in members && m[objs[i]] == v[i];
      }
      AllFaint(su.g, v, vals);
    }
  }

  // ------------------------------------------------------- effects as scene steps

  lemma MarkKeepsFades(o: Obj, p: int, force: bool, pad: bool)
    requires InRange(p)
    ensures SameFades(o, Mark(o, p, force, pad).0)
  {
    hide BoxAt, Interpolate, StripsX, StripsY;
  }

  /** A repaint changes nothing that fades look at. */
  lemma RepaintKeepsFades(su: Setup, s: State)
    requires su.Valid() && InRange(s.progress)
    ensures |FullRepaint(su, s).objs| == |s.objs|
    ensures forall i :: 0 <= i < |s.objs| ==> SameFades(s.objs[i], FullRepaint(su, s).objs[i])
  {
    hide Mark, Redrawn, MarkDamage, Normalize, Copied;
    forall i | 0 <= i < |s.objs| ensures SameFades(s.objs[i], FullRepaint(su, s).objs[i]) {
      MarkKeepsFades(s.objs[i].(invalid := true), s.progress, true, false);
    }
  }

  function FadeBetween(o: Obj, o': Obj): Fade {
    Fade(o'.opacity, o'.wait, o.visible && !o'.visible, o'.invalid)
  }

  ghost function FadesOf(v: seq<Obj>, w: seq<Obj>): (fades: seq<Fade>)
    requires |v| == |w|
    ensures |fades| == |v| && forall i :: 0 <= i < |v| ==> fades[i] == FadeBetween(v[i], w[i])
  {
    seq(|v|, i requires 0 <= i < |v| => FadeBetween(v[i], w[i]))
  }

  /** Objects that have each changed as a pass may change them make up a Tick. */
  lemma AllFaint(g: Geometry, v: seq<Obj>, w: seq<Obj>)
    requires |v| == |w| && (forall i :: 0 <= i < |v| ==> FaintOf(v[i], w[i])) && AllFit(g, v)
    ensures w == FaintAll(v, FadesOf(v, w)) && Gentle(v, FadesOf(v, w)) && AllFit(g, w)
  {
    hide Fits;
    forall i | 0 <= i < |v| ensures Fits(g.xres, g.yres, w[i]) {
      FaintFits(g, v[i], FadeBetween(v[i], w[i]));
    }
  }

  /** Only an object with a negative step, which is on its way out, is hidden. */
  ghost predicate Gentle(objs: seq<Obj>, fades: seq<Fade>) {
    forall i :: 0 <= i < |objs| && i < |fades| && objs[i].step >= 0 ==> !fades[i].hide
  }

  ghost predicate FaintOf(o: Obj, o': Obj) {
    o' == Faint(o, FadeBetween(o, o')) && (o.step >= 0 ==> o'.visible == o.visible)
  }

  lemma VisitFaints(o: Obj, d: int)
    ensures FaintOf(o, Visit(o, d).0)
  {
  }

  lemma FaintFits(g: Geometry, o: Obj, f: Fade)
    ensures Fits(g.xres, g.yres, o) ==> Fits(g.xres, g.yres, Faint(o, f))
  {
  }

  /** Whatever the list of fading objects holds, a pass changes objects only as a Tick may. */
  lemma {:induction false} PassFaints(c: seq<Node>, m: map<Node, Obj>, d: int)
    requires forall n :: n in c ==> n in m
    ensures Pass(c, m, d).1.Keys == m.Keys
    ensures forall n :: n in m ==> FaintOf(m[n], Pass(c, m, d).1[n])
    decreases |c|
  {
    hide Visit;
    if c == [] {
    } else {
      var m1 := m[c[0] := Visit(m[c[0]], d).0];
      PassFaints(c[1..], m1, d);
      VisitFaints(m[c[0]], d);
    }
  }
}
