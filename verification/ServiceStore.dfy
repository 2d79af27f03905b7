/**
  The store of service states as the daemon has it, a linked list searched by name, and the two
  operations that use it: update_svc and the reload of a theme (core/src/daemon_cmd.c,
  cmd_update_svc; core/src/daemon.c, reload_theme).
 */
module ServiceStore {
  import opened Rects
  import opened Pixels
  import opened Objects
  import opened Lists
  import opened Nodes
  import opened Framebuffer
  import opened Scene
  import opened Theme
  import opened Services

  /** svc_state, without its time stamp. */
  class Entry {
    const svc: string
    var state: SvcState

    constructor (svc: string, state: SvcState)
      ensures this.svc == svc && this.state == state
    {
      this.svc, this.state := svc, state;
    }

    ghost function Val(): Svc
      reads this
    {
      Svc(svc, state)
    }
  }

  lemma {:induction false} PutFound(st: seq<Svc>, u: Svc, k: nat)
    requires k < |st| && st[k].name == u.name && forall i :: 0 <= i < k ==> st[i].name != u.name
    ensures Put(st, u) == st[k := u]
    decreases k
  {
    if k > 0 {
      PutFound(st[1..], u, k - 1);
    }
  }

  lemma {:induction false} PutNew(st: seq<Svc>, u: Svc)
    requires forall i :: 0 <= i < |st| ==> st[i].name != u.name
    ensures Put(st, u) == st + [u]
    decreases |st|
  {
    if st != [] {
      PutNew(st[1..], u);
    }
  }

  lemma RecordedNext(us: seq<Svc>, u: Svc)
    ensures Recorded(us + [u]) == Put(Recorded(us), u)
  {
    assert (us + [u])[..|us|] == us;
  }

  /** After a reload, icons follow the updates made before it. */
  ghost predicate ReloadedFollow(specs: seq<Spec>, objs: seq<Obj>, us: seq<Svc>) {
    && |objs| == |specs|
    && forall i, t :: 0 <= i < |specs| && IsIconOf(specs[i], t) ==>
         (objs[i].visible <==> LastState(us, t.svc) == Some(t.ty))
  }

  lemma ReplayFollows(su: Setup, specs: seq<Spec>, p: int, us: seq<Svc>)
    requires su.Valid() && InRange(p)
    ensures ReloadedFollow(specs, ToggleMany(AllLoaded(su.g.xres, su.g.yres, specs, p), Recorded(us)), us)
  {
    var w, h := su.g.xres, su.g.yres;
    hide Loaded, AfterUpdates, LastState, IsIconOf;
    var objs := ToggleMany(AllLoaded(w, h, specs, p), Recorded(us));
    forall i, t | 0 <= i < |specs| && IsIconOf(specs[i], t)
      ensures objs[i].visible <==> LastState(us, t.svc) == Some(t.ty)
    {
      ReloadShowsLast(w, h, specs[i], p, t, us);
    }
  }

  /** The scene after updates in order, as values. */
  function ToggleMany(objs: seq<Obj>, us: seq<Svc>): (out: seq<Obj>)
    ensures |out| == |objs|
    ensures forall i :: 0 <= i < |objs| ==> out[i] == AfterUpdates(objs[i], us)
  {
    seq(|objs|, i requires 0 <= i < |objs| => AfterUpdates(objs[i], us))
  }

  lemma ToggleOneMore(objs: seq<Obj>, us: seq<Svc>, k: nat)
    requires k < |us|
    ensures ToggleMany(objs, us[..k + 1]) == ToggleAll(Service(us[k].name, us[k].state), ToggleMany(objs, us[..k]))
  {
    hide Toggled;
    assert us[..k + 1][..k] == us[..k];
  }

  lemma ToggleNone(objs: seq<Obj>)
    ensures ToggleMany(objs, []) == objs
  {
  }

  class Store {
    const svcs: List<Entry>
    ghost var entries: seq<Svc>
    ghost var all: set<Entry>
    /** Every update so far. */
    ghost var log: seq<Svc>

    ghost predicate Valid()
      reads this, svcs, svcs.nodes, all
    {
      && Listed() && entries == Recorded(log)
    }

    /** The list holds the entries. */
    ghost predicate Listed()
      reads this, svcs, svcs.nodes, all
    {
      && svcs.Valid() && |entries| == |svcs.contents|
      && (forall i :: 0 <= i < |entries| ==> svcs.contents[i] in all && svcs.contents[i].Val() == entries[i])
      && (forall i, j :: 0 <= i < j < |entries| ==> svcs.contents[i] != svcs.contents[j])
    }

    constructor ()
      ensures Valid() && entries == [] && log == [] && all == {} && fresh(svcs) && fresh(svcs.nodes)
    {
      svcs := new List<Entry>();
      entries, all, log := [], {}, [];
    }

    lemma HeadIs()
      requires Valid()
      ensures svcs.head == svcs.At(0) && entries[..0] == []
    {
    }

    lemma EntryAt(k: nat)
      requires Valid() && k <= |entries| && svcs.At(k) != null
      ensures k < |entries| && svcs.At(k).p.Val() == entries[k] && svcs.At(k).next == svcs.At(k + 1)
      ensures svcs.At(k).p.svc == entries[k].name && svcs.At(k).p.state == entries[k].state
    {
      svcs.NextIs(k);
    }

    lemma EndAt(k: nat)
      requires Valid() && k <= |entries| && svcs.At(k) == null
      ensures k == |entries|
    {
    }

    lemma Whole()
      requires Valid()
      ensures entries[..|entries|] == entries && entries == Recorded(log)
    {
    }

    /** The search loop: the first entry for the service, null if there is none. */
    method Find(name: string) returns (e: Entry?, ghost k: nat)
      requires Valid()
      ensures k <= |entries| && forall i :: 0 <= i < k ==> entries[i].name != name
      ensures e == null <==> k == |entries|
      ensures e != null ==> e == svcs.contents[k] && e.svc == name
    {
      var i := svcs.head;
      k := 0;
      while i != null
        invariant k <= |entries| && i == svcs.At(k)
        invariant forall j :: 0 <= j < k ==> entries[j].name != name
        decreases |entries| - k
      {
        svcs.NextIs(k);
        assert i.p.Val() == entries[k];
        if i.p.svc == name {
          return i.p, k;
        }
        i := i.next;
        k := k + 1;
      }
      e := null;
    }

    /** The part of cmd_update_svc that changes the store. */
    method Record(name: string, state: SvcState)
      requires Valid()
      modifies this, svcs, svcs.nodes, all
      ensures Valid() && fresh(svcs.nodes - old(svcs.nodes)) && fresh(all - old(all))
      ensures log == old(log) + [Svc(name, state)]
    {
      hide Put, Recorded;
      RecordedNext(log, Svc(name, state));
      var e, k := Find(name);
      if e != null {
        PutFound(entries, Svc(name, state), k);
        Change(e, state, k);
      } else {
        PutNew(entries, Svc(name, state));
        Append(name, state);
      }
      log := log + [Svc(name, state)];
    }

    method Change(e: Entry, state: SvcState, ghost k: nat)
      requires Listed() && k < |entries| && e == svcs.contents[k]
      modifies this`entries, e
      ensures Listed() && entries == old(entries)[k := Svc(e.svc, state)]
    {
      e.state := state;
      entries := entries[k := Svc(e.svc, state)];
    }

    method Append(name: string, state: SvcState)
      requires Listed()
      modifies this`entries, this`all, svcs, svcs.nodes
      ensures Listed() && fresh(svcs.nodes - old(svcs.nodes)) && fresh(all - old(all)) && old(all) <= all
      ensures entries == old(entries) + [Svc(name, state)]
    {
      var e := new Entry(name, state);
      svcs.Add(e);
      entries, all := entries + [Svc(name, state)], all + {e};
    }
  }

  /** cmd_update_svc: an unknown state changes nothing; any other is recorded and shown. */
  method CmdUpdateSvc(s: Store, t: Theme, name: string, text: string) returns (ret: int)
    requires s.Valid() && t.Valid()
    modifies s, s.svcs, s.svcs.nodes, s.all
    modifies t.objs, t.blit, t.blit.nodes, t.fxobjs, t.fxobjs.nodes, t`vals
    ensures s.Valid() && t.Valid()
    ensures ParseState(text) == None ==> ret == -1 && s.log == old(s.log) && t.View() == old(t.View())
    ensures ParseState(text).Some? ==>
              var state := ParseState(text).value;
              && ret == 0 && s.log == old(s.log) + [Svc(name, state)]
              && t.View() == Step(t.su, old(t.View()), Service(name, state))
  {
    hide *;
    var state := ParseState(text);
    if state == None {
      return -1;
    }
    s.Record(name, state.value);
    t.CmdToggle(Service(name, state.value));
    ret := 0;
  }

  method Replay(t: Theme, name: string, state: SvcState)
    requires t.Valid()
    modifies t.objs, t.blit, t.blit.nodes, t.fxobjs, t.fxobjs.nodes, t`vals
    ensures t.Valid() && fresh(t.blit.nodes - old(t.blit.nodes)) && fresh(t.fxobjs.nodes - old(t.fxobjs.nodes))
    ensures t.vals == ToggleAll(Service(name, state), old(t.vals))
  {
    hide ToggleAll, ToggleDamage, AllInside, AllFit, t.Valid;
    t.CmdToggle(Service(name, state));
    assert t.View().objs == t.vals;
  }

  /** The loop of reload_theme. */
  method ReplayAll(s: Store, t: Theme)
    requires s.Valid() && t.Valid()
    modifies t.objs, t.blit, t.blit.nodes, t.fxobjs, t.fxobjs.nodes, t`vals
    ensures t.Valid() && s.Valid() && fresh(t.blit.nodes - old(t.blit.nodes)) && fresh(t.fxobjs.nodes - old(t.fxobjs.nodes))
    ensures t.vals == ToggleMany(old(t.vals), s.entries)
  {
    hide *;
    ghost var objs := t.vals;
    ToggleNone(objs);
    var i := s.svcs.head;
    ghost var k := 0;
    assert i == s.svcs.At(0) && s.entries[..0] == [] by { s.HeadIs(); }
    while i != null
      invariant k <= |s.entries| && i == s.svcs.At(k)
      invariant t.Valid() && t.vals == ToggleMany(objs, s.entries[..k])
      invariant fresh(t.blit.nodes - old(t.blit.nodes)) && fresh(t.fxobjs.nodes - old(t.fxobjs.nodes))
      decreases |s.entries| - k
    {
      s.EntryAt(k);
      ToggleOneMore(objs, s.entries, k);
      Replay(t, i.p.svc, i.p.state);
      i := i.next;
      k := k + 1;
    }
    s.EndAt(k);
    assert s.entries[..|s.entries|] == s.entries by { s.Whole(); }
  }

  /** reload_theme: a new theme, to which the recorded states are replayed. */
  method ReloadTheme(s: Store, su: Setup, specs: seq<Spec>, fb: array<byte>, progress: int, silent: bool) returns (t: Theme)
    requires s.Valid() && su.Valid() && fb.Length == su.g.fbLength && InRange(progress)
    requires forall i :: 0 <= i < |specs| ==> Loadable(su.g.xres, su.g.yres, specs[i].shape)
    ensures t.Valid() && fresh(t) && t.su == su && t.fb == fb && t.progress == progress
    ensures t.vals == ToggleMany(AllLoaded(su.g.xres, su.g.yres, specs, progress), s.entries)
    ensures ReloadedFollow(specs, t.vals, s.log)
  {
    hide *;
    t := new Theme.Load(su, specs, fb, progress, silent);
    ReplayAll(s, t);
    s.Whole();
    ReplayFollows(su, specs, progress, s.log);
  }
}
