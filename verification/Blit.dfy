/**
  The re-blit list: normalization of the damaged rectangles (core/src/render.c, blit_normalize).

  `Normalize` is the outcome as a function of the rectangles in list order.  The lemmas say what
  that outcome means; the method shows that the in-place walk, with its deletions and its jump
  back to the start, produces it.
 */
module Blit {
  import opened Rects
  import opened Lists

  /** The state of the inner walk for one list position: the rectangle now stored there, the
      later rectangles already compared with it, and those still to be compared. */
  function Absorb(a: Rect, done: seq<Rect>, todo: seq<Rect>): (r: (Rect, seq<Rect>))
    ensures |r.1| <= |done| + |todo|
    decreases |done| + |todo|, |todo|
  {
    if todo == [] then (a, done)
    else if Contains(a, todo[0]) then Absorb(a, done, todo[1..])
    else if Contains(todo[0], a) then Absorb(todo[0], [], done + todo[1..])
    else Absorb(a, done + [todo[0]], todo[1..])
  }

  function Normalize(s: seq<Rect>): seq<Rect>
    decreases |s|
  {
    if s == [] then []
    else
      var (a, rest) := Absorb(s[0], [], s[1..]);
      [a] + Normalize(rest)
  }

  // ------------------------------------------------- what normalization means

  predicate Unrelated(a: Rect, s: seq<Rect>) {
    forall i :: 0 <= i < |s| ==> !Contains(a, s[i]) && !Contains(s[i], a)
  }

  /** No rectangle of the list contains another one. */
  predicate Antichain(s: seq<Rect>) {
    forall i, j :: 0 <= i < |s| && 0 <= j < |s| && i != j ==> !Contains(s[i], s[j])
  }

  /** The rectangle is in the list and only equal ones contain it. */
  predicate Maximal(r: Rect, s: seq<Rect>) {
    r in s && forall b :: b in s && Contains(b, r) ==> b == r
  }

  predicate Dominated(r: Rect, s: seq<Rect>) {
    exists b :: b in s && Contains(b, r)
  }

  /** What the inner walk keeps: nothing new appears, everything stays dominated,
      and the surviving rectangle is unrelated to all that remain. */
  lemma {:induction false} AbsorbMeaning(a: Rect, done: seq<Rect>, todo: seq<Rect>)
    requires Unrelated(a, done)
    ensures var (b, rest) := Absorb(a, done, todo);
            && Unrelated(b, rest)
            && (forall r :: r in [b] + rest ==> r in [a] + done + todo)
            && (forall r :: r in [a] + done + todo ==> Dominated(r, [b] + rest))
    decreases |done| + |todo|, |todo|
  {
    var (b, rest) := Absorb(a, done, todo);
    var all := [a] + done + todo;
    if todo == [] {
      assert all == [b] + rest;
      forall r | r in all ensures Dominated(r, [b] + rest) {
        assert Contains(r, r);
      }
    } else {
      var t := todo[0];
      if Contains(a, t) {
        AbsorbMeaning(a, done, todo[1..]);
        Inherit(a, t, [a] + done + todo[1..], [b] + rest);
      } else if Contains(t, a) {
        AbsorbMeaning(t, [], done + todo[1..]);
        Inherit(t, a, [t] + [] + (done + todo[1..]), [b] + rest);
      } else {
        AbsorbMeaning(a, done + [t], todo[1..]);
        assert [a] + (done + [t]) + todo[1..] == all;
      }
    }
  }

  /** A rectangle dropped in favour of a bigger one stays dominated. */
  lemma Inherit(big: Rect, small: Rect, kept: seq<Rect>, out: seq<Rect>)
    requires big in kept && Contains(big, small)
    requires forall r :: r in kept ==> Dominated(r, out)
    ensures Dominated(small, out)
  {
    assert Dominated(big, out);
    var b :| b in out && Contains(b, big);
    assert Contains(b, small);
  }

  lemma {:induction false} NormalizeKeeps(s: seq<Rect>)
    ensures forall r :: r in Normalize(s) ==> r in s
    ensures forall r :: r in s ==> Dominated(r, Normalize(s))
    decreases |s|
  {
    if s != [] {
      var (a, rest) := Absorb(s[0], [], s[1..]);
      AbsorbMeaning(s[0], [], s[1..]);
      NormalizeKeeps(rest);
      assert s == [s[0]] + [] + s[1..];
      forall r | r in s ensures Dominated(r, Normalize(s)) {
        assert Dominated(r, [a] + rest);
        var b :| b in [a] + rest && Contains(b, r);
        if b in rest {
          assert Dominated(b, Normalize(rest));
          var c :| c in Normalize(rest) && Contains(c, b);
          assert c in Normalize(s) && Contains(c, r);
        } else {
          assert b in Normalize(s);
        }
      }
    }
  }

  lemma {:induction false} NormalizeIsAntichain(s: seq<Rect>)
    ensures Antichain(Normalize(s))
    decreases |s|
  {
    if s != [] {
      var (a, rest) := Absorb(s[0], [], s[1..]);
      AbsorbMeaning(s[0], [], s[1..]);
      NormalizeIsAntichain(rest);
      NormalizeKeeps(rest);
      var n := Normalize(rest);
      forall i | 0 <= i < |n| ensures !Contains(a, n[i]) && !Contains(n[i], a) {
        assert n[i] in rest;
      }
    }
  }

  /** The normalized list holds exactly the maximal rectangles, each of them once. */
  lemma NormalizeIsMaximal(s: seq<Rect>)
    ensures forall r :: r in Normalize(s) <==> Maximal(r, s)
    ensures forall i, j :: 0 <= i < j < |Normalize(s)| ==> Normalize(s)[i] != Normalize(s)[j]
  {
    var n := Normalize(s);
    NormalizeKeeps(s);
    NormalizeIsAntichain(s);
    forall r ensures r in n <==> Maximal(r, s) {
      if r in n {
        forall b | b in s && Contains(b, r) ensures b == r {
          assert Dominated(b, n);
          var c :| c in n && Contains(c, b);
          assert Contains(c, r);
          assert c == r;
        }
      }
      if Maximal(r, s) {
        assert Dominated(r, n);
        var c :| c in n && Contains(c, r);
        assert c in s;
      }
    }
    forall i, j | 0 <= i < j < |n| ensures n[i] != n[j] {
      assert Contains(n[i], n[i]);
    }
  }

  /** Normalization keeps exactly the set of covered pixels. */
  lemma NormalizeKeepsCoverage(s: seq<Rect>, x: int, y: int)
    ensures Covered(Normalize(s), x, y) <==> Covered(s, x, y)
  {
    NormalizeKeeps(s);
    var n := Normalize(s);
    if Covered(n, x, y) {
      var i :| 0 <= i < |n| && Has(n[i], x, y);
      assert n[i] in s;
    }
    if Covered(s, x, y) {
      var i :| 0 <= i < |s| && Has(s[i], x, y);
      assert Dominated(s[i], n);
      var b :| b in n && Contains(b, s[i]);
      assert Has(b, x, y);
    }
  }

  // -------------------------------------------------------- the in-place walk

  lemma Restarted(before: seq<Rect>, a: Rect, b: Rect, done: seq<Rect>, todo: seq<Rect>)
    ensures (before + [a] + done + todo)[|before| := b] == before + [b] + (done + todo)
  {
  }

  /** list_del of the item at the start of the part still to be compared. */
  method DropNext(blit: List<Rect>, prev: Item<Rect>, j: Item<Rect>, ghost front: seq<Rect>, ghost todo: seq<Rect>)
    requires blit.Valid() && blit.contents == front + todo && front != [] && todo != []
    requires prev == blit.spine[|front| - 1] && j == blit.spine[|front|]
    modifies blit, blit.nodes
    ensures blit.Valid() && blit.contents == front + todo[1..] && blit.nodes == old(blit.nodes)
    ensures |blit.spine| < old(|blit.spine|) && blit.spine[..|front|] == old(blit.spine)[..|front|]
    ensures prev == blit.At(|front| - 1) && prev.next == blit.At(|front|)
  {
    blit.Del(prev, j, |front|);
    blit.NextIs(|front| - 1);
  }

  /** The second branch of the inner walk: the item i takes over the bigger rectangle of j. */
  method TakeOver(blit: List<Rect>, i: Item<Rect>, prev: Item<Rect>, j: Item<Rect>,
                  ghost before: seq<Rect>, ghost done: seq<Rect>, ghost todo: seq<Rect>)
    requires blit.Valid() && todo != []
    requires blit.contents == before + [i.p] + done + todo && i == blit.At(|before|)
    requires prev == blit.At(|before| + |done|) && j == blit.At(|before| + |done| + 1)
    modifies blit, blit.nodes
    ensures blit.Valid() && blit.nodes == old(blit.nodes)
    ensures blit.contents == before + [todo[0]] + (done + todo[1..]) && i == blit.At(|before|)
    ensures i.p == todo[0] && i.next == blit.At(|before| + 1)
  {
    ghost var a := i.p;
    blit.NextIs(|before| + |done| + 1);
    var b := j.p;
    DropNext(blit, prev, j, before + [a] + done, todo);
    assert blit.spine[..|before| + 1 + |done|][|before|] == i;
    blit.Store(i, b, |before|);
    Restarted(before, a, b, done, todo[1..]);
    blit.NextIs(|before|);
  }

  lemma SplitAt(s: seq<Rect>, k: nat)
    requires k < |s|
    ensures s == s[..k] + [s[k]] + s[k + 1..]
  {
  }

  /** The inner walk of blit_normalize for the item i at position k.  The jump back to the
      start is the branch that resets prev and j. */
  method AbsorbInto(blit: List<Rect>, i: Item<Rect>, ghost k: nat)
    requires blit.Valid() && k < |blit.spine| && i == blit.spine[k]
    modifies blit, blit.nodes
    ensures blit.Valid() && blit.nodes == old(blit.nodes)
    ensures k < |blit.spine| && i == blit.spine[k]
    ensures blit.contents[..k] == old(blit.contents[..k])
    ensures (i.p, blit.contents[k + 1..]) == Absorb(old(i.p), [], old(blit.contents[k + 1..]))
  {
    hide blit.Valid;
    blit.NextIs(k);
    var a, prev, j := i.p, i, i.next;
    ghost var before, done, todo := blit.contents[..k], [], blit.contents[k + 1..];
    ghost var out := Absorb(a, done, todo);
    ghost var front := before + [a];
    while j != null
      invariant blit.Valid() && blit.nodes == old(blit.nodes)
      invariant |before| == k < |blit.spine| && i == blit.spine[k] && i.p == a
      invariant front == before + [a] + done
      invariant blit.contents == front + todo
      invariant prev == blit.At(|front| - 1) && j == blit.At(|front|)
      invariant Absorb(a, done, todo) == out
      decreases |done| + |todo|, |todo|
    {
      blit.NextIs(|front|);
      var b := j.p;
      if Contains(a, b) {
        DropNext(blit, prev, j, front, todo);
        todo := todo[1..];
        j := prev;
      } else if Contains(b, a) {
        TakeOver(blit, i, prev, j, before, done, todo);
        done, front, todo := [], before + [b], done + todo[1..];
        a, prev, j := i.p, i, i.next;
        continue;
      } else {
        done, front, todo := done + [b], front + [b], todo[1..];
      }
      prev := j;
      j := j.next;
    }
    blit.EndIs(|front|);
    assert blit.contents[..k] == before && blit.contents[k + 1..] == done;
  }

  lemma NormalizeStep(rest: seq<Rect>, a: Rect, after: seq<Rect>)
    requires rest != [] && (a, after) == Absorb(rest[0], [], rest[1..])
    ensures Normalize(rest) == [a] + Normalize(after)
  {
  }

  lemma Regroup(x: seq<Rect>, y: seq<Rect>, z: seq<Rect>)
    ensures x + (y + z) == x + y + z
  {
  }

  /** blit_normalize */
  method BlitNormalize(blit: List<Rect>)
    requires blit.Valid()
    modifies blit, blit.nodes
    ensures blit.Valid() && blit.contents == Normalize(old(blit.contents))
    ensures blit.nodes == old(blit.nodes)
  {
    var i := blit.head;
    ghost var k := 0;
    ghost var before, rest := [], blit.contents;
    while i != null
      invariant blit.Valid() && blit.nodes == old(blit.nodes)
      invariant 0 <= k <= |blit.spine| && i == blit.At(k)
      invariant |before| == k && blit.contents == before + rest
      invariant before + Normalize(rest) == Normalize(old(blit.contents))
      decreases |rest|
    {
      blit.NextIs(k);
      assert blit.contents[..k] == before && blit.contents[k + 1..] == rest[1..];
      AbsorbInto(blit, i, k);
      blit.NextIs(k);
      ghost var after := blit.contents[k + 1..];
      SplitAt(blit.contents, k);
      NormalizeStep(rest, i.p, after);
      Regroup(before, [i.p], Normalize(after));
      before, rest := before + [i.p], after;
      i := i.next;
      k := k + 1;
    }
  }
}
