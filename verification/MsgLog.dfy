/**
  The message log: a linked list used as a ring buffer (core/src/daemon_cmd.c, cmd_log;
  core/src/list.c, list_ringadd) and the text made from it (core/src/ttf.c, text_bnd).
 */
module MsgLog {
  import opened Rects
  import opened Lists
  import opened Objects

  /** The argument of a log command; a bare command passes a null pointer. */
  type Message = Option<string>

  /** strndup: at most cols characters.  The count is unsigned, so a negative one cuts nothing. */
  function Cut(m: string, cols: int): (r: string)
    ensures r <= m
    ensures |r| == if cols < 0 then |m| else Min(|m|, cols)
  {
    if 0 <= cols < |m| then m[..cols] else m
  }

  function Words(m: Message): string {
    if m.Some? then m.value else []
  }

  function CutAll(ms: seq<Message>, cols: int): seq<string> {
    seq(|ms|, i requires 0 <= i < |ms| => Cut(Words(ms[i]), cols))
  }

  predicate NoneMissing(ms: seq<Message>) {
    forall i :: 0 <= i < |ms| ==> ms[i].Some?
  }

  /** The last n elements, or all. */
  function LastOf<T>(s: seq<T>, n: nat): seq<T> {
    if |s| <= n then s else s[|s| - n..]
  }

  /** What has become of the log: it holds messages, or its head is lost while its tail still
      grows, or the daemon has followed a null pointer. */
  datatype Fate = Holds(shown: seq<string>) | Adrift | Crashed {
    /** What a walk from the head sees. */
    function Shown(): seq<string> {
      if Holds? then shown else []
    }
  }

  /** The log after one more message, the cnt-th. */
  function Append(f: Fate, cnt: nat, lines: int, cols: int, msg: Message): Fate {
    if msg.None? then Crashed
    else Push(f, cnt, lines, Cut(msg.value, cols))
  }

  function Push(f: Fate, cnt: nat, lines: int, m: string): Fate {
    match f
    case Holds(s) =>
      if cnt <= lines then Holds(s + [m])
      else if s == [] then Crashed
      else if |s| == 1 then Adrift
      else Holds(s[1..] + [m])
    case Adrift => if cnt <= lines then Adrift else Crashed
    case Crashed => Crashed
  }

  /** The log after a sequence of messages, starting empty. */
  function After(ms: seq<Message>, lines: int, cols: int): Fate {
    if ms == [] then Holds([])
    else Append(After(ms[..|ms| - 1], lines, cols), |ms|, lines, cols, ms[|ms| - 1])
  }

  /** The guard under which the ring buffer works: at least two lines, or no overflow yet. */
  predicate RingWorks(count: nat, lines: int) {
    lines >= 2 || count <= Max(lines, 0)
  }

  lemma LastOfPush<T>(s: seq<T>, x: T, n: nat)
    requires n > 0
    ensures LastOf(s + [x], n) == (if |s| < n then s + [x] else LastOf(s, n)[1..] + [x])
  {
  }

  lemma CutAllPush(ms: seq<Message>, cols: int)
    requires ms != []
    ensures CutAll(ms, cols) == CutAll(ms[..|ms| - 1], cols) + [Cut(Words(ms[|ms| - 1]), cols)]
    ensures NoneMissing(ms) <==> NoneMissing(ms[..|ms| - 1]) && ms[|ms| - 1].Some?
  {
  }

  /** What the log ends up as, for every number of messages and every number of lines. */
  lemma {:induction false} AfterIs(ms: seq<Message>, lines: int, cols: int)
    ensures After(ms, lines, cols) ==
            if !NoneMissing(ms) then Crashed
            else if RingWorks(|ms|, lines) then Holds(LastOf(CutAll(ms, cols), Max(lines, 0)))
            else if lines == 1 && |ms| == 2 then Adrift
            else Crashed
    decreases |ms|
  {
    hide CutAll, LastOf, Cut, NoneMissing;
    if ms == [] {
      Empty(lines, cols);
    } else {
      AfterIs(ms[..|ms| - 1], lines, cols);
      CutAllPush(ms, cols);
      LengthOf(ms[..|ms| - 1], Max(lines, 0), cols);
      if lines > 0 {
        LastOfPush(CutAll(ms[..|ms| - 1], cols), Cut(Words(ms[|ms| - 1]), cols), lines);
        if |ms| <= lines {
          Whole(CutAll(ms[..|ms| - 1], cols), lines);
        }
      }
    }
  }

  lemma Whole<T>(s: seq<T>, n: nat)
    requires |s| <= n
    ensures LastOf(s, n) == s
  {
  }

  lemma Empty(lines: int, cols: int)
    ensures LastOf(CutAll([], cols), Max(lines, 0)) == [] && NoneMissing([])
  {
  }

  lemma LengthOf(ms: seq<Message>, n: nat, cols: int)
    ensures |CutAll(ms, cols)| == |ms| && |LastOf(CutAll(ms, cols), n)| == Min(|ms|, n)
  {
  }

  /** A reader sees exactly the last messages that fit if and only if no message is missing and
      the ring buffer has two lines or has not overflowed. */
  lemma LogIsLastIff(ms: seq<Message>, lines: int, cols: int)
    ensures NoneMissing(ms) && RingWorks(|ms|, lines) <==>
            !After(ms, lines, cols).Crashed?
            && After(ms, lines, cols).Shown() == LastOf(CutAll(ms, cols), Max(lines, 0))
  {
    hide CutAll, LastOf, After, NoneMissing;
    AfterIs(ms, lines, cols);
    LengthOf(ms, Max(lines, 0), cols);
  }

  /** The messages with a newline after each. */
  function Joined(ms: seq<string>): string {
    if ms == [] then [] else Joined(ms[..|ms| - 1]) + ms[|ms| - 1] + "\n"
  }

  /** The lines of a text, cut after each newline; what follows the last one is lost. */
  function Lines(s: string, line: string): seq<string> {
    if s == [] then []
    else if s[0] == '\n' then [line] + Lines(s[1..], [])
    else Lines(s[1..], line + [s[0]])
  }

  lemma {:induction false} LinesOne(a: string, line: string, rest: string)
    requires '\n' !in a
    ensures Lines(a + "\n" + rest, line) == [line + a] + Lines(rest, [])
    decreases |a|
  {
    var s := a + "\n" + rest;
    if a == [] {
      assert s[1..] == rest && line + a == line;
    } else {
      assert s[0] == a[0] && s[1..] == a[1..] + "\n" + rest;
      LinesOne(a[1..], line + [a[0]], rest);
      assert line + [a[0]] + a[1..] == line + a;
    }
  }

  lemma {:induction false} JoinedFirst(ms: seq<string>)
    requires ms != []
    ensures Joined(ms) == ms[0] + "\n" + Joined(ms[1..])
    decreases |ms|
  {
    var n := |ms| - 1;
    if n > 0 {
      JoinedFirst(ms[..n]);
      assert ms[1..][..n - 1] == ms[..n][1..];
      assert ms[0] + "\n" + Joined(ms[..n][1..]) + ms[n] + "\n" == ms[0] + "\n" + (Joined(ms[..n][1..]) + ms[n] + "\n");
    } else {
      assert ms[..0] == [] && ms[1..] == [];
      assert Joined(ms[..0]) + ms[0] + "\n" == ms[0] + "\n" + Joined(ms[1..]);
    }
  }

  /** Cut at its newlines, the text gives the messages back, in order. */
  lemma {:induction false} LinesOfJoined(ms: seq<string>)
    requires forall i :: 0 <= i < |ms| ==> '\n' !in ms[i]
    ensures Lines(Joined(ms), []) == ms
    decreases |ms|
  {
    if ms != [] {
      JoinedFirst(ms);
      LinesOne(ms[0], [], Joined(ms[1..]));
      LinesOfJoined(ms[1..]);
      assert [] + ms[0] == ms[0] && [ms[0]] + ms[1..] == ms;
    }
  }

  lemma {:induction false} JoinedStep(ms: seq<string>, k: nat)
    requires k < |ms|
    ensures Joined(ms[..k + 1]) == Joined(ms[..k]) + ms[k] + "\n"
  {
    assert ms[..k + 1][..k] == ms[..k];
  }

  /** The log fields of a theme. */
  class MessageLog {
    const lines: int
    const cols: int
    var cnt: nat
    const msglog: List<string>
    ghost var fate: Fate

    ghost predicate Valid()
      reads this, msglog, msglog.nodes
    {
      match fate
      case Holds(s) => msglog.Valid() && msglog.contents == s
      case Adrift => msglog.Lost()
      case Crashed => true
    }

    constructor (lines: int, cols: int)
      ensures Valid() && fate == Holds([]) && cnt == 0 && this.lines == lines && this.cols == cols
      ensures fresh(msglog) && fresh(msglog.nodes)
    {
      var l := new List<string>();
      this.lines, this.cols, this.cnt, this.msglog := lines, cols, 0, l;
      fate := Holds([]);
    }

    /** cmd_log; the result tells whether a null pointer was followed. */
    method CmdLog(m: Message) returns (crashed: bool)
      requires Valid() && !fate.Crashed?
      modifies this, msglog, msglog.nodes
      ensures Valid() && crashed == fate.Crashed? && fresh(msglog.nodes - old(msglog.nodes))
      ensures cnt == old(cnt) + 1 && fate == Append(old(fate), cnt, lines, cols, m)
    {
      hide Cut;
      cnt := cnt + 1;
      fate := Append(fate, cnt, lines, cols, m);
      if m.None? {
        return true;
      }
      var line := Cut(m.value, cols);
      if cnt <= lines {
        msglog.Add(line);
      } else if msglog.head == null {
        return true;
      } else {
        msglog.RingAdd(line);
      }
      crashed := false;
    }

    /** Any number of log commands on a new log, until one crashes. */
    method LogAll(ms: seq<Message>) returns (crashed: bool)
      requires Valid() && cnt == 0 && fate == Holds([])
      modifies this, msglog, msglog.nodes
      ensures Valid() && crashed == fate.Crashed? && fate == After(ms, lines, cols)
      ensures NoneMissing(ms) && RingWorks(|ms|, lines) <==> !crashed && fate.Shown() == LastOf(CutAll(ms, cols), Max(lines, 0))
      ensures !crashed ==> cnt == |ms|
    {
      hide Append, CutAll, LastOf, Cut, NoneMissing;
      crashed := false;
      for k := 0 to |ms|
        invariant Valid() && crashed == fate.Crashed? && fate == After(ms[..k], lines, cols)
        invariant fresh(msglog.nodes - old(msglog.nodes))
        invariant !crashed ==> cnt == k
      {
        assert ms[..k + 1][..k] == ms[..k];
        if crashed {
          StaysCrashed(k + 1, lines, cols, ms[k]);
        } else {
          crashed := CmdLog(ms[k]);
        }
      }
      assert ms[..|ms|] == ms;
      LogIsLastIff(ms, lines, cols);
    }

    /** The log part of text_bnd: two walks, one for the length of the buffer with its terminator
        and one for the text. */
    method LogText() returns (len: nat, txt: string)
      requires Valid() && !fate.Crashed?
      ensures txt == Joined(fate.Shown()) && len == |txt| + 1
    {
      ghost var s := fate.Shown();
      len := 1;
      ghost var k := 0;
      var i := msglog.head;
      while i != null
        invariant k <= |s| && len == |Joined(s[..k])| + 1
        invariant if fate.Holds? then i == msglog.At(k) else i == null
        decreases |s| - k
      {
        msglog.NextIs(k);
        JoinedStep(s, k);
        len := len + |i.p| + 1;
        i := i.next;
        k := k + 1;
      }
      assert s[..|s|] == s;
      txt := [];
      k := 0;
      i := msglog.head;
      while i != null
        invariant k <= |s| && txt == Joined(s[..k])
        invariant if fate.Holds? then i == msglog.At(k) else i == null
        decreases |s| - k
      {
        msglog.NextIs(k);
        JoinedStep(s, k);
        txt := txt + i.p + "\n";
        i := i.next;
        k := k + 1;
      }
    }
  }

  lemma StaysCrashed(cnt: nat, lines: int, cols: int, m: Message)
    ensures Append(Crashed, cnt, lines, cols, m) == Crashed
  {
  }
}
