/**
 What a session does on the wire, as a function of which replies are withheld: one exchange
 after another, stages, the adaptive retry, and whole runs as lists of steps. No time and no
 bytes here; the driver is proved to produce exactly these traces.
 */
module Session {
  import opened Bytes
  import opened Bsl
  import opened Device

  datatype End = Done | TimedOut | NoPayload

  /** The commands the device executed, and how the host left off. */
  datatype Trace = Trace(end: End, cmds: seq<Cmd>)

  function Prepend(done: seq<Cmd>, t: Trace): Trace { Trace(t.end, done + t.cmds) }

  lemma PrependTwice(a: seq<Cmd>, b: seq<Cmd>, t: Trace)
    ensures Prepend(a, Prepend(b, t)) == Prepend(a + b, t)
    ensures Prepend([], t) == t
  {
    assert a + (b + t.cmds) == (a + b) + t.cmds;
  }

  /**
   `cmds` asked one by one after the `n`-th frame, stopping at the first withheld reply. The
   command whose reply is withheld has been executed.
   */
  function Ask(drops: set<nat>, n: nat, cmds: seq<Cmd>): Trace
    decreases |cmds|
  {
    if cmds == [] then Trace(Done, [])
    else if n + 1 in drops then Trace(TimedOut, [cmds[0]])
    else Prepend([cmds[0]], Ask(drops, n + 1, cmds[1..]))
  }

  ghost predicate Answered(drops: set<nat>, n: nat, m: nat)
  {
    forall j | n < j <= n + m :: j !in drops
  }

  lemma {:induction false} AskFacts(drops: set<nat>, n: nat, cmds: seq<Cmd>)
    ensures var t := Ask(drops, n, cmds);
            && t.cmds <= cmds
            && (t.end == Done <==> Answered(drops, n, |cmds|))
            && (t.end == Done ==> t.cmds == cmds)
            && (t.end == TimedOut ==>
                  |t.cmds| > 0 && n + |t.cmds| in drops && Answered(drops, n, |t.cmds| - 1))
            && t.end != NoPayload
    decreases |cmds|
  {
    if cmds == [] || n + 1 in drops {
    } else {
      AskFacts(drops, n + 1, cmds[1..]);
      assert Answered(drops, n, |cmds|) <==> Answered(drops, n + 1, |cmds| - 1);
    }
  }

  // ---------------------------------------------------------------- stages

  function Midst(pieces: seq<Data>): seq<Cmd>
  {
    if pieces == [] then [] else [Sent(MIDST_DATA, pieces[0])] + Midst(pieces[1..])
  }

  /** The commands of one staged image whose `START_DATA` payload is `start`. */
  function Stage(start: Data, data: Data, chunk: nat): seq<Cmd>
    requires chunk > 0
  {
    [Sent(START_DATA, start)] + Midst(Pieces(data, chunk)) + [Sent(END_DATA, [])]
  }

  /** What the 16-bit length field of each `MIDST_DATA` leaves of an image. */
  function Joined(pieces: seq<Data>): Data
  {
    if pieces == [] then [] else Sized(pieces[0]) + Joined(pieces[1..])
  }

  function Stored(data: Data, chunk: nat): Data
    requires chunk > 0
  {
    Joined(Pieces(data, chunk))
  }

  ghost predicate Fits(data: Data, chunk: nat)
  {
    chunk < 0x1_0000 || |data| < 0x1_0000
  }

  lemma SizedIntact(data: Data)
    ensures |Sized(data)| == |data| % 0x1_0000 <= |data|
    ensures Sized(data) == data <==> |data| < 0x1_0000
  {
  }

  /** A stage stores its image intact exactly when no piece overflows the length field. */
  lemma {:induction false} StoredIntact(data: Data, chunk: nat)
    requires chunk > 0
    ensures |Stored(data, chunk)| <= |data|
    ensures |Stored(data, chunk)| == |data| ==> Stored(data, chunk) == data
    ensures Stored(data, chunk) == data <==> Fits(data, chunk)
    decreases |data|
  {
    hide Sized;
    if |data| <= chunk {
      SizedIntact(data);
      if data != [] {
        assert Pieces(data, chunk) == [data];
        assert Joined([data]) == Sized(data) + Joined([data][1..]);
        assert Stored(data, chunk) == Sized(data);
      }
    } else {
      var first, rest := data[..chunk], data[chunk..];
      SizedIntact(first);
      StoredIntact(rest, chunk);
      assert Pieces(data, chunk)[1..] == Pieces(rest, chunk);
      var stored := Stored(data, chunk);
      assert stored == Sized(first) + Stored(rest, chunk);
      assert data == first + rest;
      if |stored| == |data| {
        assert Sized(first) == first;
      }
    }
  }

  lemma {:induction false} MidstEffect(st: Store, pieces: seq<Data>)
    requires st.cur.Some?
    ensures Replay(st, Midst(pieces))
         == st.(cur := Some(Write(st.cur.value.addr, st.cur.value.bytes + Joined(pieces))))
    decreases |pieces|
  {
    hide Sized;
    var w := st.cur.value;
    if pieces == [] {
      assert w.bytes + [] == w.bytes;
    } else {
      var c := Sent(MIDST_DATA, pieces[0]);
      var next := Apply(st, c);
      assert [] + [c] == [c];
      ReplayOne(st, [], c);
      ReplayAppend(st, [c], Midst(pieces[1..]));
      MidstEffect(next, pieces[1..]);
      assert (w.bytes + Sized(pieces[0])) + Joined(pieces[1..]) == w.bytes + Joined(pieces);
    }
  }

  lemma {:induction false} MidstPrefix(pieces: seq<Data>, k: nat)
    requires k <= |pieces|
    ensures |Midst(pieces)| == |pieces|
    ensures Midst(pieces)[..k] == Midst(pieces[..k])
    decreases |pieces|
  {
    if pieces == [] {
    } else {
      MidstPrefix(pieces[1..], if k == 0 then 0 else k - 1);
      if k > 0 {
        assert pieces[..k][1..] == pieces[1..][..k - 1];
      }
    }
  }

  ghost predicate StartFor(start: Data, addr: U32)
  {
    4 <= |start| < 0x1_0000 && GetBe32(start, 0) == addr
  }

  lemma OpenEffect(st: Store, start: Data, addr: U32, pieces: seq<Data>)
    requires StartFor(start, addr)
    ensures Replay(st, [Sent(START_DATA, start)] + Midst(pieces))
         == st.(cur := Some(Write(addr, Joined(pieces))))
  {
    var c := Sent(START_DATA, start);
    assert [] + [c] == [c];
    ReplayOne(st, [], c);
    ReplayAppend(st, [c], Midst(pieces));
    MidstEffect(Apply(st, c), pieces);
    assert [] + Joined(pieces) == Joined(pieces);
  }

  /** A whole stage replaces the region at its address. */
  lemma StageEffect(st: Store, start: Data, addr: U32, data: Data, chunk: nat)
    requires chunk > 0 && StartFor(start, addr)
    ensures Replay(st, Stage(start, data, chunk)) == Store(None, st.flash[addr := Stored(data, chunk)])
  {
    var pieces := Pieces(data, chunk);
    OpenEffect(st, start, addr, pieces);
    ReplayOne(st, [Sent(START_DATA, start)] + Midst(pieces), Sent(END_DATA, []));
  }

  ghost predicate AgreeAt(f: Flash, g: Flash, addr: U32)
  {
    (addr in f <==> addr in g) && (addr in f ==> f[addr] == g[addr])
  }

  /** Two flashes that agree outside the region at `addr`. */
  ghost predicate AgreeExcept(f: Flash, g: Flash, addr: U32)
  {
    forall a: U32 | a != addr :: (a in f <==> a in g) && (a in f ==> f[a] == g[a])
  }

  /** A stage cut short has touched no region but its own. */
  lemma StagePrefixEffect(st: Store, start: Data, addr: U32, data: Data, chunk: nat, cmds: seq<Cmd>)
    requires chunk > 0 && StartFor(start, addr)
    requires cmds <= Stage(start, data, chunk)
    ensures AgreeExcept(Replay(st, cmds).flash, st.flash, addr)
  {
    hide Sent, Apply;
    var k, pieces := |cmds|, Pieces(data, chunk);
    MidstPrefix(pieces, |pieces|);
    if k == 0 {
    } else if k == |Stage(start, data, chunk)| {
      assert cmds == Stage(start, data, chunk);
      StageEffect(st, start, addr, data, chunk);
    } else {
      MidstPrefix(pieces, k - 1);
      assert cmds == [Sent(START_DATA, start)] + Midst(pieces)[..k - 1];
      OpenEffect(st, start, addr, pieces[..k - 1]);
    }
  }

  // ---------------------------------------------------------------- adaptive retry

  const MIN_ADAPTIVE_CHUNK: nat := 512
  const RECONNECT: Cmd := Cmd(CONNECT, [])

  function Halve(chunk: nat): nat { Max(chunk / 2, MIN_ADAPTIVE_CHUNK) }

  /** On a timeout above the floor: reconnect and restart the stage at half the chunk. */
  function Adaptive(drops: set<nat>, n: nat, start: Data, data: Data, chunk: nat): Trace
    requires chunk > 0
    decreases chunk
  {
    var t := Ask(drops, n, Stage(start, data, chunk));
    if t.end == Done || chunk <= MIN_ADAPTIVE_CHUNK then t
    else
      var again := t.cmds + [RECONNECT];
      if n + |again| in drops then Trace(TimedOut, again)
      else Prepend(again, Adaptive(drops, n + |again|, start, data, Halve(chunk)))
  }

  /**
   Whatever its end, an adaptive stage touches no region but its own; if it ends well, that region
   holds what some chunk no larger than the first leaves of the image, however often it was retried.
   */
  lemma {:induction false} AdaptiveEffect(
      st: Store, drops: set<nat>, n: nat, start: Data, addr: U32, data: Data, chunk: nat)
    returns (last: nat)
    requires chunk > 0 && StartFor(start, addr)
    ensures 0 < last <= chunk
    ensures var t := Adaptive(drops, n, start, data, chunk);
            && AgreeExcept(Replay(st, t.cmds).flash, st.flash, addr)
            && (t.end == Done ==> Replay(st, t.cmds) == Store(None, st.flash[addr := Stored(data, last)]))
    decreases chunk
  {
    hide Stage, Ask, Stored, StartFor, Replay;
    var t := Ask(drops, n, Stage(start, data, chunk));
    AskFacts(drops, n, Stage(start, data, chunk));
    StagePrefixEffect(st, start, addr, data, chunk, t.cmds);
    last := chunk;
    if t.end == Done {
      StageEffect(st, start, addr, data, chunk);
    } else if chunk > MIN_ADAPTIVE_CHUNK {
      var again := t.cmds + [RECONNECT];
      ReplayOne(st, t.cmds, RECONNECT);
      var cut := Replay(st, again);
      if n + |again| !in drops {
        var rest := Adaptive(drops, n + |again|, start, data, Halve(chunk));
        ReplayAppend(st, again, rest.cmds);
        last := AdaptiveEffect(cut, drops, n + |again|, start, addr, data, Halve(chunk));
        assert cut.flash[addr := Stored(data, last)] == st.flash[addr := Stored(data, last)];
      }
    }
  }

  /** How many retries a starting chunk allows. */
  function Budget(chunk: nat): nat
    decreases chunk
  {
    if chunk <= MIN_ADAPTIVE_CHUNK then 0 else 1 + Budget(Halve(chunk))
  }

  function Attempts(drops: set<nat>, n: nat, start: Data, data: Data, chunk: nat): nat
    requires chunk > 0
    decreases chunk
  {
    var t := Ask(drops, n, Stage(start, data, chunk));
    var m := n + |t.cmds| + 1;
    if t.end == Done || chunk <= MIN_ADAPTIVE_CHUNK || m in drops then 1
    else 1 + Attempts(drops, m, start, data, Halve(chunk))
  }

  /** The budget is the number of halvings down to 512 bytes. */
  lemma {:induction false} BudgetBound(chunk: nat, k: nat)
    ensures Budget(chunk) <= k <==> chunk < 513 * Pow2(k)
    decreases k
  {
    if k == 0 || chunk <= MIN_ADAPTIVE_CHUNK {
    } else {
      BudgetBound(Halve(chunk), k - 1);
      assert 513 * Pow2(k) == 2 * (513 * Pow2(k - 1));
    }
  }

  /** How many of the `m` replies after the `n`-th frame are withheld. */
  function Lost(drops: set<nat>, n: nat, m: nat): nat
    decreases m
  {
    if m == 0 then 0 else Lost(drops, n, m - 1) + if n + m in drops then 1 else 0
  }

  lemma StageLost(drops: set<nat>, n: nat, start: Data, data: Data, chunk: nat)
    requires chunk > 0
    ensures var t := Ask(drops, n, Stage(start, data, chunk));
            && |t.cmds| > 0 && Lost(drops, n, |t.cmds|) == (if t.end == Done then 0 else 1)
            && (t.end == Done <==> n + |t.cmds| !in drops) && (t.end == Done || t.end == TimedOut)
  {
    AskFacts(drops, n, Stage(start, data, chunk));
    var t := Ask(drops, n, Stage(start, data, chunk));
    LostSplit(drops, n, if t.end == Done then |t.cmds| else |t.cmds| - 1, 0);
  }

  lemma {:induction false} LostSplit(drops: set<nat>, n: nat, a: nat, b: nat)
    ensures Lost(drops, n, a + b) == Lost(drops, n, a) + Lost(drops, n + a, b)
    ensures Lost(drops, n, a + 1) == Lost(drops, n, a) + if n + a + 1 in drops then 1 else 0
    ensures Answered(drops, n, a) ==> Lost(drops, n, a) == 0
    decreases a + b
  {
    if b > 0 {
      LostSplit(drops, n, a, b - 1);
    } else if a > 0 {
      LostSplit(drops, n, a - 1, 0);
    } else {
    }
  }

  /** The reply to the last command, a reconnect, was withheld. */
  ghost predicate ReconnectLost(drops: set<nat>, n: nat, cmds: seq<Cmd>)
  {
    cmds != [] && cmds[|cmds| - 1] == RECONNECT && n + |cmds| in drops
  }

  /**
   The account of a stage: at most one attempt more than the budget; a success has lost one reply
   per failed attempt and ends on an answered frame; a failure ends on a withheld one, either a
   reconnect or the one too many.
   */
  lemma {:induction false} RetryAccount(drops: set<nat>, n: nat, start: Data, data: Data, chunk: nat)
    requires chunk > 0
    ensures var t := Adaptive(drops, n, start, data, chunk);
            var tries, lost, hit := Attempts(drops, n, start, data, chunk), Lost(drops, n, |t.cmds|), n + |t.cmds|;
            && 1 <= tries <= Budget(chunk) + 1 && |t.cmds| > 0
            && (t.end == Done ==> tries == lost + 1 && hit !in drops)
            && (t.end != Done ==> t.end == TimedOut && hit in drops)
            && (t.end != Done ==> ReconnectLost(drops, n, t.cmds) || lost == Budget(chunk) + 1)
    decreases chunk
  {
    hide Stage, Ask, Lost;
    var t := Ask(drops, n, Stage(start, data, chunk));
    var k, half := |t.cmds|, Halve(chunk);
    StageLost(drops, n, start, data, chunk);
    LostSplit(drops, n, k, 0);
    if t.end == Done || chunk <= MIN_ADAPTIVE_CHUNK || n + k + 1 in drops {
    } else {
      var u := Adaptive(drops, n + k + 1, start, data, half);
      RetryAccount(drops, n + k + 1, start, data, half);
      LostSplit(drops, n, k + 1, |u.cmds|);
      assert Adaptive(drops, n, start, data, chunk).cmds == t.cmds + [RECONNECT] + u.cmds;
    }
  }

  /** A stage succeeds exactly when it loses no reconnect and no more replies than its budget. */
  lemma SucceedsExactlyWhen(drops: set<nat>, n: nat, start: Data, data: Data, chunk: nat)
    requires chunk > 0
    ensures var t := Adaptive(drops, n, start, data, chunk);
            t.end == Done <==> Lost(drops, n, |t.cmds|) <= Budget(chunk) && !ReconnectLost(drops, n, t.cmds)
  {
    hide Adaptive, Lost, Budget, Attempts;
    RetryAccount(drops, n, start, data, chunk);
  }

  /** Whatever is withheld, losing at most `k` replies and no reconnect does not stop the stage. */
  ghost predicate Survives(n: nat, start: Data, data: Data, chunk: nat, k: nat)
    requires chunk > 0
  {
    forall drops: set<nat> ::
      var t := Adaptive(drops, n, start, data, chunk);
      Lost(drops, n, |t.cmds|) <= k && !ReconnectLost(drops, n, t.cmds) ==> t.end == Done
  }

  ghost predicate OddlyAfter(n: nat, m: nat) { m > n && (m - n) % 2 == 1 }

  /** After the `n`-th frame exactly every other reply is withheld, `b + 1` of them. */
  ghost predicate Alternating(drops: set<nat>, n: nat, b: nat)
  {
    forall m | n < m <= n + 1 + 2 * b :: m in drops <==> OddlyAfter(n, m)
  }

  lemma TwoLater(drops: set<nat>, n: nat, b: nat)
    requires Alternating(drops, n, b)
    ensures n + 1 in drops
    ensures b > 0 ==> n + 2 !in drops && Alternating(drops, n + 2, b - 1)
  {
    assert OddlyAfter(n, n + 1) && !OddlyAfter(n, n + 2);
    assert forall m | m > n + 2 :: OddlyAfter(n, m) <==> OddlyAfter(n + 2, m);
  }

  lemma StartLost(drops: set<nat>, n: nat, start: Data, data: Data, chunk: nat)
    requires chunk > 0 && n + 1 in drops
    ensures Ask(drops, n, Stage(start, data, chunk)) == Trace(TimedOut, [Sent(START_DATA, start)])
  {
    hide Midst, Pieces, Sized;
    assert Stage(start, data, chunk)[0] == Sent(START_DATA, start);
  }

  /** The worst case: every attempt loses the reply to its first command. */
  lemma {:induction false} EveryStartLost(drops: set<nat>, n: nat, start: Data, data: Data, chunk: nat)
    requires chunk > 0 && Alternating(drops, n, Budget(chunk))
    ensures var t := Adaptive(drops, n, start, data, chunk);
            && t.end == TimedOut && |t.cmds| == 2 * Budget(chunk) + 1
            && t.cmds[|t.cmds| - 1] == Sent(START_DATA, start) && !ReconnectLost(drops, n, t.cmds)
    decreases chunk
  {
    hide Sized, Stage, Ask, Alternating;
    TwoLater(drops, n, Budget(chunk));
    StartLost(drops, n, start, data, chunk);
    if chunk <= MIN_ADAPTIVE_CHUNK {
    } else {
      EveryStartLost(drops, n + 2, start, data, Halve(chunk));
    }
  }

  /**
   How many lost replies a starting chunk survives: `k > 0` of them exactly from 513 * 2^(k-1)
   bytes on.
   */
  lemma SurvivesExactlyFrom(n: nat, start: Data, data: Data, chunk: nat, k: nat)
    requires chunk > 0
    ensures Survives(n, start, data, chunk, k) <==> k == 0 || chunk >= 513 * Pow2(k - 1)
  {
    hide Adaptive, Lost, Budget, ReconnectLost, Pow2;
    var b := Budget(chunk);
    if k > 0 {
      BudgetBound(chunk, k - 1);
    }
    if k <= b {
      forall drops: set<nat>
        ensures var t := Adaptive(drops, n, start, data, chunk);
                Lost(drops, n, |t.cmds|) <= k && !ReconnectLost(drops, n, t.cmds) ==> t.end == Done
      {
        SucceedsExactlyWhen(drops, n, start, data, chunk);
      }
    } else {
      var drops := set m | n < m <= n + 1 + 2 * b && OddlyAfter(n, m);
      EveryStartLost(drops, n, start, data, chunk);
      RetryAccount(drops, n, start, data, chunk);
      assert !Survives(n, start, data, chunk, k);
    }
  }

  /** In particular at 512 bytes and below, where one lost acknowledgement is final. */
  lemma FloorHasNoRetry(n: nat, start: Data, data: Data, chunk: nat)
    requires 0 < chunk <= MIN_ADAPTIVE_CHUNK
    ensures Adaptive({n + 1}, n, start, data, chunk) == Trace(TimedOut, [Sent(START_DATA, start)])
    ensures !Survives(n, start, data, chunk, 1)
  {
    assert Pow2(0) == 1;
    SurvivesExactlyFrom(n, start, data, chunk, 1);
    hide Survives;
    EveryStartLost({n + 1}, n, start, data, chunk);
  }

  ghost function LostAfter(drops: set<nat>, n: nat): set<nat> { set j | j in drops && j > n }

  /**
   Progress, from a condition on the withheld replies alone: if no two consecutive ones are lost
   and no more than the budget remain, the stage succeeds.
   */
  lemma {:induction false} AdaptiveSucceeds(drops: set<nat>, n: nat, start: Data, data: Data, chunk: nat)
    requires chunk > 0
    requires forall j | j in drops && j > n :: j + 1 !in drops
    requires |LostAfter(drops, n)| <= Budget(chunk)
    ensures Adaptive(drops, n, start, data, chunk).end == Done
    decreases chunk
  {
    hide Stage;
    var all := Stage(start, data, chunk);
    var t := Ask(drops, n, all);
    AskFacts(drops, n, all);
    if t.end == Done {
    } else {
      var hit := n + |t.cmds|;
      assert hit in LostAfter(drops, n);
      Included(LostAfter(drops, hit + 1), LostAfter(drops, n) - {hit});
      AdaptiveSucceeds(drops, hit + 1, start, data, Halve(chunk));
    }
  }

  lemma {:induction false} Included(t: set<nat>, s: set<nat>)
    requires t <= s
    ensures |t| <= |s|
    decreases t
  {
    if t == {} {
    } else {
      var x :| x in t;
      Included(t - {x}, s - {x});
    }
  }

  // ---------------------------------------------------------------- runs as lists of steps

  /**
   `Exchange`: commands that must each be answered. `Image`: a stage with adaptive retry.
   `Missing`: a payload that is not in the file. `Fire`: a command sent without waiting.
   */
  datatype Step = Exchange(cmds: seq<Cmd>) | Image(start: Data, data: Data) | Missing | Fire(cmd: Cmd)

  function RunStep(drops: set<nat>, n: nat, chunk: nat, step: Step): Trace
    requires chunk > 0
  {
    match step
    case Exchange(cmds) => Ask(drops, n, cmds)
    case Image(start, data) => Adaptive(drops, n, start, data, chunk)
    case Missing => Trace(NoPayload, [])
    case Fire(cmd) => Trace(Done, [cmd])
  }

  function Run(drops: set<nat>, n: nat, chunk: nat, steps: seq<Step>): Trace
    requires chunk > 0
    decreases |steps|
  {
    if steps == [] then Trace(Done, [])
    else
      var t := RunStep(drops, n, chunk, steps[0]);
      if t.end != Done then t
      else Prepend(t.cmds, Run(drops, n + |t.cmds|, chunk, steps[1..]))
  }

  /** Steps compose: the second list runs after the first has ended well. */
  lemma {:induction false} RunAppend(drops: set<nat>, n: nat, chunk: nat, a: seq<Step>, b: seq<Step>)
    requires chunk > 0
    ensures var t := Run(drops, n, chunk, a);
            Run(drops, n, chunk, a + b)
            == if t.end == Done then Prepend(t.cmds, Run(drops, n + |t.cmds|, chunk, b)) else t
    decreases |a|
  {
    hide RunStep;
    if a == [] {
      assert a + b == b;
      PrependTwice([], [], Run(drops, n, chunk, b));
    } else {
      assert (a + b)[1..] == a[1..] + b;
      var t := RunStep(drops, n, chunk, a[0]);
      if t.end == Done {
        var m := n + |t.cmds|;
        var u := Run(drops, m, chunk, a[1..]);
        RunAppend(drops, m, chunk, a[1..], b);
        PrependTwice(t.cmds, u.cmds, Run(drops, m + |u.cmds|, chunk, b));
      }
    }
  }

  /**
   Nothing a run waits for stops it: every exchange is answered, no image loses a reconnect or
   more replies than its budget, and no payload is missing.
   */
  ghost predicate Endures(drops: set<nat>, n: nat, chunk: nat, steps: seq<Step>)
    requires chunk > 0
    decreases |steps|
  {
    steps != [] ==>
      var cmds := RunStep(drops, n, chunk, steps[0]).cmds;
      && (match steps[0]
          case Exchange(all) => Answered(drops, n, |all|)
          case Image(_, _) => Lost(drops, n, |cmds|) <= Budget(chunk) && !ReconnectLost(drops, n, cmds)
          case Missing => false
          case Fire(_) => true)
      && Endures(drops, n + |cmds|, chunk, steps[1..])
  }

  /** Exactly when a run ends well; otherwise it stops on a withheld reply or a missing payload. */
  lemma {:induction false} RunEndsWellWhen(drops: set<nat>, n: nat, chunk: nat, steps: seq<Step>)
    requires chunk > 0
    ensures var t := Run(drops, n, chunk, steps);
            && (t.end == Done <==> Endures(drops, n, chunk, steps))
            && (t.end == TimedOut ==> |t.cmds| > 0 && n + |t.cmds| in drops)
            && (t.end == NoPayload ==> Missing in steps)
    decreases |steps|
  {
    hide Ask, Adaptive, Lost, Budget, Attempts, ReconnectLost;
    if steps == [] {
    } else {
      match steps[0] {
        case Exchange(cmds) => AskFacts(drops, n, cmds);
        case Image(start, data) =>
          SucceedsExactlyWhen(drops, n, start, data, chunk);
          RetryAccount(drops, n, start, data, chunk);
        case _ =>
      }
      RunEndsWellWhen(drops, n + |RunStep(drops, n, chunk, steps[0]).cmds|, chunk, steps[1..]);
    }
  }

  /** With every reply answered from frame `n` on and no payload missing, a run ends well. */
  lemma {:induction false} RunWithoutFaults(drops: set<nat>, n: nat, chunk: nat, steps: seq<Step>)
    requires chunk > 0 && Missing !in steps
    requires forall j | j in drops :: j <= n
    ensures Run(drops, n, chunk, steps).end == Done
    decreases |steps|
  {
    if steps == [] {
    } else {
      var step := steps[0];
      if step.Exchange? {
        AskFacts(drops, n, step.cmds);
      } else if step.Image? {
        AskFacts(drops, n, Stage(step.start, step.data, chunk));
      }
      var t := RunStep(drops, n, chunk, step);
      RunWithoutFaults(drops, n + |t.cmds|, chunk, steps[1..]);
    }
  }

  // ---------------------------------------------------------------- command order

  ghost predicate Only(cmds: seq<Cmd>, types: set<U16>)
  {
    forall c | c in cmds :: c.ty in types
  }

  lemma {:induction false} MidstOnly(pieces: seq<Data>)
    ensures Only(Midst(pieces), {MIDST_DATA})
    decreases |pieces|
  {
    if pieces == [] {
    } else {
      MidstOnly(pieces[1..]);
    }
  }

  const STAGE_TYPES: set<U16> := {CONNECT, START_DATA, MIDST_DATA, END_DATA}

  lemma StageOnly(start: Data, data: Data, chunk: nat)
    requires chunk > 0
    ensures Only(Stage(start, data, chunk), STAGE_TYPES)
  {
    MidstOnly(Pieces(data, chunk));
  }

  lemma {:induction false} AdaptiveOnly(drops: set<nat>, n: nat, start: Data, data: Data, chunk: nat)
    requires chunk > 0
    ensures Only(Adaptive(drops, n, start, data, chunk).cmds, STAGE_TYPES)
    decreases chunk
  {
    hide Stage, Ask;
    var all := Stage(start, data, chunk);
    StageOnly(start, data, chunk);
    AskFacts(drops, n, all);
    var t := Ask(drops, n, all);
    assert forall c | c in t.cmds :: c in all;
    var again := t.cmds + [RECONNECT];
    if t.end == Done || chunk <= MIN_ADAPTIVE_CHUNK || n + |again| in drops {
    } else {
      AdaptiveOnly(drops, n + |again|, start, data, Halve(chunk));
    }
  }

  // ---------------------------------------------------------------- what a stage announces

  /** A `START_DATA` for `len` bytes at `addr`. */
  ghost predicate Announces(c: Cmd, addr: U32, len: nat)
  {
    c.ty == START_DATA && |c.data| == 8 && GetBe32(c.data, 0) == addr && GetBe32(c.data, 4) == Wrap32(len)
  }

  /** Every attempt, the first and each one behind a reconnect, opens with `c`, and nothing else is a start. */
  ghost predicate AttemptsOpen(cmds: seq<Cmd>, c: Cmd)
  {
    && cmds != [] && cmds[0] == c
    && forall i | 0 < i < |cmds| ::
         && (cmds[i].ty == START_DATA <==> cmds[i - 1].ty == CONNECT)
         && (cmds[i].ty == START_DATA ==> cmds[i] == c)
  }

  /** An attempt, whole or cut short: a start, then nothing but the image. */
  ghost predicate OneAttempt(cmds: seq<Cmd>, c: Cmd)
  {
    cmds != [] && cmds[0] == c && forall i | 0 < i < |cmds| :: cmds[i].ty in {MIDST_DATA, END_DATA}
  }

  lemma StageIsAttempt(start: Data, data: Data, chunk: nat)
    requires chunk > 0
    ensures OneAttempt(Stage(start, data, chunk), Sent(START_DATA, start))
  {
    hide Sized;
    MidstOnly(Pieces(data, chunk));
    var midst := Midst(Pieces(data, chunk));
    assert forall i | 0 <= i < |midst| :: midst[i] in midst;
  }

  lemma OpensAgain(first: seq<Cmd>, later: seq<Cmd>, c: Cmd)
    requires OneAttempt(first, c) && c.ty == START_DATA
    ensures AttemptsOpen(first, c) && AttemptsOpen(first + [RECONNECT], c)
    ensures AttemptsOpen(later, c) ==> AttemptsOpen((first + [RECONNECT]) + later, c)
  {
  }

  lemma {:induction false} AdaptiveOpens(drops: set<nat>, n: nat, start: Data, data: Data, chunk: nat)
    requires chunk > 0
    ensures AttemptsOpen(Adaptive(drops, n, start, data, chunk).cmds, Sent(START_DATA, start))
    decreases chunk
  {
    hide Stage, Ask, AttemptsOpen, Sized;
    var t := Ask(drops, n, Stage(start, data, chunk));
    StageIsAttempt(start, data, chunk);
    AskFacts(drops, n, Stage(start, data, chunk));
    var again := t.cmds + [RECONNECT];
    var c := Sent(START_DATA, start);
    OpensAgain(t.cmds, [], c);
    if t.end == Done || chunk <= MIN_ADAPTIVE_CHUNK || n + |again| in drops {
    } else {
      AdaptiveOpens(drops, n + |again|, start, data, Halve(chunk));
      OpensAgain(t.cmds, Adaptive(drops, n + |again|, start, data, Halve(chunk)).cmds, c);
    }
  }

  ghost predicate StepOnly(step: Step, types: set<U16>)
  {
    match step
    case Exchange(cmds) => Only(cmds, types)
    case Image(_, _) => STAGE_TYPES <= types
    case Missing => true
    case Fire(cmd) => cmd.ty in types
  }

  lemma {:induction false} RunOnly(drops: set<nat>, n: nat, chunk: nat, steps: seq<Step>, types: set<U16>)
    requires chunk > 0 && forall step | step in steps :: StepOnly(step, types)
    ensures Only(Run(drops, n, chunk, steps).cmds, types)
    decreases |steps|
  {
    hide Ask, Adaptive;
    if steps == [] {
    } else {
      var t := RunStep(drops, n, chunk, steps[0]);
      assert StepOnly(steps[0], types);
      match steps[0] {
        case Exchange(cmds) =>
          AskFacts(drops, n, cmds);
          assert forall c | c in t.cmds :: c in cmds;
        case Image(start, data) => AdaptiveOnly(drops, n, start, data, chunk);
        case _ =>
      }
      RunOnly(drops, n + |t.cmds|, chunk, steps[1..], types);
    }
  }

  /** Steps that are plain exchanges and sends leave exactly their own commands. */
  function Plain(steps: seq<Step>): seq<Cmd>
    decreases |steps|
  {
    if steps == [] then []
    else
      (match steps[0]
       case Exchange(cmds) => cmds
       case Fire(cmd) => [cmd]
       case _ => [])
      + Plain(steps[1..])
  }

  lemma {:induction false} RunPlain(drops: set<nat>, n: nat, chunk: nat, steps: seq<Step>)
    requires chunk > 0 && forall step | step in steps :: !step.Image?
    requires Run(drops, n, chunk, steps).end == Done
    ensures Run(drops, n, chunk, steps).cmds == Plain(steps)
    decreases |steps|
  {
    hide Adaptive, Ask;
    if steps == [] {
    } else {
      var step := steps[0];
      if step.Exchange? {
        AskFacts(drops, n, step.cmds);
      }
      var t := RunStep(drops, n, chunk, step);
      RunPlain(drops, n + |t.cmds|, chunk, steps[1..]);
    }
  }

  // ---------------------------------------------------------------- reads

  /** Every region that holds `a` has byte `b` there, and there is one. */
  ghost predicate ByteAt(flash: Flash, a: U32, b: Byte)
  {
    && (exists base: U32 :: Holds(flash, base, a))
    && (forall base: U32 :: Holds(flash, base, a) ==> flash[base][a - base] == b)
  }

  /** Reading from `addr` shows exactly the bytes `want`, whatever regions they lie in. */
  ghost predicate Shows(flash: Flash, addr: U32, want: Data)
  {
    && addr + |want| <= 0x1_0000_0000
    && forall i | 0 <= i < |want| :: ByteAt(flash, addr + i, want[i])
  }

  /** No region that takes part ends before the wanted bytes do. */
  ghost predicate Solid(flash: Flash, addr: U32, len: nat)
  {
    forall base: U32, a: U32 | addr <= a < addr + len && Holds(flash, base, a) ::
      base + |flash[base]| >= addr + len
  }

  ghost predicate Served(flash: Flash, a: U32)
  {
    exists base: U32 :: Holds(flash, base, a)
  }

  ghost predicate AllServed(flash: Flash, start: nat, len: nat)
  {
    forall a: U32 | start <= a < start + len :: Served(flash, a)
  }

  /** Of the `total` addresses from `addr` on, the device serves the first `len` and no more. */
  ghost predicate EndsAt(flash: Flash, addr: U32, len: nat, total: nat)
  {
    && addr + total <= 0x1_0000_0000
    && forall a: U32 | addr <= a < addr + total :: Served(flash, a) <==> a < addr + len
  }

  /** A device that holds `want` at `addr` serves it back whole. */
  ghost predicate Visible(flash: Flash, addr: U32, want: Data)
  {
    Shows(flash, addr, want) && Solid(flash, addr, |want|)
  }

  /** No other region reaches into the `len` bytes from `addr` on. */
  ghost predicate Clear(flash: Flash, addr: U32, len: nat)
  {
    && addr + len <= 0x1_0000_0000
    && forall b: U32 | b in flash && b != addr :: b + |flash[b]| <= addr || addr + len <= b
  }

  lemma OnlyHolder(flash: Flash, addr: U32, total: nat)
    requires addr in flash && Clear(flash, addr, total)
    ensures forall base: U32, a: U32 | addr <= a < addr + total ::
              Holds(flash, base, a) <==> base == addr && a < addr + |flash[addr]|
  {
  }

  lemma ClearEnds(flash: Flash, addr: U32, total: nat)
    requires addr in flash && Clear(flash, addr, total)
    ensures |flash[addr]| < total ==> EndsAt(flash, addr, |flash[addr]|, total)
  {
    hide Holds, Clear;
    OnlyHolder(flash, addr, total);
    assert addr + total <= 0x1_0000_0000 by { ClearFits(flash, addr, total); }
    forall a: U32 | addr <= a < addr + total
      ensures Served(flash, a) <==> a < addr + |flash[addr]|
    {
      assert Holds(flash, addr, a) <==> a < addr + |flash[addr]|;
    }
  }

  lemma ClearFits(flash: Flash, addr: U32, total: nat)
    requires Clear(flash, addr, total)
    ensures addr + total <= 0x1_0000_0000
  {
  }

  lemma ClearSeen(flash: Flash, addr: U32, want: Data, total: nat)
    requires addr in flash && Clear(flash, addr, total) && |want| <= total && Visible(flash, addr, want)
    ensures want <= flash[addr]
  {
    hide Holds, Clear, Solid;
    OnlyHolder(flash, addr, total);
    if want != [] {
      assert ByteAt(flash, addr + (|want| - 1), want[|want| - 1]);
      assert Holds(flash, addr, addr + (|want| - 1));
    }
    forall i | 0 <= i < |want|
      ensures i < |flash[addr]| && want[i] == flash[addr][i]
    {
      assert ByteAt(flash, addr + i, want[i]);
      assert Holds(flash, addr, addr + i);
    }
  }

  lemma ClearHeld(flash: Flash, addr: U32, want: Data, total: nat)
    requires addr in flash && Clear(flash, addr, total) && |want| <= total && want <= flash[addr]
    ensures Visible(flash, addr, want)
  {
    hide Holds, Clear;
    OnlyHolder(flash, addr, total);
    ClearFits(flash, addr, total);
    forall i | 0 <= i < |want|
      ensures ByteAt(flash, addr + i, want[i])
    {
      assert Holds(flash, addr, addr + i);
    }
  }

  /** Where only one region lies, exactly its bytes are read back, and none behind its end. */
  lemma ClearRegion(flash: Flash, addr: U32, want: Data, total: nat)
    requires addr in flash && Clear(flash, addr, total) && |want| <= total
    ensures Visible(flash, addr, want) <==> want <= flash[addr]
    ensures |flash[addr]| < total ==> EndsAt(flash, addr, |flash[addr]|, total)
  {
    hide Visible, Clear, EndsAt;
    ClearEnds(flash, addr, total);
    if Visible(flash, addr, want) {
      ClearSeen(flash, addr, want, total);
    }
    if want <= flash[addr] {
      ClearHeld(flash, addr, want, total);
    }
  }

  lemma WithinEnd(flash: Flash, addr: U32, len: nat, total: nat, off: nat, got: nat)
    requires EndsAt(flash, addr, len, total)
    requires addr + total <= 0x1_0000_0000 ==> 0 < got <= total - off && AllServed(flash, addr + off, got)
    ensures 0 < got <= len - off
  {
    var last: U32 := addr + off + got - 1;
    assert Served(flash, last);
  }

  function ReadCmd(addr: U32, n: U32): Cmd { Sent(READ_FLASH, Be32(addr) + Be32(n) + Be32(0)) }

  ghost predicate ReadsAt(c: Cmd, addr: U32, n: U32)
  {
    IsReadCmd(c) && GetBe32(c.data, 0) == addr && GetBe32(c.data, 4) == n && GetBe32(c.data, 8) == 0
  }

  lemma ReadCmdFields(addr: U32, n: U32)
    ensures ReadsAt(ReadCmd(addr, n), addr, n)
  {
    var p := Be32(addr) + Be32(n) + Be32(0);
    assert p[0..4] == Be32(addr) && p[4..8] == Be32(n) && p[8..12] == Be32(0);
    Words32(p, 0, addr);
    Words32(p, 4, n);
    Words32(p, 8, 0);
  }

  /** The requests for the bytes `off..total` past `addr`, at most `chunk` each. */
  function ReadCmds(addr: U32, off: nat, total: nat, chunk: nat): seq<Cmd>
    requires chunk > 0
    decreases total - off
  {
    if off >= total then []
    else
      var n := Min(total - off, chunk);
      [ReadCmd(Wrap32(addr + off), Wrap32(n))] + ReadCmds(addr, off + n, total, chunk)
  }

  /** A read of a served address, or one answered with data, comes from a region that holds it. */
  lemma AnsweringRegion(flash: Flash, corrupt: bool, c: Cmd, addr: U32, n: U32, reply: Option<Parsed>)
    returns (base: U32)
    requires ReadsAt(c, addr, n) && IsReply(flash, corrupt, false, c, reply)
    requires Served(flash, addr) || (reply.Some? && reply.value.cmd == REP_READ_FLASH)
    ensures Holds(flash, base, addr)
    ensures reply == Some(Parsed(REP_READ_FLASH, Slice(flash[base], addr - base, n, corrupt)))
  {
    hide GetBe32, Message, Slice;
    base :| Holds(flash, base, addr)
         && reply == Some(Parsed(REP_READ_FLASH, ServedBy(flash[base], base, c, corrupt)));
  }

  /** The bytes of an answered read come from served addresses, and there is at least one. */
  lemma ReadIsServed(flash: Flash, corrupt: bool, c: Cmd, addr: U32, n: U32, reply: Option<Parsed>)
    requires ReadsAt(c, addr, n) && 0 < n < 0x1_0000 && addr + n <= 0x1_0000_0000
    requires IsReply(flash, corrupt, false, c, reply)
    requires reply.Some? && reply.value.cmd == REP_READ_FLASH
    ensures var got := Sized(reply.value.data); 0 < |got| <= n && AllServed(flash, addr, |got|)
  {
    hide IsReply, ReadsAt, Sized;
    var base := AnsweringRegion(flash, corrupt, c, addr, n, reply);
    var got := reply.value.data;
    forall a: U32 | addr <= a < addr + |got|
      ensures Served(flash, a)
    {
      assert Holds(flash, base, a);
    }
  }

  /** An answered read inside the shown bytes returns a non-empty prefix of what is wanted. */
  lemma ReadAnswer(flash: Flash, corrupt: bool, c: Cmd, addr: U32, want: Data, off: nat, n: nat, reply: Option<Parsed>)
    requires Shows(flash, addr, want) && off < |want| && 0 < n <= |want| - off && n < 0x1_0000
    requires ReadsAt(c, addr + off, n)
    requires IsReply(flash, corrupt, false, c, reply)
    ensures reply.Some? && reply.value.cmd == REP_READ_FLASH && Sized(reply.value.data) == reply.value.data
    ensures var got := reply.value.data;
            && 0 < |got| <= n
            && (Solid(flash, addr, |want|) ==> |got| == n)
            && (!corrupt ==> got == want[off..off + |got|])
            && (corrupt ==> got[0] == 0xFF - want[off])
  {
    hide IsReply, ReadsAt, Sized;
    assert ByteAt(flash, addr + off, want[off]);
    var base := AnsweringRegion(flash, corrupt, c, addr + off, n, reply);
    var slice := Slice(flash[base], addr + off - base, n, false);
    forall k | 0 <= k < |slice|
      ensures slice[k] == want[off + k]
    {
      assert ByteAt(flash, addr + (off + k), want[off + k]);
      assert Holds(flash, base, addr + (off + k));
    }
  }
}
