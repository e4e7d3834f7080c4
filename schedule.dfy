/** The launches a driver issues, as an abstract trace.

    A standard build launches one kernel on its single queue and waits on
    that queue.  A channel build launches the read kernel on the read queue
    and the write kernel on the write queue, and waits on the write queue
    only (the write kernel cannot finish before the read kernel has sent
    it everything).  A benchmark session is one warm-up pass followed, for
    each variant in turn, by `iter` timed passes. */
module Schedule {
  import opened Kernels
  import opened CInt

  datatype Queue = MainQueue | ReadQueue | WriteQueue

  datatype Event = Launch(v: Variant, side: Side, q: Queue) | Finish(q: Queue)

  /** One launch of a variant and the wait for it. */
  function Pass(t: Topology, v: Variant): seq<Event>
  {
    match t
    case Standard => [Launch(v, Whole, MainQueue), Finish(MainQueue)]
    case Channelized => [Launch(v, ReadSide, ReadQueue), Launch(v, WriteSide, WriteQueue), Finish(WriteQueue)]
  }

  /** Kernels launched per pass. */
  function KernelsPerPass(t: Topology): nat
  {
    if t == Standard then 1 else 2
  }

  function Repeat(s: seq<Event>, k: int): seq<Event>
    decreases k
  {
    if k <= 0 then [] else Repeat(s, k - 1) + s
  }

  /** Timed passes of each variant, in order. */
  function Timed(t: Topology, vs: seq<Variant>, iter: int): seq<Event>
  {
    if vs == [] then [] else Repeat(Pass(t, vs[0]), iter) + Timed(t, vs[1..], iter)
  }

  /** A whole benchmark session. */
  function Session(t: Topology, warm: Variant, vs: seq<Variant>, iter: int): seq<Event>
  {
    Pass(t, warm) + Timed(t, vs, iter)
  }

  function Launches(s: seq<Event>): nat
  {
    if s == [] then 0 else (if s[0].Launch? then 1 else 0) + Launches(s[1..])
  }

  /** The timing loop of one variant: `for (i = 0; i < iter; i++)`, one
      pass per turn. */
  method TimedRuns(t: Topology, v: Variant, iter: int) returns (trace: seq<Event>)
    ensures trace == Repeat(Pass(t, v), iter)
  {
    trace := [];
    var i := 0;
    while i < iter
      invariant iter <= 0 ==> i == 0
      invariant iter > 0 ==> 0 <= i <= iter
      invariant trace == Repeat(Pass(t, v), i)
    {
      trace := trace + Pass(t, v);
      i := i + 1;
    }
  }

  // ---------------------------------------------------------------------
  // Properties.

  /** Within a pass the read kernel is launched before the write kernel,
      and the pass ends by waiting on the queue of its last launch. */
  lemma PassOrder(t: Topology, v: Variant)
    ensures |Pass(t, v)| == KernelsPerPass(t) + 1
    ensures Pass(t, v)[|Pass(t, v)| - 1] == Finish(Pass(t, v)[|Pass(t, v)| - 2].q)
    ensures t == Channelized ==>
              Pass(t, v)[0] == Launch(v, ReadSide, ReadQueue) && Pass(t, v)[1] == Launch(v, WriteSide, WriteQueue)
    ensures t == Standard ==> Pass(t, v)[0] == Launch(v, Whole, MainQueue)
  {
  }

  lemma {:induction false} LaunchesAppend(s: seq<Event>, u: seq<Event>)
    ensures Launches(s + u) == Launches(s) + Launches(u)
    decreases |s|
  {
    if s == [] {
      assert s + u == u;
    } else {
      assert (s + u)[0] == s[0] && (s + u)[1..] == s[1..] + u;
      LaunchesAppend(s[1..], u);
    }
  }

  lemma PassLaunches(t: Topology, v: Variant)
    ensures Launches(Pass(t, v)) == KernelsPerPass(t)
  {
    var p := Pass(t, v);
    if t == Standard {
      assert p[1..][1..] == [];
      assert Launches(p[1..]) == 0;
    } else {
      assert p[1..][1..][1..] == [];
      assert Launches(p[1..][1..]) == 0;
    }
  }

  /** k timed passes launch k times as many kernels as one pass. */
  lemma {:induction false} RepeatLaunches(t: Topology, v: Variant, k: int)
    requires k >= 0
    ensures Launches(Repeat(Pass(t, v), k)) == k * KernelsPerPass(t)
    decreases k
  {
    if k > 0 {
      RepeatLaunches(t, v, k - 1);
      LaunchesAppend(Repeat(Pass(t, v), k - 1), Pass(t, v));
      PassLaunches(t, v);
    }
  }

  /** A session launches one warm-up pass plus iter passes of every
      variant; a non-positive iter times nothing. */
  lemma {:induction false} SessionLaunches(t: Topology, warm: Variant, vs: seq<Variant>, iter: int)
    ensures Launches(Session(t, warm, vs, iter))
            == KernelsPerPass(t) * (1 + |vs| * (if iter > 0 then iter else 0))
  {
    PassLaunches(t, warm);
    LaunchesAppend(Pass(t, warm), Timed(t, vs, iter));
    TimedLaunches(t, vs, iter);
  }

  lemma {:induction false} TimedLaunches(t: Topology, vs: seq<Variant>, iter: int)
    ensures Launches(Timed(t, vs, iter)) == KernelsPerPass(t) * |vs| * (if iter > 0 then iter else 0)
    decreases |vs|
  {
    var k := if iter > 0 then iter else 0;
    if vs != [] {
      TimedLaunches(t, vs[1..], iter);
      LaunchesAppend(Repeat(Pass(t, vs[0]), iter), Timed(t, vs[1..], iter));
      if iter > 0 {
        RepeatLaunches(t, vs[0], iter);
      } else {
        assert Repeat(Pass(t, vs[0]), iter) == [];
      }
      var kp := KernelsPerPass(t);
      Distribute(kp * (|vs| - 1), kp, k);
      assert kp * |vs| == kp * (|vs| - 1) + kp;
    }
  }
}
