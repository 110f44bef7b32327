/** The `while (1)` loop of server/src/main.c. Each pass reads the monotonic
    clock; before the deadline `next_tick` it only sleeps, otherwise it renders
    into the frame buffer, pushes the frame stamped with the reading when
    rendering succeeded, polls the signaling session once, and moves the
    deadline on by `frame_ns`. The clock readings are inputs, one per pass,
    and the loop is followed over a finite prefix of its passes. */
module MainLoop {
  import opened CText
  import P = Pipeline
  import FS = FrameSource
  import opened App
  import W = WireCodec

  /** One pass of the loop: the clock reading and, for a pass that fires,
      the picture the renderer draws, whether appsrc takes the buffer, and
      the wake-ups the poll dispatches. */
  datatype Pass = Pass(now: nat, picture: seq<bv8>, accepted: bool, batch: seq<Wake>)

  /** What the loop carries from pass to pass: the application's world, the
      deadline, and the number of frames rendered. */
  datatype Loop = Loop(world: World, nextTick: nat, rendered: nat)

  /** The buffer a firing pass hands to appsrc, if it takes one. */
  function FiredBuffer(p: Pass): seq<P.Buffer> {
    if p.accepted then [P.Buffer(p.picture, p.now, p.now)] else []
  }

  /** A firing pass: the frame goes to appsrc stamped with the reading as
      both PTS and DTS, then the poll serves its wake-ups. */
  function Fire(w: World, p: Pass): World {
    PollW(w.(queued := w.queued + FiredBuffer(p)), p.batch)
  }

  /** The passes in order, from a deadline. */
  function Run(l: Loop, frameNs: nat, passes: seq<Pass>): Loop
    decreases |passes|
  {
    if passes == [] then l
    else if passes[0].now < l.nextTick then Run(l, frameNs, passes[1..])
    else Run(Loop(Fire(l.world, passes[0]), l.nextTick + frameNs, l.rendered + 1), frameNs, passes[1..])
  }

  /** The clock readings of a sequence of passes. */
  function Nows(passes: seq<Pass>): (r: seq<nat>)
    ensures |r| == |passes| && forall i :: 0 <= i < |r| ==> r[i] == passes[i].now
    decreases |passes|
  {
    if passes == [] then [] else [passes[0].now] + Nows(passes[1..])
  }

  /** The readings at which the loop fires, from deadline `next`: a reading
      fires when it has reached the deadline, which then moves on by frameNs. */
  function Fired(next: nat, frameNs: nat, nows: seq<nat>): seq<nat>
    decreases |nows|
  {
    if nows == [] then []
    else if nows[0] < next then Fired(next, frameNs, nows[1..])
    else [nows[0]] + Fired(next + frameNs, frameNs, nows[1..])
  }

  /** The buffers the loop hands to appsrc, from deadline `next`. */
  function Pushed(next: nat, frameNs: nat, passes: seq<Pass>): seq<P.Buffer>
    decreases |passes|
  {
    if passes == [] then []
    else if passes[0].now < next then Pushed(next, frameNs, passes[1..])
    else
      FiredBuffer(passes[0]) + Pushed(next + frameNs, frameNs, passes[1..])
  }

  /** A monotonic clock: no reading precedes an earlier one. */
  predicate ClockMonotone(passes: seq<Pass>) {
    forall i, j :: 0 <= i < j < |passes| ==> passes[i].now <= passes[j].now
  }

  /** Each firing at or after its slot in the schedule next, next + frameNs, ... */
  predicate OnOrAfterSchedule(f: seq<nat>, next: nat, frameNs: nat) {
    forall k :: 0 <= k < |f| ==> next + k * frameNs <= f[k]
  }

  predicate StampsOrdered(b: seq<P.Buffer>) {
    forall i, j :: 0 <= i < j < |b| ==> b[i].pts <= b[j].pts
  }

  /** The deadline is never reset: after the passes it stands exactly one
      frameNs past the start for every firing, and one frame was rendered
      per firing. */
  lemma {:induction false} Deadline(l: Loop, frameNs: nat, passes: seq<Pass>)
    ensures var r, n := Run(l, frameNs, passes), |Fired(l.nextTick, frameNs, Nows(passes))|;
      r.nextTick == l.nextTick + n * frameNs && r.rendered == l.rendered + n
    decreases |passes|
  {
    if passes != [] {
      assert Nows(passes)[1..] == Nows(passes[1..]);
      if passes[0].now < l.nextTick {
        Deadline(l, frameNs, passes[1..]);
      } else {
        var l' := Loop(Fire(l.world, passes[0]), l.nextTick + frameNs, l.rendered + 1);
        Deadline(l', frameNs, passes[1..]);
        MoreSlots(l.nextTick, frameNs, |Fired(l'.nextTick, frameNs, Nows(passes[1..]))|);
      }
    }
  }

  lemma MoreSlots(next: nat, frameNs: nat, n: nat)
    ensures next + frameNs + n * frameNs == next + (n + 1) * frameNs
  {
  }

  /** The k-th firing (from 0) happens at a reading of at least
      next + k * frameNs: a late pass does not move later deadlines. */
  lemma {:induction false} FiringLowerBound(next: nat, frameNs: nat, nows: seq<nat>)
    ensures OnOrAfterSchedule(Fired(next, frameNs, nows), next, frameNs)
    decreases |nows|
  {
    if nows != [] {
      var f := Fired(next, frameNs, nows);
      if nows[0] < next {
        assert f == Fired(next, frameNs, nows[1..]);
        FiringLowerBound(next, frameNs, nows[1..]);
      } else {
        var rest := Fired(next + frameNs, frameNs, nows[1..]);
        assert f == [nows[0]] + rest;
        FiringLowerBound(next + frameNs, frameNs, nows[1..]);
        forall k | 0 <= k < |f|
          ensures next + k * frameNs <= f[k]
        {
          if k > 0 {
            assert f[k] == rest[k - 1];
            assert next + frameNs + (k - 1) * frameNs <= rest[k - 1];
            assert next + frameNs + (k - 1) * frameNs == next + k * frameNs;
          }
        }
      }
    }
  }

  /** A bound on the rate: with readings up to T and a positive frameNs, the
      last of n firings is at least (n - 1) * frameNs past the start, so at
      most (T - next) / frameNs + 1 firings happen. */
  lemma FiringRate(next: nat, frameNs: nat, nows: seq<nat>, T: nat)
    requires 0 < frameNs
    requires forall x :: x in nows ==> x <= T
    ensures var n := |Fired(next, frameNs, nows)|;
      n == 0 || (next <= T && n <= (T - next) / frameNs + 1)
  {
    var f := Fired(next, frameNs, nows);
    if f != [] {
      FiringLowerBound(next, frameNs, nows);
      FiredAreReadings(next, frameNs, nows);
      var n := |f|;
      assert f[n - 1] in f;
      assert OnOrAfterSchedule(f, next, frameNs);
      assert next + (n - 1) * frameNs <= f[n - 1];
      assert next + (n - 1) * frameNs <= T;
      DivBound(T - next, frameNs, n - 1);
    }
  }

  lemma DivBound(a: nat, d: nat, m: nat)
    requires 0 < d && m * d <= a
    ensures m <= a / d
  {
    var q := a / d;
    assert a < (q + 1) * d;
    assert m * d < (q + 1) * d;
  }

  /** Every firing is one of the readings. */
  lemma {:induction false} FiredAreReadings(next: nat, frameNs: nat, nows: seq<nat>)
    ensures forall x :: x in Fired(next, frameNs, nows) ==> x in nows
    decreases |nows|
  {
    if nows != [] {
      FiredAreReadings(next, frameNs, nows[1..]);
      FiredAreReadings(next + frameNs, frameNs, nows[1..]);
      assert forall x :: x in nows[1..] ==> x in nows;
    }
  }

  /** Passes that wake before the deadline change nothing: neither the world,
      nor the deadline, nor the frame count. */
  lemma {:induction false} EarlyWakeups(l: Loop, frameNs: nat, early: seq<Pass>, passes: seq<Pass>)
    requires forall i :: 0 <= i < |early| ==> early[i].now < l.nextTick
    ensures Run(l, frameNs, early + passes) == Run(l, frameNs, passes)
    decreases |early|
  {
    if early != [] {
      assert (early + passes)[1..] == early[1..] + passes;
      EarlyWakeups(l, frameNs, early[1..], passes);
    } else {
      assert early + passes == passes;
    }
  }

  /** appsrc receives exactly the pushed buffers: polling adds none. */
  lemma {:induction false} QueueIsPushed(l: Loop, frameNs: nat, passes: seq<Pass>)
    ensures Run(l, frameNs, passes).world.queued == l.world.queued + Pushed(l.nextTick, frameNs, passes)
    decreases |passes|
  {
    if passes != [] {
      var p := passes[0];
      if p.now < l.nextTick {
        QueueIsPushed(l, frameNs, passes[1..]);
      } else {
        var l' := Loop(Fire(l.world, p), l.nextTick + frameNs, l.rendered + 1);
        QueueIsPushed(l', frameNs, passes[1..]);
        FireQueues(l.world, p);
        W.ConcatAssoc(l.world.queued, FiredBuffer(p), Pushed(l'.nextTick, frameNs, passes[1..]));
      }
    }
  }

  /** A firing appends its own buffer, and nothing else, to the queue. */
  lemma FireQueues(w: World, p: Pass)
    ensures Fire(w, p).queued == w.queued + FiredBuffer(p)
  {
    PollKeepsFrames(w.(queued := w.queued + FiredBuffer(p)), p.batch);
  }

  /** Every pushed buffer carries a reading of at least `lo` when all
      readings are, with its DTS equal to its PTS. */
  lemma {:induction false} PushedAbove(next: nat, frameNs: nat, passes: seq<Pass>, lo: nat)
    requires forall i :: 0 <= i < |passes| ==> lo <= passes[i].now
    ensures forall b :: b in Pushed(next, frameNs, passes) ==> lo <= b.pts && b.dts == b.pts
    decreases |passes|
  {
    if passes != [] {
      PushedAbove(next, frameNs, passes[1..], lo);
      PushedAbove(next + frameNs, frameNs, passes[1..], lo);
    }
  }

  /** Every pushed buffer was stamped at or after the deadline it met, with
      its DTS equal to its PTS. */
  lemma {:induction false} PushedAfterDeadline(next: nat, frameNs: nat, passes: seq<Pass>)
    ensures forall b :: b in Pushed(next, frameNs, passes) ==> next <= b.pts && b.dts == b.pts
    decreases |passes|
  {
    if passes != [] {
      PushedAfterDeadline(next, frameNs, passes[1..]);
      PushedAfterDeadline(next + frameNs, frameNs, passes[1..]);
    }
  }

  /** With a monotonic clock the pushed timestamps never go backwards. */
  lemma {:induction false} StampsMonotone(next: nat, frameNs: nat, passes: seq<Pass>)
    requires ClockMonotone(passes)
    ensures StampsOrdered(Pushed(next, frameNs, passes))
    decreases |passes|
  {
    if passes != [] {
      LaterReadings(passes);
      if passes[0].now < next {
        StampsMonotone(next, frameNs, passes[1..]);
      } else {
        StampsMonotone(next + frameNs, frameNs, passes[1..]);
        FiringKeepsOrder(next, frameNs, passes);
      }
    }
  }

  /** A firing pass puts its buffer, if any, in front of buffers stamped no
      earlier. */
  lemma FiringKeepsOrder(next: nat, frameNs: nat, passes: seq<Pass>)
    requires passes != [] && next <= passes[0].now
    requires forall i :: 0 <= i < |passes| - 1 ==> passes[0].now <= passes[1..][i].now
    requires StampsOrdered(Pushed(next + frameNs, frameNs, passes[1..]))
    ensures StampsOrdered(Pushed(next, frameNs, passes))
  {
    var p, rest := passes[0], passes[1..];
    var tail := Pushed(next + frameNs, frameNs, rest);
    if p.accepted {
      var x := P.Buffer(p.picture, p.now, p.now);
      assert Pushed(next, frameNs, passes) == [x] + tail;
      PushedAbove(next + frameNs, frameNs, rest, p.now);
      OrderedCons(x, tail);
    } else {
      assert Pushed(next, frameNs, passes) == tail;
    }
  }

  /** The readings after the first of a non-decreasing sequence are
      non-decreasing and none precedes the first. */
  lemma LaterReadings(passes: seq<Pass>)
    requires passes != [] && ClockMonotone(passes)
    ensures ClockMonotone(passes[1..])
    ensures forall i :: 0 <= i < |passes| - 1 ==> passes[0].now <= passes[1..][i].now
  {
  }

  lemma OrderedCons(x: P.Buffer, tail: seq<P.Buffer>)
    requires StampsOrdered(tail) && forall b :: b in tail ==> x.pts <= b.pts
    ensures StampsOrdered([x] + tail)
  {
    var b := [x] + tail;
    forall i, j | 0 <= i < j < |b|
      ensures b[i].pts <= b[j].pts
    {
      assert b[j] == tail[j - 1] && b[j] in tail;
      if i > 0 {
        assert b[i] == tail[i - 1];
      }
    }
  }

  /** One firing pass. frame_size is width * height * 4, the least size
      cs_render_frame accepts, so rendering never fails here and the buffer
      pushed is the picture drawn. */
  method Tick(app: Application, renderer: FS.Renderer, frame: array<bv8>, p: Pass)
    requires app.Wired()
    requires frame.Length == FS.FrameBytes(renderer.width, renderer.height) == |p.picture|
    modifies app.session, app.pipeline, renderer, frame
    ensures app.Snapshot() == Fire(old(app.Snapshot()), p)
    ensures renderer.frames == old(renderer.frames) + 1
    ensures frame[..] == p.picture
  {
    ghost var before := app.Snapshot();
    var rc := FS.RenderFrame(renderer, frame, frame.Length, p.picture);
    assert rc == 0;
    assert frame[..] == p.picture;
    var _ := P.PushFrame(app.pipeline, Some(frame[..]), frame.Length, p.now, p.accepted);
    assert app.Snapshot() == before.(queued := before.queued + FiredBuffer(p));
    app.Poll(p.batch);
  }

  /** The loop over a sequence of passes, from the deadline `start` (the
      clock reading taken before the loop); returns the final deadline. */
  method FrameLoop(app: Application, renderer: FS.Renderer, frame: array<bv8>, frameNs: nat, start: nat,
                   passes: seq<Pass>) returns (nextTick: nat)
    requires app.Wired()
    requires frame.Length == FS.FrameBytes(renderer.width, renderer.height)
    requires forall i :: 0 <= i < |passes| ==> |passes[i].picture| == frame.Length
    modifies app.session, app.pipeline, renderer, frame
    ensures var r := Run(Loop(old(app.Snapshot()), start, old(renderer.frames)), frameNs, passes);
      app.Snapshot() == r.world && nextTick == r.nextTick && renderer.frames == r.rendered
  {
    ghost var goal := Run(Loop(app.Snapshot(), start, renderer.frames), frameNs, passes);
    nextTick := start;
    var i := 0;
    while i < |passes|
      invariant i <= |passes|
      invariant Run(Loop(app.Snapshot(), nextTick, renderer.frames), frameNs, passes[i..]) == goal
    {
      var p := passes[i];
      assert passes[i..][1..] == passes[i + 1..];
      if p.now < nextTick {
        // nanosleep until the deadline, then the next pass
      } else {
        Tick(app, renderer, frame, p);
        nextTick := nextTick + frameNs;
      }
      i := i + 1;
    }
  }
}
