/** Changing the initial window sizes: what becomes of every window, and when the change can be taken back. */
module Resizing {
  import opened Bytes
  import opened FlowControl
  import opened FlowProperties

  predicate Allowed(size: u32) {
    1024 <= size <= 0x7FFF_FFFF
  }

  /** The window follows its initial size, but not below zero nor above 2^31 - 1. */
  predicate Follows(before: u32, after: u32, diff: int) {
    if before + diff < 0 then after == 0
    else if before + diff > 0x7FFF_FFFF then after == 0x7FFF_FFFF
    else after == before + diff
  }

  ghost predicate AllFollow(before: map<u64, u32>, after: map<u64, u32>, diff: int) {
    before.Keys == after.Keys && forall id :: id in before ==> Follows(before[id], after[id], diff)
  }

  // ---------- no run truncates ----------

  /** A window is above 2^31 - 1 only as long as it is the one it started with, or less. */
  predicate Tame(window: u32, initial: u32) {
    window <= 0x7FFF_FFFF || window <= initial
  }

  ghost predicate AllTame(f: Flow) {
    && Tame(f.connSend, f.initialConn) && Tame(f.connRecv, f.initialConn)
    && (forall id :: id in f.send ==> Tame(f.send[id], f.initialStream))
    && (forall id :: id in f.recv ==> Tame(f.recv[id], f.initialStream))
  }

  lemma ResizedTame(f: Flow, size: u32)
    requires AllTame(f)
    ensures AllTame(ResizeConnection(f, size)) && AllTame(ResizeStreams(f, size))
  {
  }

  lemma ResizeTame(f: Flow, conn: Option<u32>, stream: Option<u32>)
    requires AllTame(f)
    ensures AllTame(Resize(f, conn, stream).0)
  {
    var g := if conn.Some? then ResizeConnection(f, conn.value) else f;
    if conn.Some? {
      ResizedTame(f, conn.value);
    }
    if stream.Some? {
      ResizedTame(f, stream.value);
      ResizedTame(g, stream.value);
    }
  }

  lemma StepTame(f: Flow, op: Op)
    requires AllTame(f)
    ensures AllTame(Step(f, op))
  {
    match op
    case ChangeSizes(conn, stream) => ResizeTame(f, conn, stream);
    case _ => OtherTame(f, op);
  }

  lemma OtherTame(f: Flow, op: Op)
    requires AllTame(f) && !op.ChangeSizes?
    ensures AllTame(Step(f, op))
  {
  }

  lemma {:induction false} RunTame(conn: u32, stream: u32, ops: seq<Op>)
    ensures AllTame(Run(New(conn, stream), ops))
  {
    if ops == [] {
    } else {
      RunTame(conn, stream, ops[..|ops| - 1]);
      StepTame(Run(New(conn, stream), ops[..|ops| - 1]), ops[|ops| - 1]);
    }
  }

  lemma ShiftFollows(window: u32, initial: u32, size: u32)
    requires Tame(window, initial) && Allowed(size)
    ensures Follows(window, Shift(window, size - initial), size - initial)
  {
  }

  lemma ShiftAllFollows(windows: map<u64, u32>, initial: u32, size: u32)
    requires (forall id :: id in windows ==> Tame(windows[id], initial)) && Allowed(size)
    ensures AllFollow(windows, ShiftAll(windows, size - initial), size - initial)
  {
    forall id | id in windows
      ensures Follows(windows[id], ShiftAll(windows, size - initial)[id], size - initial)
    {
      ShiftFollows(windows[id], initial, size);
    }
  }

  // ---------- what a resize does ----------

  /** The connection's part: its size and its two windows, or nothing. */
  predicate ConnectionResized(f: Flow, g: Flow, size: Option<u32>) {
    match size
    case None => g.initialConn == f.initialConn && g.connSend == f.connSend && g.connRecv == f.connRecv
    case Some(s) =>
      && g.initialConn == s
      && Follows(f.connSend, g.connSend, s - f.initialConn) && Follows(f.connRecv, g.connRecv, s - f.initialConn)
  }

  ghost predicate StreamsResized(f: Flow, g: Flow, size: Option<u32>) {
    match size
    case None => g.initialStream == f.initialStream && g.send == f.send && g.recv == f.recv
    case Some(s) =>
      && g.initialStream == s
      && AllFollow(f.send, g.send, s - f.initialStream) && AllFollow(f.recv, g.recv, s - f.initialStream)
  }

  lemma ConnectionFollows(f: Flow, size: u32)
    requires AllTame(f) && Allowed(size)
    ensures var g := ResizeConnection(f, size);
            ConnectionResized(f, g, Some(size)) && StreamsResized(f, g, None) && SameTotals(f, g)
  {
    ShiftFollows(f.connSend, f.initialConn, size);
    ShiftFollows(f.connRecv, f.initialConn, size);
  }

  lemma StreamsFollow(f: Flow, size: u32)
    requires AllTame(f) && Allowed(size)
    ensures var g := ResizeStreams(f, size);
            ConnectionResized(f, g, None) && StreamsResized(f, g, Some(size)) && SameTotals(f, g)
  {
    ShiftAllFollows(f.send, f.initialStream, size);
    ShiftAllFollows(f.recv, f.initialStream, size);
  }

  predicate SameTotals(f: Flow, g: Flow) {
    g.totalSent == f.totalSent && g.totalReceived == f.totalReceived && g.pending == f.pending
  }

  lemma BothFollow(f: Flow, g: Flow, h: Flow, conn: Option<u32>, stream: Option<u32>)
    requires ConnectionResized(f, g, conn) && StreamsResized(f, g, None)
    requires ConnectionResized(g, h, None) && StreamsResized(g, h, stream)
    ensures ConnectionResized(f, h, conn) && StreamsResized(f, h, stream)
  {
  }

  lemma ResizeFollows(f: Flow, conn: Option<u32>, stream: Option<u32>)
    requires AllTame(f)
    ensures var (g, r) := Resize(f, conn, stream);
            && (r.Ok? <==> (conn.Some? ==> Allowed(conn.value)) && (stream.Some? ==> Allowed(stream.value)))
            && (r.Err? ==> r == Err(WindowSizeOutOfRange))
            && (r.Ok? ==> ConnectionResized(f, g, conn) && StreamsResized(f, g, stream) && SameTotals(f, g))
  {
    if Resize(f, conn, stream).1.Ok? {
      var g := if conn.Some? then ResizeConnection(f, conn.value) else f;
      if conn.Some? {
        ConnectionFollows(f, conn.value);
        ResizedTame(f, conn.value);
      }
      if stream.Some? {
        StreamsFollow(g, stream.value);
        BothFollow(f, g, ResizeStreams(g, stream.value), conn, stream);
      }
    }
  }

  /**
    In every state of every new controller: a resize succeeds exactly on sizes from 1024 to 2^31 - 1. It then sets the
    initial sizes given and moves every window at their level by the difference, within the limits, in both directions;
    a level without a size stays as it is.
   */
  lemma ResizeMovesWindows(start: u32, startStream: u32, ops: seq<Op>, conn: Option<u32>, stream: Option<u32>)
    ensures var f := Run(New(start, startStream), ops);
            var (g, r) := Resize(f, conn, stream);
            && (r.Ok? <==> (conn.Some? ==> Allowed(conn.value)) && (stream.Some? ==> Allowed(stream.value)))
            && (r.Err? ==> r == Err(WindowSizeOutOfRange))
            && (r.Ok? ==> ConnectionResized(f, g, conn) && StreamsResized(f, g, stream) && SameTotals(f, g))
  {
    RunTame(start, startStream, ops);
    ResizeFollows(Run(New(start, startStream), ops), conn, stream);
  }

  // ---------- taking it back ----------

  /** The size to ask for in order to return to the one in force. */
  function Back(asked: Option<u32>, inForce: u32): Option<u32> {
    if asked.Some? then Some(inForce) else None
  }

  predicate Fits(window: u32, diff: int) {
    0 <= window + diff <= 0x7FFF_FFFF
  }

  ghost predicate AllFit(windows: map<u64, u32>, diff: int) {
    forall id :: id in windows ==> Fits(windows[id], diff)
  }

  ghost predicate ConnectionReturns(f: Flow, size: Option<u32>) {
    size.Some? ==>
      && Allowed(f.initialConn)
      && Fits(f.connSend, size.value - f.initialConn) && Fits(f.connRecv, size.value - f.initialConn)
  }

  ghost predicate StreamsReturn(f: Flow, size: Option<u32>) {
    size.Some? ==>
      && Allowed(f.initialStream)
      && AllFit(f.send, size.value - f.initialStream) && AllFit(f.recv, size.value - f.initialStream)
  }

  /** The difference of two sizes. */
  predicate Distance(diff: int) {
    -0x7FFF_FFFF <= diff <= 0x7FFF_FFFF
  }

  lemma FollowsBackIff(window: u32, moved: u32, back: u32, there: int)
    requires Distance(there) && window <= 0x7FFF_FFFF && Follows(window, moved, there) && Follows(moved, back, -there)
    ensures back == window <==> Fits(window, there)
  {
  }

  lemma AllFollowBackIff(windows: map<u64, u32>, moved: map<u64, u32>, back: map<u64, u32>, there: int)
    requires Distance(there) && (forall id :: id in windows ==> windows[id] <= 0x7FFF_FFFF)
    requires AllFollow(windows, moved, there) && AllFollow(moved, back, -there)
    ensures back == windows <==> AllFit(windows, there)
  {
    forall id | id in windows
      ensures back[id] == windows[id] <==> Fits(windows[id], there)
    {
      FollowsBackIff(windows[id], moved[id], back[id], there);
    }
  }

  lemma ConnectionBackIff(f: Flow, g: Flow, h: Flow, size: Option<u32>)
    requires AllTame(f) && Allowed(f.initialConn) && (size.Some? ==> Allowed(size.value))
    requires ConnectionResized(f, g, size) && ConnectionResized(g, h, Back(size, f.initialConn))
    ensures h.initialConn == f.initialConn
    ensures h.connSend == f.connSend && h.connRecv == f.connRecv <==> ConnectionReturns(f, size)
  {
    if size.Some? {
      FollowsBackIff(f.connSend, g.connSend, h.connSend, size.value - f.initialConn);
      FollowsBackIff(f.connRecv, g.connRecv, h.connRecv, size.value - f.initialConn);
    }
  }

  lemma StreamsBackIff(f: Flow, g: Flow, h: Flow, size: Option<u32>)
    requires AllTame(f) && Allowed(f.initialStream) && (size.Some? ==> Allowed(size.value))
    requires StreamsResized(f, g, size) && StreamsResized(g, h, Back(size, f.initialStream))
    ensures h.initialStream == f.initialStream
    ensures h.send == f.send && h.recv == f.recv <==> StreamsReturn(f, size)
  {
    if size.Some? {
      AllFollowBackIff(f.send, g.send, h.send, size.value - f.initialStream);
      AllFollowBackIff(f.recv, g.recv, h.recv, size.value - f.initialStream);
    }
  }

  /**
    Asking for the former sizes takes a resize back exactly when they are sizes one may ask for and no window of the
    levels resized was clamped.
   */
  lemma ResizeUndoneIff(f: Flow, conn: Option<u32>, stream: Option<u32>)
    requires AllTame(f) && Resize(f, conn, stream).1.Ok?
    ensures Resize(Resize(f, conn, stream).0, Back(conn, f.initialConn), Back(stream, f.initialStream)) == (f, Ok(()))
       <==> ConnectionReturns(f, conn) && StreamsReturn(f, stream)
  {
    var g := Resize(f, conn, stream).0;
    var backConn, backStream := Back(conn, f.initialConn), Back(stream, f.initialStream);
    var (h, r) := Resize(g, backConn, backStream);
    ResizeFollows(f, conn, stream);
    ResizeTame(f, conn, stream);
    ResizeFollows(g, backConn, backStream);
    if r.Ok? {
      ReturnsIff(f, g, h, conn, stream);
    }
  }

  lemma ReturnsIff(f: Flow, g: Flow, h: Flow, conn: Option<u32>, stream: Option<u32>)
    requires AllTame(f)
    requires conn.Some? ==> Allowed(conn.value) && Allowed(f.initialConn)
    requires stream.Some? ==> Allowed(stream.value) && Allowed(f.initialStream)
    requires ConnectionResized(f, g, conn) && ConnectionResized(g, h, Back(conn, f.initialConn))
    requires StreamsResized(f, g, stream) && StreamsResized(g, h, Back(stream, f.initialStream))
    requires SameTotals(f, h)
    ensures h == f <==> ConnectionReturns(f, conn) && StreamsReturn(f, stream)
  {
    if conn.Some? {
      ConnectionBackIff(f, g, h, conn);
    }
    if stream.Some? {
      StreamsBackIff(f, g, h, stream);
    }
  }
}
