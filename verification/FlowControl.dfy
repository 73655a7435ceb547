/** Credit-based flow control as functions on the controller's state. */
module FlowControl {
  import opened Bytes

  const MIN_WINDOW_SIZE: u32 := 1024
  const MAX_WINDOW_SIZE: u32 := 0x7FFF_FFFF

  datatype WindowUpdate = WindowUpdate(streamId: u64, increment: u32)

  /** The controller's fields. The byte totals are not bounded here. */
  datatype Flow = Flow(
    connSend: u32, connRecv: u32, initialConn: u32,
    send: map<u64, u32>, recv: map<u64, u32>, initialStream: u32,
    totalSent: nat, totalReceived: nat, pending: seq<WindowUpdate>)

  datatype Event =
    | WindowUpdateNeeded(streamId: u64, increment: u32)
    | FlowControlBlocked(streamId: u64, available: u32, requested: u32)
    | WindowExhausted(streamId: u64)

  datatype FlowError = StreamZero | ReceiveWindowExceeded(streamId: u64) | WindowOverflow | WindowSizeOutOfRange

  function New(conn: u32, stream: u32): Flow {
    Flow(conn, conn, conn, map[], map[], stream, 0, 0, [])
  }

  function Get(windows: map<u64, u32>, id: u64): u32 {
    if id in windows then windows[id] else 0
  }

  // ---------- the update threshold: half the initial window, computed in single precision ----------

  /** The distance between neighbouring 24-bit floating-point numbers at `n`. */
  function Ulp(n: u32): nat {
    if n < 0x100_0000 then 1 else if n < 0x200_0000 then 2 else if n < 0x400_0000 then 4
    else if n < 0x800_0000 then 8 else if n < 0x1000_0000 then 16 else if n < 0x2000_0000 then 32
    else if n < 0x4000_0000 then 64 else if n < 0x8000_0000 then 128 else 256
  }

  /** `n` rounded to a multiple of `ulp`, ties to even. */
  function RoundTo(n: nat, ulp: nat): nat
    requires ulp > 0
  {
    var low := n / ulp;
    if 2 * (n % ulp) < ulp || (2 * (n % ulp) == ulp && low % 2 == 0) then low * ulp else (low + 1) * ulp
  }

  /** `(n as f32 * 0.5) as u32`: the conversion rounds, the halving is exact, the cast truncates. */
  function Threshold(n: u32): nat {
    RoundTo(n, Ulp(n)) / 2
  }

  /** Rounding moves a number by at most half a step. */
  lemma RoundToNear(n: nat, ulp: nat)
    requires ulp > 0
    ensures 2 * n - ulp <= 2 * RoundTo(n, ulp) <= 2 * n + ulp
  {
    var low := n / ulp;
    assert n == ulp * low + n % ulp;
    assert (low + 1) * ulp == low * ulp + ulp;
  }

  /** The threshold is half the window, up to a rounding error that only windows from 2^24 on have. */
  lemma ThresholdIsHalf(n: u32)
    ensures n < 0x100_0000 ==> Threshold(n) == n / 2
    ensures n - 129 <= 2 * Threshold(n) <= n + 128
    ensures Threshold(n) <= n && (n > 0 ==> Threshold(n) < n)
  {
    RoundToNear(n, Ulp(n));
    if n < 0x100_0000 {
      assert RoundTo(n, 1) == n;
    }
  }

  predicate NeedsUpdate(current: u32, initial: u32) {
    current <= Threshold(initial)
  }

  /** Called only below the threshold, so the subtraction never underflows. */
  function UpdateSize(current: u32, initial: u32): u32
    requires NeedsUpdate(current, initial)
  {
    ThresholdIsHalf(initial);
    initial - current
  }

  // ---------- operations ----------

  function InitializeStream(f: Flow, id: u64): (Flow, Result<(), FlowError>) {
    if id == 0 then (f, Err(StreamZero))
    else (f.(send := f.send[id := f.initialStream], recv := f.recv[id := f.initialStream]), Ok(()))
  }

  function RemoveStream(f: Flow, id: u64): Flow {
    f.(send := f.send - {id}, recv := f.recv - {id})
  }

  predicate CanSend(f: Flow, id: u64, bytes: u32) {
    f.connSend >= bytes && (id != 0 ==> id in f.send && f.send[id] >= bytes)
  }

  /** The event of the level that refuses the bytes, the connection being asked first. */
  function Refusal(f: Flow, id: u64, bytes: u32): Option<Event> {
    if f.connSend < bytes then Some(FlowControlBlocked(0, f.connSend, bytes))
    else if id != 0 && Get(f.send, id) < bytes then Some(FlowControlBlocked(id, Get(f.send, id), bytes))
    else None
  }

  function Exhausted(id: u64, window: u32): seq<Event> {
    if window == 0 then [WindowExhausted(id)] else []
  }

  function Reserve(f: Flow, id: u64, bytes: u32): (Flow, seq<Event>) {
    match Refusal(f, id, bytes)
    case Some(e) => (f, [e])
    case None =>
      var conn := f.connSend - bytes;
      var charged := f.(connSend := conn, totalSent := f.totalSent + bytes);
      if id == 0 then (charged, Exhausted(0, conn))
      else
        var stream := Get(f.send, id) - bytes;
        (charged.(send := f.send[id := stream]), Exhausted(id, stream) + Exhausted(0, conn))
  }

  function UpdateEvent(id: u64, current: u32, initial: u32): seq<Event> {
    if NeedsUpdate(current, initial) then [WindowUpdateNeeded(id, UpdateSize(current, initial))] else []
  }

  /** The connection is charged before the stream is checked, so a refused stream keeps that charge. */
  function Receive(f: Flow, id: u64, bytes: u32): (Flow, Result<seq<Event>, FlowError>) {
    if f.connRecv < bytes then (f, Err(ReceiveWindowExceeded(0)))
    else
      var conn := f.connRecv - bytes;
      var charged := f.(connRecv := conn, totalReceived := f.totalReceived + bytes);
      if id == 0 then (charged, Ok(UpdateEvent(0, conn, f.initialConn)))
      else if Get(f.recv, id) < bytes then (charged, Err(ReceiveWindowExceeded(id)))
      else
        var stream := Get(f.recv, id) - bytes;
        (charged.(recv := f.recv[id := stream]),
         Ok(UpdateEvent(id, stream, f.initialStream) + UpdateEvent(0, conn, f.initialConn)))
  }

  function UpdateSend(f: Flow, id: u64, increment: u32): (Flow, Result<(), FlowError>) {
    var window := SendWindow(f, id) + increment;
    if window > MAX_WINDOW_SIZE then (f, Err(WindowOverflow))
    else if id == 0 then (f.(connSend := window), Ok(()))
    else (f.(send := f.send[id := window]), Ok(()))
  }

  function UpdateRecv(f: Flow, id: u64, increment: u32): (Flow, Result<(), FlowError>) {
    var window := RecvWindow(f, id) + increment;
    if window > MAX_WINDOW_SIZE then (f, Err(WindowOverflow))
    else if id == 0 then (f.(connRecv := window), Ok(()))
    else (f.(recv := f.recv[id := window]), Ok(()))
  }

  function SendWindow(f: Flow, id: u64): u32 {
    if id == 0 then f.connSend else Get(f.send, id)
  }

  function RecvWindow(f: Flow, id: u64): u32 {
    if id == 0 then f.connRecv else Get(f.recv, id)
  }

  function EffectiveSendWindow(f: Flow, id: u64): u32 {
    if id == 0 || f.connSend < Get(f.send, id) then f.connSend else Get(f.send, id)
  }

  // ---------- resizing ----------

  /** `(window as i64 + diff).max(0) as u32`, capped: the cast drops everything above 32 bits. */
  function Shift(window: u32, diff: int): u32 {
    var moved := if window + diff < 0 then 0 else window + diff;
    var cast := moved % TWO_TO_32;
    if cast > MAX_WINDOW_SIZE then MAX_WINDOW_SIZE else cast
  }

  function ShiftAll(windows: map<u64, u32>, diff: int): map<u64, u32> {
    map id | id in windows :: Shift(windows[id], diff)
  }

  predicate SizeAllowed(size: u32) {
    MIN_WINDOW_SIZE <= size <= MAX_WINDOW_SIZE
  }

  function ResizeConnection(f: Flow, size: u32): Flow {
    var diff := size - f.initialConn;
    f.(initialConn := size, connSend := Shift(f.connSend, diff), connRecv := Shift(f.connRecv, diff))
  }

  function ResizeStreams(f: Flow, size: u32): Flow {
    var diff := size - f.initialStream;
    f.(initialStream := size, send := ShiftAll(f.send, diff), recv := ShiftAll(f.recv, diff))
  }

  /** The connection is resized before the stream size is checked. */
  function Resize(f: Flow, conn: Option<u32>, stream: Option<u32>): (Flow, Result<(), FlowError>) {
    if conn.Some? && !SizeAllowed(conn.value) then (f, Err(WindowSizeOutOfRange))
    else
      var g := if conn.Some? then ResizeConnection(f, conn.value) else f;
      if stream.None? then (g, Ok(()))
      else if !SizeAllowed(stream.value) then (g, Err(WindowSizeOutOfRange))
      else (ResizeStreams(g, stream.value), Ok(()))
  }
}
