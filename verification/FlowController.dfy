/** The flow controller object: windows and totals updated in place. */
module FlowControllers {
  import opened Bytes
  import opened FlowControl

  class FlowController {
    var connectionSendWindow: u32
    var connectionRecvWindow: u32
    var initialConnectionWindow: u32
    var streamSendWindows: map<u64, u32>
    var streamRecvWindows: map<u64, u32>
    var initialStreamWindow: u32
    var totalBytesSent: nat
    var totalBytesReceived: nat
    var pendingUpdates: seq<WindowUpdate>

    ghost function Abstract(): Flow
      reads this
    {
      Flow(connectionSendWindow, connectionRecvWindow, initialConnectionWindow,
           streamSendWindows, streamRecvWindows, initialStreamWindow,
           totalBytesSent, totalBytesReceived, pendingUpdates)
    }

    constructor (initialConnectionWindow: u32, initialStreamWindow: u32)
      ensures Abstract() == New(initialConnectionWindow, initialStreamWindow)
    {
      connectionSendWindow, connectionRecvWindow := initialConnectionWindow, initialConnectionWindow;
      this.initialConnectionWindow, this.initialStreamWindow := initialConnectionWindow, initialStreamWindow;
      streamSendWindows, streamRecvWindows := map[], map[];
      totalBytesSent, totalBytesReceived := 0, 0;
      pendingUpdates := [];
    }

    method InitializeStream(id: u64) returns (r: Result<(), FlowError>)
      modifies this
      ensures (Abstract(), r) == FlowControl.InitializeStream(old(Abstract()), id)
    {
      if id == 0 {
        return Err(StreamZero);
      }
      streamSendWindows := streamSendWindows[id := initialStreamWindow];
      streamRecvWindows := streamRecvWindows[id := initialStreamWindow];
      return Ok(());
    }

    method RemoveStream(id: u64)
      modifies this
      ensures Abstract() == FlowControl.RemoveStream(old(Abstract()), id)
    {
      streamSendWindows := streamSendWindows - {id};
      streamRecvWindows := streamRecvWindows - {id};
    }

    method CanSend(id: u64, bytes: u32) returns (allowed: bool)
      ensures allowed == FlowControl.CanSend(Abstract(), id, bytes)
    {
      if connectionSendWindow < bytes {
        return false;
      }
      if id != 0 {
        if id in streamSendWindows {
          if streamSendWindows[id] < bytes {
            return false;
          }
        } else {
          return false;
        }
      }
      return true;
    }

    method ReserveSendWindow(id: u64, bytes: u32) returns (events: seq<Event>)
      modifies this
      ensures (Abstract(), events) == Reserve(old(Abstract()), id, bytes)
    {
      events := [];
      if connectionSendWindow < bytes {
        return [FlowControlBlocked(0, connectionSendWindow, bytes)];
      }
      if id != 0 {
        var window := Get(streamSendWindows, id);
        if window < bytes {
          return [FlowControlBlocked(id, window, bytes)];
        }
        streamSendWindows := streamSendWindows[id := window - bytes];
        if window - bytes == 0 {
          events := events + [WindowExhausted(id)];
        }
        assert events == Exhausted(id, window - bytes);
      }
      ghost var streamEvents := events;
      connectionSendWindow := connectionSendWindow - bytes;
      totalBytesSent := totalBytesSent + bytes;
      if connectionSendWindow == 0 {
        events := events + [WindowExhausted(0)];
      }
      assert events == streamEvents + Exhausted(0, connectionSendWindow);
      assert id == 0 ==> events == Exhausted(0, connectionSendWindow);
    }

    method ProcessReceivedData(id: u64, bytes: u32) returns (r: Result<seq<Event>, FlowError>)
      modifies this
      ensures (Abstract(), r) == Receive(old(Abstract()), id, bytes)
    {
      var events: seq<Event> := [];
      if connectionRecvWindow < bytes {
        return Err(ReceiveWindowExceeded(0));
      }
      connectionRecvWindow := connectionRecvWindow - bytes;
      totalBytesReceived := totalBytesReceived + bytes;
      if id != 0 {
        var window := Get(streamRecvWindows, id);
        if window < bytes {
          return Err(ReceiveWindowExceeded(id));
        }
        streamRecvWindows := streamRecvWindows[id := window - bytes];
        if NeedsUpdate(window - bytes, initialStreamWindow) {
          events := events + [WindowUpdateNeeded(id, UpdateSize(window - bytes, initialStreamWindow))];
        }
        assert events == UpdateEvent(id, window - bytes, initialStreamWindow);
      }
      ghost var streamEvents := events;
      if NeedsUpdate(connectionRecvWindow, initialConnectionWindow) {
        events := events + [WindowUpdateNeeded(0, UpdateSize(connectionRecvWindow, initialConnectionWindow))];
      }
      assert events == streamEvents + UpdateEvent(0, connectionRecvWindow, initialConnectionWindow);
      assert id == 0 ==> events == UpdateEvent(0, connectionRecvWindow, initialConnectionWindow);
      return Ok(events);
    }

    method UpdateSendWindow(id: u64, increment: u32) returns (r: Result<(), FlowError>)
      modifies this
      ensures (Abstract(), r) == UpdateSend(old(Abstract()), id, increment)
    {
      if id == 0 {
        var window := connectionSendWindow + increment;
        if window > MAX_WINDOW_SIZE {
          return Err(WindowOverflow);
        }
        connectionSendWindow := window;
      } else {
        var window := Get(streamSendWindows, id) + increment;
        if window > MAX_WINDOW_SIZE {
          return Err(WindowOverflow);
        }
        streamSendWindows := streamSendWindows[id := window];
      }
      return Ok(());
    }

    method UpdateRecvWindow(id: u64, increment: u32) returns (r: Result<(), FlowError>)
      modifies this
      ensures (Abstract(), r) == UpdateRecv(old(Abstract()), id, increment)
    {
      if id == 0 {
        var window := connectionRecvWindow + increment;
        if window > MAX_WINDOW_SIZE {
          return Err(WindowOverflow);
        }
        connectionRecvWindow := window;
      } else {
        var window := Get(streamRecvWindows, id) + increment;
        if window > MAX_WINDOW_SIZE {
          return Err(WindowOverflow);
        }
        streamRecvWindows := streamRecvWindows[id := window];
      }
      return Ok(());
    }

    /** The largest number of bytes that a reservation on the stream is granted right now. */
    method EffectiveSendWindow(id: u64) returns (window: u32)
      ensures window == FlowControl.EffectiveSendWindow(Abstract(), id)
      ensures forall bytes: u32 :: bytes <= window <==> Refusal(Abstract(), id, bytes).None?
    {
      if id == 0 {
        return connectionSendWindow;
      }
      var stream := Get(streamSendWindows, id);
      window := if stream < connectionSendWindow then stream else connectionSendWindow;
    }

    method UpdateInitialWindowSizes(connection: Option<u32>, stream: Option<u32>) returns (r: Result<(), FlowError>)
      modifies this
      ensures (Abstract(), r) == Resize(old(Abstract()), connection, stream)
    {
      if connection.Some? {
        var size := connection.value;
        if size < MIN_WINDOW_SIZE || size > MAX_WINDOW_SIZE {
          return Err(WindowSizeOutOfRange);
        }
        var diff := size - initialConnectionWindow;
        initialConnectionWindow := size;
        connectionSendWindow := Shift(connectionSendWindow, diff);
        connectionRecvWindow := Shift(connectionRecvWindow, diff);
      }
      ghost var resized := Abstract();
      assert resized == if connection.Some? then ResizeConnection(old(Abstract()), connection.value) else old(Abstract());
      if stream.Some? {
        var size := stream.value;
        if size < MIN_WINDOW_SIZE || size > MAX_WINDOW_SIZE {
          return Err(WindowSizeOutOfRange);
        }
        var diff := size - initialStreamWindow;
        initialStreamWindow := size;
        var shifted := ShiftWindows(streamSendWindows, diff);
        streamSendWindows := shifted;
        shifted := ShiftWindows(streamRecvWindows, diff);
        streamRecvWindows := shifted;
        StreamsResized(resized, size, diff, streamSendWindows, streamRecvWindows);
        assert Abstract() == resized.(initialStream := size, send := streamSendWindows, recv := streamRecvWindows);
      }
      return Ok(());
    }

    static lemma StreamsResized(f: Flow, size: u32, diff: int, send: map<u64, u32>, recv: map<u64, u32>)
      requires diff == size - f.initialStream && send == ShiftAll(f.send, diff) && recv == ShiftAll(f.recv, diff)
      ensures f.(initialStream := size, send := send, recv := recv) == ResizeStreams(f, size)
    {
    }

    /** Walks the values of a map in an arbitrary order and moves each one. */
    static method ShiftWindows(windows: map<u64, u32>, diff: int) returns (shifted: map<u64, u32>)
      ensures shifted == ShiftAll(windows, diff)
    {
      shifted := windows;
      var left := windows.Keys;
      while left != {}
        invariant left <= windows.Keys && shifted.Keys == windows.Keys
        invariant forall id :: id in windows ==>
                    shifted[id] == if id in left then windows[id] else Shift(windows[id], diff)
        decreases left
      {
        var id :| id in left;
        shifted := shifted[id := Shift(shifted[id], diff)];
        left := left - {id};
      }
    }

    method Reset()
      modifies this
      ensures Abstract() == New(old(initialConnectionWindow), old(initialStreamWindow))
    {
      connectionSendWindow, connectionRecvWindow := initialConnectionWindow, initialConnectionWindow;
      streamSendWindows, streamRecvWindows := map[], map[];
      totalBytesSent, totalBytesReceived := 0, 0;
      pendingUpdates := [];
    }
  }
}
