/** The stream object: state, flags and windows updated in place. */
module StreamStates {
  import opened Bytes
  import opened Frames
  import opened Streams

  class StreamState {
    const id: u64
    var state: StreamStateType
    var sendWindow: u32
    var recvWindow: u32
    const initialWindowSize: u32
    var headersReceived: bool
    var headersSent: bool
    var endStreamReceived: bool
    var endStreamSent: bool
    const priority: StreamPriority
    const streamType: StreamType
    var bytesSent: nat
    var bytesReceived: nat
    var lastActivity: nat
    var reset: bool
    var resetErrorCode: Option<u64>

    ghost function Abstract(): Stream
      reads this
    {
      Stream(id, state, sendWindow, recvWindow, initialWindowSize, headersReceived, headersSent, endStreamReceived,
             endStreamSent, priority, streamType, bytesSent, bytesReceived, lastActivity, reset, resetErrorCode)
    }

    constructor (id: u64, config: StreamConfig, now: nat)
      ensures Abstract() == New(id, config, now)
    {
      this.id, state := id, Idle;
      sendWindow, recvWindow, initialWindowSize :=
        config.initialWindowSize, config.initialWindowSize, config.initialWindowSize;
      headersReceived, headersSent, endStreamReceived, endStreamSent := false, false, false, false;
      priority, streamType := config.priority, TypeOfId(id);
      bytesSent, bytesReceived, lastActivity := 0, 0, now;
      reset, resetErrorCode := false, None;
    }

    predicate CanSend()
      reads this
    {
      Sending(state)
    }

    method ProcessFrame(frame: H3Frame) returns (r: Result<seq<StreamEvent>, StreamError>)
      modifies this
      ensures (Abstract(), r) == Streams.ProcessFrame(old(Abstract()), frame)
    {
      var events: seq<StreamEvent> := [];
      match frame
      case Headers(_, _, end, _) =>
        if !headersReceived {
          headersReceived := true;
          events := [HeadersReceived(id)];
        }
        if end {
          endStreamReceived := true;
          events := events + [EndStreamReceived(id)];
          var ended := UpdateStateOnEndStreamReceived();
          if ended.Err? {
            return Err(ended.error);
          }
        }
        return Ok(events);
      case Data(_, data, end) =>
        if |data| > recvWindow {
          return Err(WindowTooSmall);
        }
        recvWindow := recvWindow - |data|;
        events := [DataReceived(id, data)];
        if end {
          endStreamReceived := true;
          events := events + [EndStreamReceived(id)];
          var ended := UpdateStateOnEndStreamReceived();
          if ended.Err? {
            return Err(ended.error);
          }
        }
        return Ok(events);
      case _ =>
        return Ok(events);
    }

    method UpdateStateOnEndStreamReceived() returns (r: Result<(), StreamError>)
      modifies this
      ensures (Abstract(), r) == EndReceived(old(Abstract()))
    {
      match state {
        case Open => state := HalfClosedRemote;
        case HalfClosedLocal => state := Closed;
        case _ => return Err(WrongState(state));
      }
      return Ok(());
    }

    /** Sets the flag first and refuses the transition afterwards. */
    method UpdateStateOnEndStreamSent() returns (r: Result<(), StreamError>)
      modifies this
      ensures (Abstract(), r) == EndSent(old(Abstract()))
    {
      endStreamSent := true;
      match state {
        case Open => state := HalfClosedLocal;
        case HalfClosedRemote => state := Closed;
        case _ => return Err(WrongState(state));
      }
      return Ok(());
    }

    method Reset(code: u64, now: nat)
      modifies this
      ensures Abstract() == Streams.Reset(old(Abstract()), code, now)
    {
      state := Closed;
      reset := true;
      resetErrorCode := Some(code);
      lastActivity := now;
    }

    method Open(now: nat) returns (r: Result<(), StreamError>)
      modifies this
      ensures (Abstract(), r) == OpenStream(old(Abstract()), now)
    {
      if !state.Idle? {
        return Err(WrongState(state));
      }
      state := StreamStateType.Open;
      lastActivity := now;
      return Ok(());
    }

    method SendHeaders(end: bool, now: nat) returns (r: Result<(), StreamError>)
      modifies this
      ensures (Abstract(), r) == Streams.SendHeaders(old(Abstract()), end, now)
    {
      if !CanSend() {
        return Err(WrongState(state));
      }
      if headersSent {
        return Err(HeadersAlreadySent);
      }
      headersSent := true;
      lastActivity := now;
      r := Ok(());
      if end {
        r := UpdateStateOnEndStreamSent();
      }
    }

    method SendData(length: nat, end: bool, now: nat) returns (r: Result<(), StreamError>)
      modifies this
      ensures (Abstract(), r) == Streams.SendData(old(Abstract()), length, end, now)
    {
      if !CanSend() {
        return Err(WrongState(state));
      }
      if length > sendWindow {
        return Err(WindowTooSmall);
      }
      sendWindow := sendWindow - length;
      bytesSent := bytesSent + length;
      lastActivity := now;
      r := Ok(());
      if end {
        r := UpdateStateOnEndStreamSent();
      }
    }

    method UpdateSendWindow(increment: u32, now: nat) returns (r: Result<(), StreamError>)
      modifies this
      ensures (Abstract(), r) == Streams.UpdateSendWindow(old(Abstract()), increment, now)
    {
      if sendWindow + increment >= TWO_TO_32 {
        return Err(WindowOverflow);
      }
      sendWindow := sendWindow + increment;
      lastActivity := now;
      return Ok(());
    }

    method UpdateRecvWindow(increment: u32, now: nat) returns (r: Result<(), StreamError>)
      modifies this
      ensures (Abstract(), r) == Streams.UpdateRecvWindow(old(Abstract()), increment, now)
    {
      if recvWindow + increment >= TWO_TO_32 {
        return Err(WindowOverflow);
      }
      recvWindow := recvWindow + increment;
      lastActivity := now;
      return Ok(());
    }
  }
}
