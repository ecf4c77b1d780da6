/**
 The connection's input and output callbacks: they drive the message transport and are the two
 ends of Stream's runs.
 */
module Ipc {
  import opened Bytes
  import opened Msg
  import opened Transport
  import Stream

  /** `msg` is complete in memory and is, byte for byte, the frame `f`. */
  ghost predicate Holds(msg: Message, f: Stream.Frame)
    reads msg`data, msg`size, msg.data
  {
    msg.Whole() && msg.Frame() == f && Stream.WfFrame(f)
  }

  /** Messages that were handed over, with their read cursors at the start. */
  ghost predicate HandedOver(ms: seq<Message>, fs: seq<Stream.Frame>)
    reads ms, set m | m in ms :: m.data
  {
    |ms| == |fs| && forall i :: 0 <= i < |ms| ==> Holds(ms[i], fs[i]) && ms[i].getPos == 0
  }

  lemma HandedNone()
    ensures HandedOver([], [])
  {
  }

  lemma HandOver(ms: seq<Message>, fs: seq<Stream.Frame>, m: Message, f: Stream.Frame)
    requires HandedOver(ms, fs) && Holds(m, f) && m.getPos == 0
    ensures HandedOver(ms + [m], fs + [f])
  {
  }

  class Connection {
    const sock: Socket
    var readMsg: Message?
    var outMsg: seq<Message>
    var disconnect: bool
    /** The bytes of the queued messages. */
    ghost var frames: seq<Stream.Frame>

    constructor (sock: Socket)
      ensures this.sock == sock && readMsg == null && outMsg == [] && !disconnect && ValidOut()
    {
      this.sock := sock;
      readMsg, outMsg, disconnect := null, [], false;
      frames := [];
    }

    // -------------------------------------------------------------- output

    /** The queue holds whole messages; only the first may have started to go out. */
    ghost predicate ValidOut()
      reads this`outMsg, this`frames, outMsg, set m | m in outMsg :: m.data
    {
      Queued() && Stream.WfWriter(Out())
    }

    ghost predicate Queued()
      reads this`outMsg, this`frames, outMsg, set m | m in outMsg :: m.data
      ensures Queued() ==> |frames| == |outMsg|
    {
      && |frames| == |outMsg|
      && (forall i :: 0 <= i < |outMsg| ==> Holds(outMsg[i], frames[i]))
      && (forall i, j :: 0 <= i < j < |outMsg| ==> outMsg[i] != outMsg[j])
      && (forall i :: 1 <= i < |outMsg| ==> outMsg[i].xfered == 0)
    }

    ghost function Out(): (w: Stream.Writer)
      reads this`outMsg, this`frames, outMsg
    {
      Stream.Writer(frames, if outMsg == [] then 0 else outMsg[0].xfered)
    }

    /** xmmsc_ipc_msg_write: stamp the cookie and queue the message. */
    method MsgWrite(msg: Message, cookie: uint32)
      requires ValidOut()
      requires msg.Whole() && HEAD_LEN + msg.Length() < TWO_32 && msg.xfered == 0
      requires forall m :: m in outMsg ==> m != msg && m.data != msg.data
      modifies this`outMsg, this`frames, msg.data
      ensures ValidOut() && outMsg == old(outMsg) + [msg] && msg.Whole()
      ensures msg.Frame() == old(msg.Frame())[..8] + PutU32(cookie) + old(msg.Frame())[12..]
      ensures Out() == Stream.Pushed(old(Out()), msg.Frame()) && Stream.WfFrame(msg.Frame())
    {
      hide Message.Whole, Message.Length, Message.Frame, Stream.WfFrame, PutU32;
      msg.SetCookie(cookie);
      msg.FrameIsWf();
      assert ValidOut();
      Stream.HeadStays(Out(), msg.Frame());
      outMsg, frames := outMsg + [msg], frames + [msg.Frame()];
    }

    /** x_queue_pop_head */
    method PopHead()
      requires Queued() && outMsg != []
      modifies this`outMsg, this`frames
      ensures Queued() && outMsg == old(outMsg)[1..]
      ensures Out() == Stream.Writer(old(frames)[1..], 0)
    {
      hide Holds;
      outMsg, frames := outMsg[1..], frames[1..];
    }

    /** The transport's answer for the first message. */
    method WriteHead() returns (full: bool, disco: bool)
      requires ValidOut() && outMsg != []
      modifies sock`outgoing, sock`last, outMsg`xfered
      ensures disco == sock.Down()
      ensures Queued() && old(outMsg[0].xfered) <= outMsg[0].xfered <= |frames[0]|
      ensures sock.outgoing == old(sock.outgoing) + frames[0][old(outMsg[0].xfered)..outMsg[0].xfered]
      ensures full == (outMsg[0].xfered == |frames[0]|) && (full ==> !disco)
    {
      hide Message.Whole, Message.Length, Message.Frame, Stream.WfWriter, Stream.WfFrame;
      Stream.HeadUnsent(Out());
      assert Holds(outMsg[0], frames[0]);
      outMsg[0].FrameLength();
      full, disco := outMsg[0].WriteTransport(sock);
    }

    /** One pass of the output loop: part of the first message, or all of its rest. */
    method SendHead() returns (full: bool, disco: bool, ghost part: seq<byte>)
      requires ValidOut() && outMsg != []
      modifies this`outMsg, this`frames, sock`outgoing, sock`last, outMsg`xfered
      ensures disco == sock.Down()
      ensures ValidOut() && sock.outgoing == old(sock.outgoing) + part
      ensures Stream.WriteStep(old(Out()), Out(), part)
      ensures outMsg == if full then old(outMsg)[1..] else old(outMsg)
      ensures full ==> !disco
    {
      hide Queued, Stream.WriteStep, Stream.WfWriter;
      ghost var w, f := Out(), frames[0];
      full, disco := WriteHead();
      part := f[w.sent..outMsg[0].xfered];
      if full {
        assert f[w.sent..] == part;
        Stream.WriteRest(w);
        PopHead();
      } else {
        Stream.WriteSome(w, outMsg[0].xfered);
      }
      Stream.WriteStepEnds(w, Out(), part);
    }

    /** xmmsc_ipc_io_out_callback */
    method IoOut() returns (ok: bool, ghost chunk: seq<byte>)
      requires ValidOut() && !disconnect
      modifies this`outMsg, this`frames, this`disconnect, this`readMsg, sock`outgoing, sock`last, outMsg`xfered
      ensures disconnect == (outMsg != [] && sock.Down())
      ensures ValidOut() && sock.outgoing == old(sock.outgoing) + chunk
      ensures Stream.WriteStep(old(Out()), Out(), chunk)
      ensures ok == !disconnect && (ok ==> readMsg == old(readMsg))
    {
      hide Stream.WriteStep, Stream.WfWriter, Holds;
      chunk := [];
      var disco := false;
      ghost var done := 0;
      Stream.WriteNothing(Out());
      while outMsg != []
        invariant ValidOut() && sock.outgoing == old(sock.outgoing) + chunk
        invariant Stream.WriteStep(old(Out()), Out(), chunk)
        invariant done <= |old(outMsg)| && outMsg == old(outMsg)[done..]
        invariant !disco && !disconnect && readMsg == old(readMsg)
        decreases |outMsg|
      {
        ghost var before := Out();
        var full;
        ghost var part;
        full, disco, part := SendHead();
        Stream.WriteThen(old(Out()), before, Out(), chunk, part);
        chunk := chunk + part;
        if !full {
          break;
        }
        done := done + 1;
      }
      if disco {
        Disconnect();
      }
      ok := !disco;
    }

    /** xmmsc_ipc_disconnect: a message that was being received is dropped. */
    method Disconnect()
      modifies this`disconnect, this`readMsg
      ensures disconnect && readMsg == null
    {
      disconnect, readMsg := true, null;
    }

    // -------------------------------------------------------------- input

    ghost function InFrame(): set<object>
      reads this`readMsg, readMsg
    {
      if readMsg == null then {} else var m: Message := readMsg; {m, m.data}
    }

    /** A message being received is not complete, and its read cursor has not moved. */
    ghost predicate ValidIn()
      reads this`readMsg, readMsg, InFrame()
    {
      readMsg != null ==> readMsg.Receiving() && Stream.Unfinished(readMsg.Received()) && readMsg.getPos == 0
    }

    /** The bytes of the next message that have arrived. */
    ghost function Part(): seq<byte>
      reads this`readMsg, readMsg, InFrame()
      requires ValidIn()
    {
      if readMsg == null then [] else readMsg.Received()
    }

    /** A message to read into, unless there is one under way. */
    method NewMessage()
      requires ValidIn()
      modifies this`readMsg
      ensures readMsg != null && ValidIn() && Part() == old(Part())
      ensures if old(readMsg) != null then readMsg == old(readMsg) else fresh(readMsg) && fresh(readMsg.data)
    {
      hide Stream.Unfinished;
      if readMsg == null {
        readMsg := new Message();
        readMsg.FreshIsEmpty();
      }
    }

    /** The length in the header is so large that its sum with the header's own wraps around. */
    predicate Stuck(part: seq<byte>) { Stream.Need(part) < |part| }

    /** One pass of the input loop: bytes off the wire, and perhaps one message complete. */
    method ReadOne() returns (full: bool, disco: bool, ghost chunk: seq<byte>)
      requires ValidIn() && readMsg != null
      modifies sock`incoming, sock`last, readMsg, readMsg.data
      ensures readMsg.Receiving() && readMsg.getPos == 0 && (readMsg.data == old(readMsg.data) || fresh(readMsg.data))
      ensures old(sock.incoming) == chunk + sock.incoming && readMsg.Received() == old(Part()) + chunk
      ensures full ==> !disco && chunk != [] && Holds(readMsg, readMsg.Received())
      ensures !full ==> Stream.Unfinished(readMsg.Received())
      ensures !full ==> if Stuck(readMsg.Received()) then !disco else !sock.last.Moved? && disco == sock.Down()
    {
      hide Stream.Need, Stream.Complete, Stream.WfFrame;
      ghost var was, left := Part(), sock.incoming;
      full, disco := readMsg.ReadTransport(sock);
      ghost var now := readMsg.Received();
      chunk := now[|was|..];
      assert now == was + chunk;
      assert was + left == was + (chunk + sock.incoming);
      assert left == (was + left)[|was|..];
      assert chunk + sock.incoming == (was + (chunk + sock.incoming))[|was|..];
      if full {
        assert chunk == [] ==> now == was;
      } else {
        Stream.NotCompleteYet(now);
      }
    }

    /**
     xmmsc_ipc_io_in_callback, up to xmmsc_ipc_exec_msg: the messages it hands over, in order.
     */
    method IoIn() returns (ok: bool, arrived: seq<Message>, ghost got: seq<Stream.Frame>,
                           ghost chunk: seq<byte>, ghost part: seq<byte>)
      requires ValidIn() && !disconnect
      modifies this`readMsg, this`disconnect, sock`incoming, sock`last, InFrame()
      ensures ValidIn() && old(sock.incoming) == chunk + sock.incoming
      ensures Stream.ReadStep(Stream.Reader([], old(Part())), Stream.Reader(got, part), chunk)
      ensures HandedOver(arrived, got)
      ensures ok == !disconnect
      ensures if ok then Part() == part && (sock.last == TryAgain || Stuck(part)) else readMsg == null && sock.Down()
    {
      hide Stream.ReadStep, Stream.Unfinished, Stream.WfFrame, HandedOver, Message.Received, Message.Whole, Message.Frame;
      arrived, got, chunk, part := [], [], [], Part();
      var disco := false;
      ghost var start := Stream.Reader([], Part());
      Stream.EmptyUnfinished();
      Stream.ReadNothing(start);
      HandedNone();
      while !disco
        invariant ValidIn() && !disco && !disconnect && old(sock.incoming) == chunk + sock.incoming && part == Part()
        invariant Stream.ReadStep(start, Stream.Reader(got, part), chunk)
        invariant HandedOver(arrived, got)
        invariant forall m :: m in arrived ==> m !in InFrame() && m.data !in InFrame()
        invariant fresh(InFrame() - old(InFrame()))
        decreases |sock.incoming|
      {
        NewMessage();
        ghost var r, left := Stream.Reader(got, Part()), sock.incoming;
        var full;
        ghost var c;
        full, disco, c := ReadOne();
        assert chunk + (c + sock.incoming) == (chunk + c) + sock.incoming;
        ghost var now := readMsg.Received();
        Stream.ReadOn(start, r, chunk, full, now, c);
        if full {
          HandOver(arrived, got, readMsg, now);
          arrived, got := arrived + [readMsg], got + [now];
          readMsg := null;
        }
        chunk, part := chunk + c, Part();
        if !full {
          break;
        }
      }
      if disco {
        Disconnect();
      }
      ok := !disco;
    }
  }
}
