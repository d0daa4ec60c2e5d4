/** The receive loop of include/websocket_server.hpp. The socket is a list of chunks still to
    be read and a log of the bytes written. */
module Connections {
  import opened Wrappers
  import opened WebSocket

  datatype Config = Config(cap: nat, requireMasked: bool)

  const CHUNK: nat := 4096

  /** The cap leaves room for a frame header in 64 bits, so the frame reader cannot overrun. */
  predicate ValidConfig(cfg: Config) {
    cfg.cap + 14 < TWO_TO_THE_64
  }

  /** The locals of `receive`: the fragments gathered so far. */
  datatype Assembly = Assembly(message: Bytes, fragmenting: bool)

  const FRESH := Assembly([], false)

  datatype Next =
    | Continue(assembly: Assembly, reply: Bytes)
    | Deliver(message: Bytes)
    | Stop(reply: Bytes)

  /** A close is echoed with the peer's own status code, or without one. */
  function CloseReply(payload: Bytes): Bytes {
    if |payload| >= 2 then CloseBytes(256 * (payload[0] as nat) + payload[1] as nat) else [136, 0]
  }

  function Reply(next: Next): Bytes {
    if next.Deliver? then [] else next.reply
  }

  /** One turn of the opcode switch. Reserved opcodes have no case and are passed over. */
  function Handle(f: Frame, a: Assembly, cfg: Config): Next {
    if f.opcode == CLOSE then
      Stop(CloseReply(f.payload))
    else if f.opcode == PING then Continue(a, PongBytes(f.payload))
    else if f.opcode == TEXT || f.opcode == BINARY then
      if a.fragmenting then Stop(CloseBytes(1002))
      else if f.fin then Deliver(f.payload)
      else Continue(Assembly(f.payload, true), [])
    else if f.opcode == CONTINUATION then
      if !a.fragmenting then Stop(CloseBytes(1002))
      else if |a.message| + |f.payload| > cfg.cap then Stop(CloseBytes(1009))
      else if f.fin then Deliver(a.message + f.payload)
      else Continue(Assembly(a.message + f.payload, true), [])
    else Continue(a, [])
  }

  datatype Outcome = Outcome(message: Option<Bytes>, sent: Bytes, rest: Bytes)

  /** A frame taken off the stream, or the refusal sent instead. */
  datatype Pull = Pulled(frame: Frame, after: Bytes) | Refused(reply: Bytes)

  function PullFrame(stream: Bytes, cfg: Config): (p: Pull)
    requires ValidConfig(cfg)
    ensures p.Pulled? ==> |p.after| < |stream| && |p.frame.payload| <= cfg.cap
  {
    ParseProgress(stream, cfg.cap);
    var f := ParsedFrame(stream, cfg.cap);
    if f.tooBig then Refused(CloseBytes(1009))
    else if !f.ok then Refused([])
    else if cfg.requireMasked && !f.masked then Refused(CloseBytes(1002))
    else Pulled(f, stream[f.consumed..])
  }

  /** What one `receive` does with a peer's whole remaining byte stream, had it all arrived. */
  function Received(stream: Bytes, a: Assembly, cfg: Config): (o: Outcome)
    requires ValidConfig(cfg)
    ensures o.message.Some? ==> |o.rest| < |stream|
    decreases |stream|
  {
    match PullFrame(stream, cfg)
    case Refused(reply) => Outcome(None, reply, stream)
    case Pulled(f, rest) =>
      match Handle(f, a, cfg)
      case Stop(reply) => Outcome(None, reply, rest)
      case Deliver(message) => Outcome(Some(message), [], rest)
      case Continue(a', reply) => Prepend(reply, Received(rest, a', cfg))
  }

  function Prepend(reply: Bytes, o: Outcome): Outcome {
    Outcome(o.message, reply + o.sent, o.rest)
  }

  lemma PrependTwice(a: Bytes, b: Bytes, o: Outcome)
    ensures Prepend(a, Prepend(b, o)) == Prepend(a + b, o)
  {
    assert a + (b + o.sent) == (a + b) + o.sent;
  }

  datatype Transcript = Transcript(messages: seq<Bytes>, sent: Bytes)

  /** Receiving until the first refusal, as `run_terminal` does. */
  function Session(stream: Bytes, cfg: Config): Transcript
    requires ValidConfig(cfg)
    decreases |stream|
  {
    var o := Received(stream, FRESH, cfg);
    if o.message.None? then Transcript([], o.sent)
    else Join(Transcript([o.message.value], o.sent), Session(o.rest, cfg))
  }

  function Join(a: Transcript, b: Transcript): Transcript {
    Transcript(a.messages + b.messages, a.sent + b.sent)
  }

  lemma JoinAssociative(a: Transcript, b: Transcript, c: Transcript)
    ensures Join(Join(a, b), c) == Join(a, Join(b, c))
  {
    assert a.messages + b.messages + c.messages == a.messages + (b.messages + c.messages);
    assert a.sent + b.sent + c.sent == a.sent + (b.sent + c.sent);
  }

  function Flat(chunks: seq<Bytes>): Bytes {
    if chunks == [] then [] else chunks[0] + Flat(chunks[1..])
  }

  predicate Chunked(chunks: seq<Bytes>) {
    forall c <- chunks :: 0 < |c| <= CHUNK
  }

  class Connection {
    const cfg: Config
    var buf: Bytes               // bytes read from the socket and not yet consumed
    var incoming: seq<Bytes>     // what each further recv() will hand over, until it fails
    var sent: Bytes              // everything written to the socket
    ghost var peak: nat          // the largest size the buffer ever had

    ghost predicate Valid()
      reads this
    {
      ValidConfig(cfg) && Chunked(incoming) && |buf| <= peak <= cfg.cap + 13 + CHUNK
    }

    /** The peer's bytes that no frame has consumed yet. */
    ghost function Stream(): Bytes
      reads this
    {
      buf + Flat(incoming)
    }

    constructor (cfg: Config, incoming: seq<Bytes>)
      requires ValidConfig(cfg) && Chunked(incoming)
      ensures Valid() && this.cfg == cfg && Stream() == Flat(incoming) && sent == []
    {
      this.cfg := cfg;
      this.incoming := incoming;
      buf, sent, peak := [], [], 0;
    }

    method SendControl(bytes: Bytes)
      modifies this`sent
      ensures sent == old(sent) + bytes
    {
      sent := sent + bytes;
    }

    /** Read until the buffer starts with a frame or a refusable header, or the socket ends. */
    method ReadFrame() returns (f: Frame, alive: bool)
      requires Valid()
      modifies this`buf, this`incoming, this`peak
      ensures Valid() && Stream() == old(Stream())
      ensures f == ParsedFrame(Stream(), cfg.cap)
      ensures alive <==> f.ok || f.tooBig
      ensures alive ==> f == ParsedFrame(buf, cfg.cap)
    {
      f := ParseFrame(buf, cfg.cap);
      while !f.ok && !f.tooBig
        invariant Valid() && Stream() == old(Stream())
        invariant f == ParsedFrame(buf, cfg.cap)
        decreases |incoming|
      {
        if incoming == [] {
          assert buf + Flat(incoming) == buf;
          return f, false;
        }
        ParseProgress(buf, cfg.cap);
        var chunk := incoming[0];
        assert buf + Flat(incoming) == (buf + chunk) + Flat(incoming[1..]);
        buf, incoming := buf + chunk, incoming[1..];
        peak := if |buf| > peak then |buf| else peak;
        f := ParseFrame(buf, cfg.cap);
      }
      ParseStable(buf, Flat(incoming), cfg.cap);
      alive := true;
    }

    /** The part of the receive loop before the opcode switch: refuse, or take one frame. */
    method TakeFrame() returns (r: Option<Frame>, refusal: Bytes)
      requires Valid()
      modifies this
      ensures Valid()
      ensures match PullFrame(old(Stream()), cfg)
        case Pulled(f, after) => r == Some(f) && Stream() == after && sent == old(sent)
        case Refused(reply) => r == None && refusal == reply && Stream() == old(Stream()) && sent == old(sent) + reply
    {
      ParseProgress(Stream(), cfg.cap);
      var f, alive := ReadFrame();
      if !alive { return None, []; }
      if f.tooBig {
        SendControl(CloseBytes(1009));
        return None, CloseBytes(1009);
      }
      if cfg.requireMasked && !f.masked {
        SendControl(CloseBytes(1002));
        return None, CloseBytes(1002);
      }
      ParseProgress(buf, cfg.cap);
      assert Stream()[f.consumed..] == buf[f.consumed..] + Flat(incoming);
      buf := buf[f.consumed..];
      return Some(f), [];
    }

    /** The opcode switch: `message` and `fragmenting` are the loop's locals; the result says
        whether the loop goes on, returns a message, or gives up. */
    method Dispatch(f: Frame, message: Bytes, fragmenting: bool) returns (next: Next)
      requires Valid()
      modifies this`sent
      ensures next == Handle(f, Assembly(message, fragmenting), cfg)
      ensures sent == old(sent) + Reply(next)
    {
      next := Continue(Assembly(message, fragmenting), []);
      if f.opcode == CLOSE {
        next := Stop(CloseReply(f.payload));
      } else if f.opcode == PING {
        next := Continue(Assembly(message, fragmenting), PongBytes(f.payload));
      } else if f.opcode == TEXT || f.opcode == BINARY {
        if fragmenting {
          next := Stop(CloseBytes(1002));
        } else if f.fin {
          next := Deliver(f.payload);
        } else {
          next := Continue(Assembly(f.payload, true), []);
        }
      } else if f.opcode == CONTINUATION {
        if !fragmenting {
          next := Stop(CloseBytes(1002));
        } else if |message| + |f.payload| > cfg.cap {
          next := Stop(CloseBytes(1009));
        } else if f.fin {
          next := Deliver(message + f.payload);
        } else {
          next := Continue(Assembly(message + f.payload, true), []);
        }
      }
      SendControl(Reply(next));
    }

    /** One turn of the receive loop. */
    method Turn(message: Bytes, fragmenting: bool) returns (next: Next)
      requires Valid()
      modifies this
      ensures Valid()
      ensures var now := Received(old(Stream()), Assembly(message, fragmenting), cfg);
        match next
        case Stop(reply) => now == Outcome(None, reply, Stream()) && sent == old(sent) + reply
        case Deliver(whole) => now == Outcome(Some(whole), [], Stream()) && sent == old(sent)
        case Continue(a, reply) =>
          && now == Prepend(reply, Received(Stream(), a, cfg)) && sent == old(sent) + reply
          && |Stream()| < |old(Stream())|
    {
      hide ParsedFrame, Handle;
      var frame, refusal := TakeFrame();
      if frame.None? { return Stop(refusal); }
      next := Dispatch(frame.value, message, fragmenting);
    }

    /** `receive`: whatever the chunking, the answer, the bytes sent and the bytes left over
        are those of the unsplit stream. */
    method Receive() returns (r: Option<Bytes>)
      requires Valid()
      modifies this
      ensures Valid()
      ensures var o := Received(old(Stream()), FRESH, cfg);
        r == o.message && sent == old(sent) + o.sent && Stream() == o.rest
    {
      hide Received;
      var message: Bytes := [];
      var fragmenting := false;
      ghost var o := Received(Stream(), FRESH, cfg);
      ghost var replies: Bytes := [];
      while true
        invariant Valid() && sent == old(sent) + replies
        invariant o == Prepend(replies, Received(Stream(), Assembly(message, fragmenting), cfg))
        decreases |Stream()|
      {
        var next := Turn(message, fragmenting);
        AppendTwice(old(sent), replies, Reply(next));
        if next.Stop? { return None; }
        if next.Deliver? { return Some(next.message); }
        message, fragmenting := next.assembly.message, next.assembly.fragmenting;
        PrependTwice(replies, next.reply, Received(Stream(), next.assembly, cfg));
        replies := replies + next.reply;
      }
    }

    /** `run_terminal`: the inputs handed over, in order, and every byte written, are those
        of the unsplit stream. */
    method RunTerminal() returns (inputs: seq<Bytes>)
      requires Valid()
      modifies this
      ensures Valid()
      ensures var t := Session(old(Stream()), cfg); inputs == t.messages && sent == old(sent) + t.sent
    {
      hide Received;
      inputs := [];
      ghost var whole := Session(Stream(), cfg);
      ghost var replies: Bytes := [];
      var more := true;
      while more
        invariant Valid() && sent == old(sent) + replies
        invariant more ==> whole == Join(Transcript(inputs, replies), Session(Stream(), cfg))
        invariant !more ==> whole == Transcript(inputs, replies)
        decreases more, |Stream()|
      {
        ghost var o := Received(Stream(), FRESH, cfg);
        var msg := Receive();
        if msg.Some? {
          AppendTwice(old(sent), replies, o.sent);
          JoinAssociative(Transcript(inputs, replies), Transcript([msg.value], o.sent), Session(o.rest, cfg));
          inputs := inputs + [msg.value];
        } else {
          more := false;
        }
        replies := replies + o.sent;
      }
    }
  }
}
