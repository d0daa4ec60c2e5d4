/** How a receive ends without a message, stated over frames (sections 5.4, 5.5.1 and 7.4.1 of
    RFC 6455): the bytes it sends are written out, and where the stream is left is said. */
module Refusals {
  import opened Bits
  import opened Wrappers
  import opened WebSocket
  import opened Connections
  import opened Reassembly

  /** Frames that are all acceptable and break no rule, but finish no message either. */
  predicate Pending(ws: seq<Wire>, a: Assembly, cfg: Config) {
    var d := DataFrames(ws);
    && (forall w <- ws :: Acceptable(w, cfg))
    && (forall i :: 0 <= i < |d| ==> !d[i].fin && (d[i].opcode == CONTINUATION) == (a.fragmenting || i > 0))
    && |a.message| + |Payloads(d)| <= cfg.cap
  }

  /** What has been gathered behind such frames. */
  function Gathered(ws: seq<Wire>, a: Assembly): Assembly {
    Assembly(Message(ws, a), a.fragmenting || DataFrames(ws) != [])
  }

  lemma PendingStep(w: Wire, ws: seq<Wire>, a: Assembly, cfg: Config)
    requires Pending([w] + ws, a, cfg)
    ensures Acceptable(w, cfg)
    ensures !IsData(w) ==> Pending(ws, a, cfg)
    ensures IsData(w) ==> Pending(ws, Assembly(a.message + w.payload, true), cfg)
    ensures IsData(w) ==> !w.fin && (w.opcode == CONTINUATION) == a.fragmenting && |a.message| + |w.payload| <= cfg.cap
  {
    hide Acceptable;
    ConsFrames(w, ws);
    AcceptableStep(w, ws, cfg);
    var d := DataFrames(ws);
    if IsData(w) {
      ConsFrames(w, d);
      var e := [w] + d;
      assert DataFrames([w] + ws) == e && e[0] == w;
      forall i | 0 <= i < |d| ensures !d[i].fin && d[i].opcode == CONTINUATION {
        assert e[i + 1] == d[i];
      }
    }
  }

  /** The turn of the loop on a pending frame. */
  lemma PendingTurn(w: Wire, ws: seq<Wire>, a: Assembly, cfg: Config)
    requires ValidWire(w) && Pending([w] + ws, a, cfg) && Consistent(a)
    ensures var next := Handle(WireFrame(w), a, cfg);
      && next.Continue? && Consistent(next.assembly) && Pending(ws, next.assembly, cfg)
      && Gathered(ws, next.assembly) == Gathered([w] + ws, a)
      && next.reply + Pongs(ws) == Pongs([w] + ws)
  {
    hide Encode, Pending;
    PendingStep(w, ws, a, cfg);
    MessageStep(w, ws, a, cfg);
    ConsFrames(w, ws);
    if !a.fragmenting { assert a.message + w.payload == w.payload; }
  }

  /** Pending frames are taken in: their pings are answered, their data is gathered, and the receive
      goes on behind them. */
  lemma {:induction false} PendingGathers(ws: seq<Wire>, rest: Bytes, a: Assembly, cfg: Config)
    requires ValidConfig(cfg) && Consistent(a) && AllValid(ws) && Pending(ws, a, cfg)
    ensures Received(EncodeAll(ws) + rest, a, cfg) == Prepend(Pongs(ws), Received(rest, Gathered(ws, a), cfg))
    ensures Consistent(Gathered(ws, a))
    decreases |ws|
  {
    hide PullFrame, Handle, EncodeAll, Pongs, Encode, Pending, Acceptable, Gathered;
    if ws == [] {
      EncodeAllEmpty(rest);
      NothingGathered(a, Received(rest, a, cfg));
    } else {
      var w, ws' := ws[0], ws[1..];
      assert ws == [w] + ws';
      PendingStep(w, ws', a, cfg);
      EncodeAllStep(w, ws', rest);
      AcceptableIs(w, cfg);
      PullEncoded(w, EncodeAll(ws') + rest, cfg);
      PendingTurn(w, ws', a, cfg);
      var next := Handle(WireFrame(w), a, cfg);
      PendingGathers(ws', rest, next.assembly, cfg);
      PrependTwice(next.reply, Pongs(ws'), Received(rest, Gathered(ws, a), cfg));
    }
  }

  lemma AcceptableIs(w: Wire, cfg: Config)
    requires Acceptable(w, cfg)
    ensures ValidWire(w) && |w.payload| <= cfg.cap && (cfg.requireMasked ==> w.mask.Some?)
  {}

  lemma NothingGathered(a: Assembly, o: Outcome)
    requires Consistent(a)
    ensures Gathered([], a) == a && Consistent(Gathered([], a)) && Prepend(Pongs([]), o) == o
  {
    assert a.message + [] == a.message && [] + o.sent == o.sent;
  }

  // ---- the endings ----

  const PROTOCOL_ERROR: Bytes := [0x88, 2, 0x03, 0xEA]   // 1002

  const TOO_BIG: Bytes := [0x88, 2, 0x03, 0xF1]          // 1009

  /** A close frame's answer: its own two bytes of status, or none. */
  function CloseEcho(payload: Bytes): Bytes {
    if |payload| >= 2 then [0x88, 2, payload[0], payload[1]] else [0x88, 0]
  }

  lemma StatusBytes(code: nat)
    requires code < 0x1_0000
    ensures CloseBytes(code) == [0x88, 2, code / 256, code % 256]
  {
    assert ToBigEndian(code / 256, 1) == [code / 256];
  }

  /** The echo is a close frame that carries the peer's status and nothing else. */
  lemma EchoIsCloseFrame(payload: Bytes)
    ensures CloseEcho(payload) == Encode(DataWire(CLOSE, if |payload| >= 2 then payload[..2] else []))
  {
    var p := if |payload| >= 2 then payload[..2] else [];
    assert Head(DataWire(CLOSE, p)) == [0x88, |p|] && Extension(DataWire(CLOSE, p)) == [];
  }

  lemma EndsHere(ws: seq<Wire>, tail: Bytes, a: Assembly, cfg: Config, reply: Bytes, left: Bytes)
    requires ValidConfig(cfg) && Consistent(a) && AllValid(ws) && Pending(ws, a, cfg)
    requires Received(tail, Gathered(ws, a), cfg) == Outcome(None, reply, left)
    ensures Received(EncodeAll(ws) + tail, a, cfg) == Outcome(None, Pongs(ws) + reply, left)
  {
    hide *;
    PendingGathers(ws, tail, a, cfg);
    PrependIs(Pongs(ws), Outcome(None, reply, left));
  }

  lemma PrependIs(reply: Bytes, o: Outcome)
    ensures Prepend(reply, o) == Outcome(o.message, reply + o.sent, o.rest)
  {}

  /** A close frame ends the receive with an echo of its status, behind the pongs still owed; the
      stream is left behind it. */
  lemma CloseEnds(ws: seq<Wire>, w: Wire, rest: Bytes, a: Assembly, cfg: Config)
    requires ValidConfig(cfg) && Consistent(a) && AllValid(ws) && Pending(ws, a, cfg)
    requires ValidWire(w) && |w.payload| <= cfg.cap && (cfg.requireMasked ==> w.mask.Some?) && w.opcode == 0x8
    ensures Received(EncodeAll(ws) + (Encode(w) + rest), a, cfg) == Outcome(None, Pongs(ws) + CloseEcho(w.payload), rest)
  {
    hide PullFrame, Encode, EncodeAll, Pongs, Pending, Gathered;
    PullEncoded(w, rest, cfg);
    if |w.payload| >= 2 {
      var code := 256 * (w.payload[0] as nat) + w.payload[1] as nat;
      StatusBytes(code);
      assert code / 256 == w.payload[0] && code % 256 == w.payload[1];
    }
    EndsHere(ws, Encode(w) + rest, a, cfg, CloseEcho(w.payload), rest);
  }

  /** Where masks are required, an unmasked frame of whatever kind ends the receive with status 1002
      and stays on the stream. */
  lemma UnmaskedEnds(ws: seq<Wire>, w: Wire, rest: Bytes, a: Assembly, cfg: Config)
    requires ValidConfig(cfg) && Consistent(a) && AllValid(ws) && Pending(ws, a, cfg)
    requires ValidWire(w) && |w.payload| <= cfg.cap && cfg.requireMasked && w.mask.None?
    ensures Received(EncodeAll(ws) + (Encode(w) + rest), a, cfg)
      == Outcome(None, Pongs(ws) + PROTOCOL_ERROR, Encode(w) + rest)
  {
    hide ParsedFrame, Encode, EncodeAll, Pongs, Pending, Gathered;
    ParseEncode(w, rest, cfg.cap);
    StatusBytes(1002);
    EndsHere(ws, Encode(w) + rest, a, cfg, PROTOCOL_ERROR, Encode(w) + rest);
  }

  /** A continuation with no message in progress, or a new data frame inside one, ends the receive
      with status 1002 behind it. */
  lemma MisplacedEnds(ws: seq<Wire>, w: Wire, rest: Bytes, a: Assembly, cfg: Config)
    requires ValidConfig(cfg) && Consistent(a) && AllValid(ws) && Pending(ws, a, cfg)
    requires Acceptable(w, cfg) && w.opcode in {0x0, 0x1, 0x2}
    requires (w.opcode == 0x0) != (a.fragmenting || DataFrames(ws) != [])
    ensures Received(EncodeAll(ws) + (Encode(w) + rest), a, cfg) == Outcome(None, Pongs(ws) + PROTOCOL_ERROR, rest)
  {
    hide PullFrame, Encode, EncodeAll, Pongs, Pending;
    PullEncoded(w, rest, cfg);
    StatusBytes(1002);
    EndsHere(ws, Encode(w) + rest, a, cfg, PROTOCOL_ERROR, rest);
  }

  /** A fragment that takes its message over the cap ends the receive with status 1009 behind it. */
  lemma OversizedMessageEnds(ws: seq<Wire>, w: Wire, rest: Bytes, a: Assembly, cfg: Config)
    requires ValidConfig(cfg) && Consistent(a) && AllValid(ws) && Pending(ws, a, cfg)
    requires Acceptable(w, cfg) && w.opcode == 0x0 && (a.fragmenting || DataFrames(ws) != [])
    requires |Message(ws, a)| + |w.payload| > cfg.cap
    ensures Received(EncodeAll(ws) + (Encode(w) + rest), a, cfg) == Outcome(None, Pongs(ws) + TOO_BIG, rest)
  {
    hide PullFrame, Encode, EncodeAll, Pongs, Pending, Message;
    PullEncoded(w, rest, cfg);
    StatusBytes(1009);
    EndsHere(ws, Encode(w) + rest, a, cfg, TOO_BIG, rest);
  }

  /** A frame that declares more than the cap ends the receive with status 1009 once its length is
      there, however little of it has been sent, and stays on the stream. */
  lemma OversizedFrameEnds(ws: seq<Wire>, w: Wire, k: nat, more: Bytes, a: Assembly, cfg: Config)
    requires ValidConfig(cfg) && Consistent(a) && AllValid(ws) && Pending(ws, a, cfg)
    requires ValidWire(w) && |w.payload| > cfg.cap && 2 + |Extension(w)| <= k <= |Encode(w)|
    ensures var tail := Encode(w)[..k] + more;
      Received(EncodeAll(ws) + tail, a, cfg) == Outcome(None, Pongs(ws) + TOO_BIG, tail)
  {
    hide ParsedFrame, Encode, EncodeAll, Pongs, Pending, Gathered;
    RefusedAtOnce(w, k, more, cfg.cap);
    StatusBytes(1009);
    var tail := Encode(w)[..k] + more;
    EndsHere(ws, tail, a, cfg, TOO_BIG, tail);
  }

  /** A stream that breaks off inside a frame ends the receive without another word. */
  lemma BrokenOffEnds(ws: seq<Wire>, w: Wire, k: nat, a: Assembly, cfg: Config)
    requires ValidConfig(cfg) && Consistent(a) && AllValid(ws) && Pending(ws, a, cfg)
    requires ValidWire(w) && |w.payload| <= cfg.cap && k < |Encode(w)|
    ensures Received(EncodeAll(ws) + Encode(w)[..k], a, cfg) == Outcome(None, Pongs(ws), Encode(w)[..k])
  {
    hide ParsedFrame, Encode, EncodeAll, Pongs, Pending, Gathered;
    PrefixIncomplete(w, k, cfg.cap);
    EndsHere(ws, Encode(w)[..k], a, cfg, [], Encode(w)[..k]);
    assert Pongs(ws) + [] == Pongs(ws);
  }

  // ---- whole sessions ----

  /** A session is message after message: frames that complete one hand it over and the session goes
      on behind them. */
  lemma SessionDelivers(ws: seq<Wire>, rest: Bytes, cfg: Config)
    requires ValidConfig(cfg) && AllValid(ws) && Completes(ws, FRESH, cfg)
    ensures Session(EncodeAll(ws) + rest, cfg)
      == Transcript([Payloads(DataFrames(ws))] + Session(rest, cfg).messages, Pongs(ws) + Session(rest, cfg).sent)
  {
    hide Received, EncodeAll, Pongs, Completes;
    Reassembles(ws, rest, FRESH, cfg);
    assert [] + Payloads(DataFrames(ws)) == Payloads(DataFrames(ws));
  }

  /** It is over with the first receive that ends without one. */
  lemma SessionEnds(stream: Bytes, cfg: Config)
    requires ValidConfig(cfg) && Received(stream, FRESH, cfg).message.None?
    ensures Session(stream, cfg) == Transcript([], Received(stream, FRESH, cfg).sent)
  {
    hide Received;
  }

  /** The opcodes of section 5.2 of RFC 6455. */
  lemma Opcodes()
    ensures CONTINUATION == 0x0 && TEXT == 0x1 && BINARY == 0x2 && CLOSE == 0x8 && PING == 0x9 && PONG == 0xA
  {}

  /** The length of a payload: one byte up to 125, two more behind 126, or eight behind 127; the mask
      bit goes into the first. */
  function LengthBytes(form: Form, n: nat, mask: bool): (r: Bytes)
    requires Fits(form, n)
    ensures r != []
  {
    var m := if mask then 0x80 else 0;
    match form
    case Short => [m + n]
    case Medium => [m + 126, n / 0x100, n % 0x100]
    case Long =>
      assert n / 0x100_0000_0000_0000 < 0x100;
      [m + 127, n / 0x100_0000_0000_0000, n / 0x1_0000_0000_0000 % 0x100, n / 0x100_0000_0000 % 0x100,
       n / 0x1_0000_0000 % 0x100, n / 0x100_0000 % 0x100, n / 0x1_0000 % 0x100, n / 0x100 % 0x100, n % 0x100]
  }

  /** The bytes of a frame, written out: the fin bit before the opcode, the length with the mask bit,
      then the key, and the payload masked with it. */
  lemma FrameSpelled(w: Wire)
    requires ValidWire(w) && w.rsv == 0
    ensures Encode(w) == [(if w.fin then 0x80 else 0) + w.opcode] + LengthBytes(w.form, |w.payload|, w.mask.Some?)
      + (if w.mask.Some? then w.mask.value + ApplyMask(w.mask.value, w.payload) else w.payload)
  {
    LengthSpelled(w.form, |w.payload|, w.mask.Some?);
    hide ApplyMask, LengthField, LengthBytes;
    var first := LengthField(w.form, |w.payload|);
    var size := [(if w.mask.Some? then 0x80 else 0) + first[0]] + first[1..];
    assert Head(w) + first[1..] == [Head(w)[0]] + size;
    hide Head;
    assert Head(w) + Extension(w) + Key(w) + Body(w) == Head(w) + Extension(w) + (Key(w) + Body(w));
    if w.mask.None? { assert [] + w.payload == w.payload; }
  }

  lemma LengthSpelled(form: Form, n: nat, mask: bool)
    requires Fits(form, n)
    ensures var first := LengthField(form, n);
      LengthBytes(form, n, mask) == [(if mask then 0x80 else 0) + first[0]] + first[1..]
  {
    hide ToBigEndian;
    if form.Medium? { TwoBytes(n); }
    if form.Long? { EightBytes(n); }
  }

  lemma TwoBytes(n: nat)
    requires n < 0x1_0000
    ensures ToBigEndian(n, 2) == [n / 256, n % 256]
  {
    assert ToBigEndian(n / 256, 1) == [n / 256];
  }

  lemma EightBytes(n: nat)
    requires n < TWO_TO_THE_64
    ensures n / 0x100_0000_0000_0000 < 256
    ensures ToBigEndian(n, 8) == [n / 0x100_0000_0000_0000, n / 0x1_0000_0000_0000 % 256, n / 0x100_0000_0000 % 256,
      n / 0x1_0000_0000 % 256, n / 0x100_0000 % 256, n / 0x1_0000 % 256, n / 0x100 % 256, n % 256]
  {
    hide ToBigEndian;
    var n1, n2, n3, n4 := n / 256, n / 0x1_0000, n / 0x100_0000, n / 0x1_0000_0000;
    var n5, n6, n7 := n / 0x100_0000_0000, n / 0x1_0000_0000_0000, n / 0x100_0000_0000_0000;
    assert n1 / 256 == n2 && n2 / 256 == n3 && n3 / 256 == n4 && n4 / 256 == n5 && n5 / 256 == n6 && n6 / 256 == n7;
    BytesStep(n, 7);
    BytesStep(n1, 6);
    BytesStep(n2, 5);
    BytesStep(n3, 4);
    BytesStep(n4, 3);
    BytesStep(n5, 2);
    BytesStep(n6, 1);
    BytesStep(n7, 0);
  }

  lemma BytesStep(n: nat, width: nat)
    ensures ToBigEndian(n, width + 1) == ToBigEndian(n / 256, width) + [n % 256] && ToBigEndian(n, 0) == []
  {}

  /** Masking flips the bits of each byte that are set in its key byte, and no others. */
  lemma MaskFlips(key: Bytes, data: Bytes, j: nat, k: nat)
    requires |key| == 4 && j < |data| && k < 8
    ensures Power2(k) > 0
    ensures ApplyMask(key, data)[j] / Power2(k) % 2 ==
      if key[j % 4] / Power2(k) % 2 == 1 then 1 - data[j] / Power2(k) % 2 else data[j] / Power2(k) % 2
  {
    hide XorBits, Power2;
    XorBitwise(data[j], key[j % 4], 8, k);
    XorOf(data[j], key[j % 4]);
    SumOfBits(data[j] / Power2(k), key[j % 4] / Power2(k));
  }

  lemma XorOf(a: Byte, b: Byte)
    ensures Xor(a, b) == XorBits(a, b, 8)
  {
    hide XorBits;
  }

  lemma SumOfBits(a: nat, b: nat)
    ensures (a + b) % 2 == if b % 2 == 1 then 1 - a % 2 else a % 2
  {}
}
