/** What the receive loop delivers, stated over frames instead of bytes (sections 5.4 and 5.5
    of RFC 6455). */
module Reassembly {
  import opened Wrappers
  import opened WebSocket
  import opened Connections

  predicate IsData(w: Wire) {
    w.opcode == CONTINUATION || w.opcode == TEXT || w.opcode == BINARY
  }

  function DataFrames(ws: seq<Wire>): seq<Wire> {
    if ws == [] then [] else (if IsData(ws[0]) then [ws[0]] else []) + DataFrames(ws[1..])
  }

  function Payloads(ws: seq<Wire>): Bytes {
    if ws == [] then [] else ws[0].payload + Payloads(ws[1..])
  }

  /** One pong for each ping, in order. */
  function Pongs(ws: seq<Wire>): Bytes {
    if ws == [] then []
    else (if ws[0].opcode == PING then PongBytes(ws[0].payload) else []) + Pongs(ws[1..])
  }

  predicate AllValid(ws: seq<Wire>) {
    forall w <- ws :: ValidWire(w)
  }

  function EncodeAll(ws: seq<Wire>): Bytes
    requires AllValid(ws)
  {
    if ws == [] then [] else Encode(ws[0]) + EncodeAll(ws[1..])
  }

  predicate Acceptable(w: Wire, cfg: Config) {
    && ValidWire(w) && |w.payload| <= cfg.cap && w.opcode != CLOSE
    && (cfg.requireMasked ==> w.mask.Some?)
  }

  /** Data frames that finish a message: only the last has FIN, and every one but the opening
      frame is a continuation. */
  predicate Fragments(d: seq<Wire>, fragmenting: bool) {
    && d != []
    && (forall i :: 0 <= i < |d| ==> d[i].fin == (i == |d| - 1))
    && (forall i :: 0 <= i < |d| ==> (d[i].opcode == CONTINUATION) == (fragmenting || i > 0))
  }

  /** Frames that carry one message to its end: control frames may sit anywhere among the data
      frames, and what was gathered before plus the data fits the cap. */
  predicate Completes(ws: seq<Wire>, a: Assembly, cfg: Config) {
    && ws != [] && IsData(ws[|ws| - 1])
    && (forall w <- ws :: Acceptable(w, cfg))
    && Fragments(DataFrames(ws), a.fragmenting)
    && |a.message| + |Payloads(DataFrames(ws))| <= cfg.cap
  }

  predicate Consistent(a: Assembly) {
    a.fragmenting || a.message == []
  }

  lemma {:induction false} LastDataFrame(ws: seq<Wire>)
    requires ws != [] && IsData(ws[|ws| - 1])
    ensures DataFrames(ws) != [] && DataFrames(ws)[|DataFrames(ws)| - 1] == ws[|ws| - 1]
  {
    if |ws| > 1 { LastDataFrame(ws[1..]); }
  }

  lemma {:induction false} DataFramesAreData(ws: seq<Wire>)
    ensures forall d <- DataFrames(ws) :: d in ws && IsData(d)
  {
    if ws != [] { DataFramesAreData(ws[1..]); }
  }

  /** Taking an encoded frame off the front of the stream. */
  lemma PullEncoded(w: Wire, rest: Bytes, cfg: Config)
    requires ValidConfig(cfg) && ValidWire(w) && |w.payload| <= cfg.cap
    requires cfg.requireMasked ==> w.mask.Some?
    ensures PullFrame(Encode(w) + rest, cfg) == Pulled(WireFrame(w), rest)
  {
    ParseEncode(w, rest, cfg.cap);
  }

  /** Whatever is taken off the stream is an encoded frame. */
  lemma PullSound(stream: Bytes, cfg: Config) returns (w: Wire)
    requires ValidConfig(cfg) && PullFrame(stream, cfg).Pulled?
    ensures ValidWire(w) && |w.payload| <= cfg.cap && (cfg.requireMasked ==> w.mask.Some?)
    ensures PullFrame(stream, cfg).frame == WireFrame(w)
    ensures stream == Encode(w) + PullFrame(stream, cfg).after
  {
    ParseSound(stream, cfg.cap);
    w := WireOf(stream, cfg.cap);
    var n := ParsedFrame(stream, cfg.cap).consumed;
    assert stream == stream[..n] + stream[n..];
  }

  lemma FragmentsStep(w: Wire, d: seq<Wire>, fragmenting: bool)
    ensures Fragments([w] + d, fragmenting) <==>
      (w.opcode == CONTINUATION) == fragmenting && if w.fin then d == [] else Fragments(d, true)
  {
    var e := [w] + d;
    if Fragments(e, fragmenting) {
      assert e[0].fin == (|e| == 1);
      forall i | 0 <= i < |d| ensures d[i].fin == (i == |d| - 1) && d[i].opcode == CONTINUATION {
        assert d[i] == e[i + 1];
      }
    } else if (w.opcode == CONTINUATION) == fragmenting && w.fin == (d == []) && (w.fin || Fragments(d, true)) {
      forall i | 0 <= i < |e|
        ensures e[i].fin == (i == |e| - 1) && (e[i].opcode == CONTINUATION) == (fragmenting || i > 0)
      {
        if i > 0 { assert e[i] == d[i - 1]; }
      }
    }
  }

  lemma ConsFrames(w: Wire, ws: seq<Wire>)
    ensures DataFrames([w] + ws) == if IsData(w) then [w] + DataFrames(ws) else DataFrames(ws)
    ensures Payloads([w] + ws) == w.payload + Payloads(ws)
    ensures Pongs([w] + ws) == (if w.opcode == PING then PongBytes(w.payload) else []) + Pongs(ws)
  {
    assert ([w] + ws)[1..] == ws;
  }

  lemma AcceptableStep(w: Wire, ws: seq<Wire>, cfg: Config)
    ensures (forall v <- [w] + ws :: Acceptable(v, cfg)) <==> Acceptable(w, cfg) && forall v <- ws :: Acceptable(v, cfg)
  {
    var all := [w] + ws;
    assert all[0] == w && forall i :: 0 <= i < |ws| ==> all[i + 1] == ws[i];
  }

  /** `Completes`, one frame at a time. */
  lemma CompletesStep(w: Wire, ws: seq<Wire>, a: Assembly, cfg: Config)
    requires Acceptable(w, cfg)
    ensures Completes([w] + ws, a, cfg) <==>
      if !IsData(w) then Completes(ws, a, cfg)
      else
        && (w.opcode == CONTINUATION) == a.fragmenting
        && |a.message| + |w.payload| <= cfg.cap
        && if w.fin then ws == [] else Completes(ws, Assembly(a.message + w.payload, true), cfg)
  {
    hide Fragments, Acceptable;
    ConsFrames(w, ws);
    AcceptableStep(w, ws, cfg);
    var d := DataFrames(ws);
    if IsData(w) {
      FragmentsStep(w, d, a.fragmenting);
      ConsFrames(w, d);
      if ws == [] { NoFragments(true); }
    } else if ws == [] {
      NoFragments(a.fragmenting);
    }
    if ws != [] && IsData(ws[|ws| - 1]) { LastDataFrame(ws); }
  }

  lemma NoFragments(fragmenting: bool)
    ensures !Fragments([], fragmenting)
  {}

  /** How one frame moves a message towards completion. */
  lemma HandleCompletes(w: Wire, ws: seq<Wire>, a: Assembly, cfg: Config)
    requires Acceptable(w, cfg) && Consistent(a)
    ensures var next := Handle(WireFrame(w), a, cfg);
      && (next.Stop? ==> !Completes([w] + ws, a, cfg))
      && (next.Deliver? ==> (Completes([w] + ws, a, cfg) <==> ws == []))
      && (next.Continue? ==> Consistent(next.assembly))
      && (next.Continue? ==> (Completes([w] + ws, a, cfg) <==> Completes(ws, next.assembly, cfg)))
  {
    hide Completes, Encode;
    CompletesStep(w, ws, a, cfg);
    if !a.fragmenting { assert a.message + w.payload == w.payload; }
  }

  function Message(ws: seq<Wire>, a: Assembly): Bytes {
    a.message + Payloads(DataFrames(ws))
  }

  lemma MessageStep(w: Wire, ws: seq<Wire>, a: Assembly, cfg: Config)
    requires ValidWire(w) && Consistent(a)
    ensures var next := Handle(WireFrame(w), a, cfg);
      && (next.Deliver? ==> next.message == Message([w], a) && Pongs([w]) == [])
      && (next.Continue? ==> Message(ws, next.assembly) == Message([w] + ws, a))
      && (next.Continue? ==> next.reply + Pongs(ws) == Pongs([w] + ws))
  {
    hide Encode;
    ConsFrames(w, ws);
    ConsFrames(w, []);
    assert [w] + [] == [w];
    if IsData(w) {
      ConsFrames(w, DataFrames(ws));
      AppendTwice(a.message, w.payload, Payloads(DataFrames(ws)));
      if !a.fragmenting { assert a.message + Payloads(DataFrames([w] + ws)) == Payloads(DataFrames([w] + ws)); }
    }
  }

  lemma EncodeAllStep(w: Wire, ws: seq<Wire>, rest: Bytes)
    requires AllValid([w] + ws)
    ensures ValidWire(w) && AllValid(ws)
    ensures EncodeAll([w] + ws) + rest == Encode(w) + (EncodeAll(ws) + rest)
  {
    var all := [w] + ws;
    assert all[0] == w && all[1..] == ws;
    AppendTwice(Encode(w), EncodeAll(ws), rest);
  }

  /** Reassembly: on frames that complete a message, `receive` returns exactly the data
      payloads joined in order, answers exactly the pings, and stops right behind them. */
  lemma {:induction false} Reassembles(ws: seq<Wire>, rest: Bytes, a: Assembly, cfg: Config)
    requires ValidConfig(cfg) && Consistent(a) && AllValid(ws) && Completes(ws, a, cfg)
    ensures Received(EncodeAll(ws) + rest, a, cfg) == Outcome(Some(Message(ws, a)), Pongs(ws), rest)
    decreases |ws|
  {
    hide PullFrame, Handle, EncodeAll, Message, Pongs, Encode, Fragments;
    var w, ws' := ws[0], ws[1..];
    assert ws == [w] + ws' && Acceptable(w, cfg);
    EncodeAllStep(w, ws', rest);
    PullEncoded(w, EncodeAll(ws') + rest, cfg);
    HandleCompletes(w, ws', a, cfg);
    MessageStep(w, ws', a, cfg);
    var next := Handle(WireFrame(w), a, cfg);
    if next.Continue? {
      Reassembles(ws', rest, next.assembly, cfg);
    } else {
      EncodeAllEmpty(rest);
      assert [w] == ws;
    }
  }

  lemma EncodeAllEmpty(rest: Bytes)
    ensures EncodeAll([]) + rest == rest
  {}

  /** Only such frames are delivered: a returned message always comes from a prefix of the
      stream that is a run of frames completing it, so its length is within the cap. */
  lemma {:induction false} DeliversOnlyMessages(stream: Bytes, a: Assembly, cfg: Config) returns (ws: seq<Wire>)
    requires ValidConfig(cfg) && Consistent(a) && Received(stream, a, cfg).message.Some?
    ensures AllValid(ws) && Completes(ws, a, cfg)
    ensures var o := Received(stream, a, cfg);
      && stream == EncodeAll(ws) + o.rest
      && o.message.value == Message(ws, a) && |o.message.value| <= cfg.cap
      && o.sent == Pongs(ws)
    decreases |stream|
  {
    hide PullFrame, Handle, EncodeAll, Message, Pongs, Encode, Completes, WireFrame;
    var w := PullSound(stream, cfg);
    var after, rest := PullFrame(stream, cfg).after, Received(stream, a, cfg).rest;
    var next := Handle(WireFrame(w), a, cfg);
    var ws' := [];
    NotClose(w, a, cfg);
    if next.Continue? {
      HandleCompletes(w, [], a, cfg);
      ws' := DeliversOnlyMessages(after, next.assembly, cfg);
    }
    ws := [w] + ws';
    HandleCompletes(w, ws', a, cfg);
    EncodeAllStep(w, ws', rest);
    EncodeAllEmpty(rest);
    Reassembles(ws, rest, a, cfg);
    MessageFits(ws, a, cfg);
  }

  lemma NotClose(w: Wire, a: Assembly, cfg: Config)
    requires ValidWire(w) && !Handle(WireFrame(w), a, cfg).Stop?
    ensures w.opcode != CLOSE
  {}

  lemma MessageFits(ws: seq<Wire>, a: Assembly, cfg: Config)
    requires Completes(ws, a, cfg)
    ensures |Message(ws, a)| <= cfg.cap
  {}
}
