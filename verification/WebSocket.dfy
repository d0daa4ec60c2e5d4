/** The frame codec of include/websocket.hpp: reading one frame off the front of a buffer,
    and writing text, binary, close and pong frames. `Wire` and `Encode` are the reference
    form of a frame, written from section 5.2 of RFC 6455. */
module WebSocket {
  import opened Bits
  import opened Wrappers

  type Byte = x: int | 0 <= x < 256
  type Bytes = seq<Byte>

  const TWO_TO_THE_64: nat := 0x1_0000_0000_0000_0000

  const CONTINUATION: Byte := 0x0
  const TEXT: Byte := 0x1
  const BINARY: Byte := 0x2
  const CLOSE: Byte := 0x8
  const PING: Byte := 0x9
  const PONG: Byte := 0xA

  /** `overrun` marks a header whose 64-bit sum with the declared length wraps: the size check
      lets the frame through, and reserving room for its payload throws. */
  datatype Frame = Frame(opcode: Byte, payload: Bytes, fin: bool, masked: bool,
                         ok: bool, tooBig: bool, overrun: bool, consumed: nat)

  const EMPTY_FRAME := Frame(TEXT, [], false, false, false, false, false, 0)

  function BigEndian(b: Bytes): nat {
    if b == [] then 0 else 256 * BigEndian(b[..|b| - 1]) + b[|b| - 1]
  }

  function ToBigEndian(n: nat, width: nat): (b: Bytes)
    ensures |b| == width
  {
    if width == 0 then [] else ToBigEndian(n / 256, width - 1) + [n % 256]
  }

  /** How many bytes of extended length follow the two header bytes. */
  function ExtraLength(b1: Byte): nat {
    if b1 % 128 == 126 then 2 else if b1 % 128 == 127 then 8 else 0
  }

  function Xor(a: Byte, b: Byte): (r: Byte)
    ensures XorBits(r, b, 8) == a
  {
    assert Power2(8) == 256;
    XorTwice(a, b, 8);
    XorBits(a, b, 8)
  }

  function ApplyMask(key: Bytes, data: Bytes): (r: Bytes)
    requires |key| == 4
    ensures |r| == |data|
    ensures forall j :: 0 <= j < |data| ==> r[j] == Xor(data[j], key[j % 4])
  {
    seq(|data|, j requires 0 <= j < |data| => Xor(data[j], key[j % 4]))
  }

  /** A sum kept in 64 unsigned bits. */
  function Wrap64(n: nat): nat {
    if n < TWO_TO_THE_64 then n else n % TWO_TO_THE_64
  }

  /** Where the extended length ends. */
  function LengthEnd(buf: Bytes): (i: nat)
    requires |buf| >= 2
    ensures 2 <= i <= 10
  {
    2 + ExtraLength(buf[1])
  }

  /** The length a header declares. */
  function Declared(buf: Bytes): nat
    requires |buf| >= 2 && LengthEnd(buf) <= |buf|
  {
    var i := LengthEnd(buf);
    if i == 2 then buf[1] % 128 else BigEndian(buf[2..i])
  }

  function HeaderFrame(buf: Bytes): Frame
    requires |buf| >= 2
  {
    Frame(buf[0] % 16, [], buf[0] >= 128, buf[1] >= 128, false, false, false, 0)
  }

  /** What `parse_frame` answers for a buffer and a cap on the declared length. */
  function ParsedFrame(buf: Bytes, cap: nat): (f: Frame) {
    if |buf| < 2 then EMPTY_FRAME
    else if |buf| < LengthEnd(buf) then HeaderFrame(buf)
    else ParsedBody(HeaderFrame(buf), buf, LengthEnd(buf), Declared(buf), cap)
  }

  /** The second half: the declared length `len` is known and the key or payload starts at `i`. */
  function ParsedBody(f: Frame, buf: Bytes, i: nat, len: nat, cap: nat): (r: Frame)
    requires i <= |buf|
  {
    var h := if f.masked then i + 4 else i;
    if len > cap then f.(tooBig := true)
    else if |buf| < h || |buf| < Wrap64(h + len) then f
    else if |buf| < h + len then f.(overrun := true)
    else
      f.(ok := true, consumed := h + len,
         payload := if f.masked then ApplyMask(buf[i..h], buf[h..h + len]) else buf[h..h + len])
  }

  // ---- the reference encoder of RFC 6455, section 5.2 ----

  datatype Form = Short | Medium | Long

  /** `rsv` holds the three reserved bits, which the reader ignores. */
  datatype Wire = Wire(fin: bool, rsv: Byte, opcode: Byte, form: Form, mask: Option<Bytes>, payload: Bytes)

  predicate Fits(form: Form, n: nat) {
    match form
    case Short => n < 126
    case Medium => n < 0x1_0000
    case Long => n + 14 < TWO_TO_THE_64
  }

  predicate ValidWire(w: Wire) {
    && w.rsv < 8
    && w.opcode < 16
    && Fits(w.form, |w.payload|)
    && (w.mask.Some? ==> |w.mask.value| == 4)
  }

  function LengthField(form: Form, n: nat): (r: Bytes)
    requires Fits(form, n)
    ensures |r| == (match form case Short => 1 case Medium => 3 case Long => 9)
    ensures r[0] < 128
  {
    match form
    case Short => [n]
    case Medium => [126] + ToBigEndian(n, 2)
    case Long => [127] + ToBigEndian(n, 8)
  }

  function Head(w: Wire): (r: Bytes)
    requires ValidWire(w)
    ensures |r| == 2
  {
    [(if w.fin then 128 else 0) + 16 * w.rsv + w.opcode,
     (if w.mask.Some? then 128 else 0) + LengthField(w.form, |w.payload|)[0]]
  }

  function Extension(w: Wire): Bytes
    requires ValidWire(w)
  {
    LengthField(w.form, |w.payload|)[1..]
  }

  function Key(w: Wire): Bytes {
    if w.mask.Some? then w.mask.value else []
  }

  function Body(w: Wire): (r: Bytes)
    requires ValidWire(w)
    ensures |r| == |w.payload|
  {
    if w.mask.Some? then ApplyMask(w.mask.value, w.payload) else w.payload
  }

  function Encode(w: Wire): (r: Bytes)
    requires ValidWire(w)
    ensures |r| == HeaderLength(w) + |w.payload|
  {
    Head(w) + Extension(w) + Key(w) + Body(w)
  }

  function HeaderLength(w: Wire): (h: nat)
    requires ValidWire(w)
    ensures 2 <= h <= 14
  {
    2 + |Extension(w)| + |Key(w)|
  }

  // ---- number and mask lemmas ----

  function Power256(k: nat): nat { if k == 0 then 1 else 256 * Power256(k - 1) }

  lemma {:induction false} BigEndianBound(b: Bytes)
    ensures BigEndian(b) < Power256(|b|)
  {
    if b != [] { BigEndianBound(b[..|b| - 1]); }
  }

  /** Writing a number big-endian and reading it back is the identity while it fits. */
  lemma {:induction false} BigEndianRoundTrip(n: nat, width: nat)
    requires n < Power256(width)
    ensures BigEndian(ToBigEndian(n, width)) == n
  {
    if width > 0 {
      BigEndianRoundTrip(n / 256, width - 1);
      var b := ToBigEndian(n, width);
      assert b[..width - 1] == ToBigEndian(n / 256, width - 1);
    }
  }

  lemma {:induction false} ToBigEndianOfBigEndian(b: Bytes)
    ensures ToBigEndian(BigEndian(b), |b|) == b
  {
    if b != [] {
      var init, last := b[..|b| - 1], b[|b| - 1];
      ToBigEndianOfBigEndian(init);
      var n := BigEndian(b);
      assert n / 256 == BigEndian(init) && n % 256 == last;
      assert b == init + [last];
    }
  }

  /** Masking twice with one key restores the data (section 5.3 of RFC 6455). */
  lemma MaskInvolution(key: Bytes, data: Bytes)
    requires |key| == 4
    ensures ApplyMask(key, ApplyMask(key, data)) == data
  {
    var twice := ApplyMask(key, ApplyMask(key, data));
    forall j | 0 <= j < |data| ensures twice[j] == data[j] {
      assert Xor(Xor(data[j], key[j % 4]), key[j % 4]) == data[j];
    }
  }

  // ---- header lemmas ----

  lemma LengthFieldReads(form: Form, n: nat)
    requires Fits(form, n)
    ensures var lf := LengthField(form, n);
      && |lf| == 1 + ExtraLength(lf[0]) == 1 + ExtraLength(128 + lf[0])
      && (if |lf| == 1 then lf[0] else BigEndian(lf[1..])) == n
  {
    match form {
      case Short =>
      case Medium =>
        assert Power256(2) == 0x1_0000;
        BigEndianRoundTrip(n, 2);
        assert LengthField(form, n)[1..] == ToBigEndian(n, 2);
      case Long =>
        assert Power256(8) == TWO_TO_THE_64;
        BigEndianRoundTrip(n, 8);
        assert LengthField(form, n)[1..] == ToBigEndian(n, 8);
    }
  }

  /** Slicing pieces back out of their concatenation. */
  lemma Slices(start: Bytes, ext: Bytes, key: Bytes, body: Bytes, rest: Bytes)
    ensures var b := start + ext + key + body + rest;
      var i := |start| + |ext|; var h := i + |key|;
      b[|start|..i] == ext && b[i..h] == key && b[h..h + |body|] == body
  {}

  /** Where the pieces of an encoded frame sit. */
  lemma EncodeLayout(w: Wire, rest: Bytes)
    requires ValidWire(w)
    ensures var b := Encode(w) + rest; var h := HeaderLength(w); var i := h - |Key(w)|;
      && b[0] == Head(w)[0] && b[1] == Head(w)[1]
      && b[2..i] == Extension(w) && b[i..h] == Key(w) && b[h..h + |w.payload|] == Body(w)
  {
    Slices(Head(w), Extension(w), Key(w), Body(w), rest);
  }

  /** The header of an encoded frame, with anything behind it, reads back field by field. */
  lemma HeaderReads(w: Wire, rest: Bytes)
    requires ValidWire(w)
    ensures var b := Encode(w) + rest; var i := 2 + |Extension(w)|;
      && b[0] % 16 == w.opcode && (b[0] >= 128) == w.fin && (b[1] >= 128) == w.mask.Some?
      && LengthEnd(b) == i <= |b| && Declared(b) == |w.payload|
  {
    EncodeLayout(w, rest);
    LengthFieldReads(w.form, |w.payload|);
  }

  // ---- main results ----

  function WireFrame(w: Wire): Frame
    requires ValidWire(w)
  {
    Frame(w.opcode, w.payload, w.fin, w.mask.Some?, true, false, false, |Encode(w)|)
  }

  /** Round trip: any frame whose payload is within the cap, whatever its length form and
      mask, is read back exactly, and the bytes after it do not matter. */
  lemma ParseEncode(w: Wire, rest: Bytes, cap: nat)
    requires ValidWire(w) && |w.payload| <= cap
    ensures ParsedFrame(Encode(w) + rest, cap) == WireFrame(w)
  {
    HeaderReads(w, rest);
    var b := Encode(w) + rest;
    var i := 2 + |Extension(w)|;
    EncodeLayout(w, rest);
    if w.mask.Some? { MaskInvolution(w.mask.value, w.payload); }
  }

  /** The frame a complete parse stands for, written back in wire form. */
  function WireOf(buf: Bytes, cap: nat): Wire
    requires ParsedFrame(buf, cap).ok
  {
    var f := ParsedFrame(buf, cap);
    var i := LengthEnd(buf);
    Wire(f.fin, buf[0] / 16 % 8, f.opcode, if i == 2 then Short else if i == 4 then Medium else Long,
         if f.masked then Some(buf[i..i + 4]) else None, f.payload)
  }

  /** The length read off a header fits the length form it was read from, and the length
      field rewritten from it is the one in the buffer. */
  lemma DeclaredFits(buf: Bytes)
    requires |buf| >= 2 && LengthEnd(buf) <= |buf|
    ensures var i := LengthEnd(buf); var len := Declared(buf);
      && (i == 2 ==> len < 126) && (i == 4 ==> len < 0x1_0000)
      && (i > 2 ==> ToBigEndian(len, i - 2) == buf[2..i])
  {
    var i := LengthEnd(buf);
    BigEndianBound(buf[2..i]);
    assert Power256(2) == 0x1_0000;
    ToBigEndianOfBigEndian(buf[2..i]);
  }

  lemma AcceptedShape(buf: Bytes, cap: nat)
    requires ParsedFrame(buf, cap).ok
    ensures var f := ParsedFrame(buf, cap); var i := LengthEnd(buf);
      var h := if f.masked then i + 4 else i; var n := Declared(buf);
      && f.fin == (buf[0] >= 128) && f.opcode == buf[0] % 16 && f.masked == (buf[1] >= 128)
      && !f.tooBig && !f.overrun && n <= cap
      && f.consumed == h + n <= |buf|
      && f.payload == if f.masked then ApplyMask(buf[i..h], buf[h..h + n]) else buf[h..h + n]
  {}

  lemma WireOfValid(buf: Bytes, cap: nat)
    requires cap + 14 < TWO_TO_THE_64 && ParsedFrame(buf, cap).ok
    ensures ValidWire(WireOf(buf, cap)) && |WireOf(buf, cap).payload| == Declared(buf)
  {
    AcceptedShape(buf, cap);
    DeclaredFits(buf);
  }

  lemma WireOfHead(buf: Bytes, cap: nat)
    requires ParsedFrame(buf, cap).ok && ValidWire(WireOf(buf, cap))
    requires |WireOf(buf, cap).payload| == Declared(buf)
    ensures Head(WireOf(buf, cap)) == buf[..2]
  {
    ByteSplit(buf[0]);
    assert buf[1] == (if buf[1] >= 128 then 128 else 0) + buf[1] % 128;
  }

  lemma WireOfExtension(buf: Bytes, cap: nat)
    requires ParsedFrame(buf, cap).ok && ValidWire(WireOf(buf, cap))
    requires |WireOf(buf, cap).payload| == Declared(buf)
    ensures Extension(WireOf(buf, cap)) == buf[2..LengthEnd(buf)]
  {
    DeclaredFits(buf);
  }

  lemma ByteSplit(b: Byte)
    ensures b == (if b >= 128 then 128 else 0) + 16 * (b / 16 % 8) + b % 16
  {}

  lemma Rejoin(buf: Bytes, i: nat, h: nat, c: nat)
    requires 2 <= i <= h <= c <= |buf|
    ensures buf[..2] + buf[2..i] + buf[i..h] + buf[h..c] == buf[..c]
  {}

  lemma WireOfBody(buf: Bytes, cap: nat)
    requires ParsedFrame(buf, cap).ok && ValidWire(WireOf(buf, cap))
    ensures var w := WireOf(buf, cap); var i := LengthEnd(buf); var h := i + |Key(w)|;
      var c := ParsedFrame(buf, cap).consumed;
      h <= c <= |buf| && Key(w) == buf[i..h] && Body(w) == buf[h..c]
  {
    AcceptedShape(buf, cap);
    var w := WireOf(buf, cap);
    if w.mask.Some? {
      var h := LengthEnd(buf) + 4;
      MaskInvolution(w.mask.value, buf[h..h + Declared(buf)]);
    }
  }

  /** Soundness: whatever is accepted is an encoding. Together with `ParseEncode`, the reader
      answers ok exactly on buffers that start with a frame of at most `cap` payload bytes. */
  lemma ParseSound(buf: Bytes, cap: nat)
    requires cap + 14 < TWO_TO_THE_64 && ParsedFrame(buf, cap).ok
    ensures var w := WireOf(buf, cap); var f := ParsedFrame(buf, cap);
      && ValidWire(w) && |w.payload| <= cap && f == WireFrame(w)
      && f.consumed <= |buf| && Encode(w) == buf[..f.consumed]
  {
    WireOfValid(buf, cap);
    WireOfHead(buf, cap);
    WireOfExtension(buf, cap);
    WireOfBody(buf, cap);
    AcceptedShape(buf, cap);
    var i, c := LengthEnd(buf), ParsedFrame(buf, cap).consumed;
    var h := i + |Key(WireOf(buf, cap))|;
    Rejoin(buf, i, h, c);
  }

  /** A frame cut short is neither accepted nor refused: the reader asks for more bytes. */
  lemma PrefixIncomplete(w: Wire, k: nat, cap: nat)
    requires ValidWire(w) && |w.payload| <= cap && k < |Encode(w)|
    ensures var f := ParsedFrame(Encode(w)[..k], cap); !f.ok && !f.tooBig && !f.overrun
  {
    HeaderReads(w, []);
    assert Encode(w) + [] == Encode(w);
    var b := Encode(w)[..k];
    var i := 2 + |Extension(w)|;
    if k >= i { assert b[2..i] == Encode(w)[2..i]; }
  }

  /** A frame that declares more than the cap is refused as soon as its declared length is there,
      whatever has arrived of the rest, and not before. */
  lemma RefusedAtOnce(w: Wire, k: nat, more: Bytes, cap: nat)
    requires ValidWire(w) && |w.payload| > cap && k <= |Encode(w)|
    ensures 2 + |Extension(w)| <= k ==>
      ParsedFrame(Encode(w)[..k] + more, cap).tooBig && !ParsedFrame(Encode(w)[..k] + more, cap).ok
    ensures k < 2 + |Extension(w)| ==>
      !ParsedFrame(Encode(w)[..k], cap).tooBig && !ParsedFrame(Encode(w)[..k], cap).ok
  {
    HeaderReads(w, []);
    hide Encode, Extension, ValidWire;
    var e, i := Encode(w), 2 + |Extension(w)|;
    assert e + [] == e;
    if i <= k {
      SameHeader(e, e[..k] + more, i, cap);
    } else {
      NoAnswerYet(e, k, cap);
    }
  }

  lemma SameHeader(e: Bytes, b: Bytes, i: nat, cap: nat)
    requires 2 <= i <= |e| && i <= |b| && (forall j :: 0 <= j < i ==> b[j] == e[j]) && i == LengthEnd(e) && Declared(e) > cap
    ensures ParsedFrame(b, cap).tooBig && !ParsedFrame(b, cap).ok
  {
    assert b[2..i] == e[2..i];
  }

  lemma NoAnswerYet(e: Bytes, k: nat, cap: nat)
    requires |e| >= 2 && k <= |e| && k < LengthEnd(e)
    ensures !ParsedFrame(e[..k], cap).tooBig && !ParsedFrame(e[..k], cap).ok
  {
    hide ParsedBody, Declared;
  }

  lemma HeaderStable(buf: Bytes, more: Bytes)
    requires |buf| >= 2 && LengthEnd(buf) <= |buf|
    ensures LengthEnd(buf + more) == LengthEnd(buf) && HeaderFrame(buf + more) == HeaderFrame(buf)
    ensures Declared(buf + more) == Declared(buf)
  {
    assert (buf + more)[2..LengthEnd(buf)] == buf[2..LengthEnd(buf)];
  }

  lemma Prefixed(buf: Bytes, more: Bytes, i: nat, j: nat)
    requires i <= j <= |buf|
    ensures (buf + more)[i..j] == buf[i..j]
  {}

  /** Once answered, a question stays answered: bytes arriving later change nothing. */
  lemma ParseStable(buf: Bytes, more: Bytes, cap: nat)
    requires ParsedFrame(buf, cap).ok || ParsedFrame(buf, cap).tooBig
    ensures ParsedFrame(buf + more, cap) == ParsedFrame(buf, cap)
  {
    hide Declared, ApplyMask, Wrap64;
    HeaderStable(buf, more);
    var f := ParsedFrame(buf, cap);
    if f.ok {
      AcceptedShape(buf, cap);
      var i := LengthEnd(buf);
      var h := if f.masked then i + 4 else i;
      Prefixed(buf, more, i, h);
      Prefixed(buf, more, h, f.consumed);
    }
  }

  /** With a cap that leaves room for the header in 64 bits, the reader never overruns; an
      unanswered buffer is shorter than the largest frame it may hold. */
  lemma ParseProgress(buf: Bytes, cap: nat)
    requires cap + 14 < TWO_TO_THE_64
    ensures var f := ParsedFrame(buf, cap);
      && !f.overrun
      && (f.ok ==> 2 <= f.consumed <= |buf| && |f.payload| <= cap)
      && (!f.ok && !f.tooBig ==> |buf| <= cap + 13)
  {
    if |buf| >= 2 && LengthEnd(buf) <= |buf| {
      BodyProgress(HeaderFrame(buf), buf, LengthEnd(buf), Declared(buf), cap);
    }
  }

  lemma BodyProgress(f: Frame, buf: Bytes, i: nat, len: nat, cap: nat)
    requires cap + 14 < TWO_TO_THE_64 && 2 <= i <= 10 && i <= |buf|
    requires !f.ok && !f.tooBig && !f.overrun && f.payload == []
    ensures var r := ParsedBody(f, buf, i, len, cap);
      && !r.overrun
      && (r.ok ==> 2 <= r.consumed <= |buf| && |r.payload| == len <= cap)
      && (!r.ok && !r.tooBig ==> |buf| <= cap + 13)
  {
    var h := if f.masked then i + 4 else i;
  }

  /** The cap rules the overrun out exactly when it leaves room for the longest header in 64 bits:
      otherwise a masked header declaring 2^64 - 14 bytes gets past both checks. */
  lemma OverrunThreshold(cap: nat)
    ensures (exists buf: Bytes :: ParsedFrame(buf, cap).overrun) <==> cap + 14 >= TWO_TO_THE_64
  {
    if cap + 14 < TWO_TO_THE_64 {
      forall buf: Bytes ensures !ParsedFrame(buf, cap).overrun { ParseProgress(buf, cap); }
    } else {
      OverrunHeader(cap);
    }
  }

  lemma OverrunHeader(cap: nat)
    requires cap + 14 >= TWO_TO_THE_64
    ensures ParsedFrame([0x82, 0xFF] + ToBigEndian(TWO_TO_THE_64 - 14, 8) + [0, 0, 0, 0], cap).overrun
  {
    hide ToBigEndian, BigEndian;
    var n: nat := TWO_TO_THE_64 - 14;
    var len := ToBigEndian(n, 8);
    var buf: Bytes := [0x82, 0xFF] + len + [0, 0, 0, 0];
    assert buf[2..10] == len;
    assert Power256(8) == TWO_TO_THE_64;
    BigEndianRoundTrip(n, 8);
    assert Declared(buf) == n;
  }

  /** An instance without a mask: under the default cap (2^64 - 1) this ten-byte
      header declares a length whose sum with the header wraps to 9. */
  lemma OverrunUnderDefaultCap()
    ensures ParsedFrame([0x82, 0x7F, 255, 255, 255, 255, 255, 255, 255, 255], TWO_TO_THE_64 - 1).overrun
  {
    var buf: Bytes := [0x82, 0x7F, 255, 255, 255, 255, 255, 255, 255, 255];
    var b: Bytes := [255, 255, 255, 255, 255, 255, 255, 255];
    assert buf[2..10] == b;
    MaxBigEndian(b);
    assert Power256(8) == TWO_TO_THE_64;
  }

  lemma {:induction false} MaxBigEndian(b: Bytes)
    requires forall k :: 0 <= k < |b| ==> b[k] == 255
    ensures BigEndian(b) == Power256(|b|) - 1
  {
    if b != [] { MaxBigEndian(b[..|b| - 1]); }
  }

  // ---- the writers ----

  function TextBytes(payload: Bytes): Bytes {
    var n := |payload|;
    [129] + (if n < 126 then [n] else [126] + ToBigEndian(n, 2)) + payload
  }

  function FormFor(n: nat): Form {
    if n < 126 then Short else if n <= 0xFFFF then Medium else Long
  }

  function DataWire(opcode: Byte, payload: Bytes): Wire {
    Wire(true, 0, opcode, FormFor(|payload|), None, payload)
  }

  function PongBytes(payload: Bytes): Bytes {
    [138, |payload| % 128] + payload
  }

  function CloseBytes(code: nat): Bytes {
    [136, 2] + ToBigEndian(code, 2)
  }

  predicate ReadsBack(bytes: Bytes, payload: Bytes, cap: nat) {
    var f := ParsedFrame(bytes, cap);
    f.ok && f.payload == payload && f.consumed == |bytes|
  }

  /** A text frame is readable exactly below 64 KiB: above, only the low 16 bits of the length
      are written. */
  lemma TextReadsBack(payload: Bytes, cap: nat)
    requires |payload| <= cap
    ensures |payload| < 0x1_0000 ==> TextBytes(payload) == Encode(DataWire(TEXT, payload))
    ensures ReadsBack(TextBytes(payload), payload, cap) <==> |payload| < 0x1_0000
  {
    var n := |payload|;
    var b := TextBytes(payload);
    if n < 0x1_0000 {
      var w := DataWire(TEXT, payload);
      assert Head(w) == b[..2];
      assert Extension(w) == b[2..2 + |Extension(w)|];
      assert b == Encode(w);
      ParseEncode(w, [], cap);
      assert b + [] == b;
    } else {
      LowBytes(n);
      assert b[2..4] == ToBigEndian(n, 2);
    }
  }

  lemma LowBytes(n: nat)
    ensures BigEndian(ToBigEndian(n, 2)) == n % 0x1_0000
  {
    var m := n % 0x1_0000;
    assert Power256(2) == 0x1_0000;
    assert n % 256 == m % 256 && n / 256 % 256 == m / 256 % 256;
    assert ToBigEndian(n, 0) == [] == ToBigEndian(m, 0);
    assert ToBigEndian(n / 256, 1) == ToBigEndian(m / 256, 1);
    assert ToBigEndian(n, 2) == ToBigEndian(m, 2);
    BigEndianRoundTrip(m, 2);
  }

  /** A pong is a frame exactly for the payloads a ping may carry (section 5.5 of RFC 6455). */
  lemma PongReadsBack(payload: Bytes, cap: nat)
    requires |payload| <= cap && cap + 14 < TWO_TO_THE_64
    ensures |payload| <= 125 ==> PongBytes(payload) == Encode(DataWire(PONG, payload))
    ensures ReadsBack(PongBytes(payload), payload, cap) <==> |payload| <= 125
  {
    var b := PongBytes(payload);
    if |payload| <= 125 {
      var w := DataWire(PONG, payload);
      assert Head(w) == b[..2];
      assert b == Encode(w);
      ParseEncode(w, [], cap);
      assert b + [] == b;
    }
  }

  method EncodeText(payload: Bytes) returns (f: Bytes)
    ensures f == TextBytes(payload)
    ensures |payload| < 0x1_0000 ==> f == Encode(DataWire(TEXT, payload))
  {
    var n := |payload|;
    f := [129];
    if n < 126 {
      f := f + [n];
    } else {
      f := f + [126];
      f := f + [n / 256 % 256];
      f := f + [n % 256];
      assert ToBigEndian(n / 256, 1) == [n / 256 % 256];
    }
    f := f + payload;
    TextReadsBack(payload, n);
  }

  /** `n >> (8 * k)`. */
  function ShiftRight(n: nat, k: nat): nat {
    if k == 0 then n else ShiftRight(n / 256, k - 1)
  }

  lemma {:induction false} ToBigEndianAt(n: nat, width: nat, j: nat)
    requires j < width
    ensures ToBigEndian(n, width)[j] == ShiftRight(n, width - 1 - j) % 256
  {
    if j < width - 1 { ToBigEndianAt(n / 256, width - 1, j); }
  }

  method EncodeBinary(payload: Bytes) returns (f: Bytes)
    requires |payload| + 14 < TWO_TO_THE_64
    ensures f == Encode(DataWire(BINARY, payload))
  {
    f := [130];
    var n := |payload|;
    if n < 126 {
      f := f + [n];
    } else if n <= 0xFFFF {
      f := f + [126];
      f := f + [n / 256 % 256];
      f := f + [n % 256];
      assert ToBigEndian(n / 256, 1) == [n / 256 % 256];
      assert f[2..] == ToBigEndian(n, 2);
    } else {
      f := f + [127];
      var i := 8;
      while i > 0
        invariant 0 <= i <= 8
        invariant f == [130, 127] + ToBigEndian(n, 8)[..8 - i]
      {
        i := i - 1;
        ToBigEndianAt(n, 8, 7 - i);
        f := f + [ShiftRight(n, i) % 256];
      }
      assert f[2..] == ToBigEndian(n, 8);
    }
    assert Head(DataWire(BINARY, payload)) == f[..2];
    assert Extension(DataWire(BINARY, payload)) == f[2..];
    f := f + payload;
  }

  method EncodePong(payload: Bytes) returns (f: Bytes)
    ensures f == PongBytes(payload)
    ensures |payload| <= 125 ==> f == Encode(DataWire(PONG, payload))
  {
    f := [138];
    f := f + [|payload| % 128];
    f := f + payload;
    if |payload| <= 125 { PongReadsBack(payload, 125); }
  }

  /** A close frame carrying a status code. */
  method EncodeClose(code: nat) returns (f: Bytes)
    requires code < 0x1_0000
    ensures f == CloseBytes(code) == Encode(DataWire(CLOSE, ToBigEndian(code, 2)))
  {
    f := [136, 2];
    f := f + [code / 256 % 256];
    f := f + [code % 256];
    assert ToBigEndian(code / 256, 1) == [code / 256 % 256];
    assert f[2..] == ToBigEndian(code, 2);
    assert Head(DataWire(CLOSE, ToBigEndian(code, 2))) == f[..2];
  }

  /** The payload loop of `parse_frame`. */
  method CopyPayload(body: Bytes, masked: bool, mask: Bytes) returns (payload: Bytes)
    requires |mask| == 4
    ensures payload == if masked then ApplyMask(mask, body) else body
  {
    hide Xor;
    payload := [];
    for j := 0 to |body|
      invariant payload == if masked then ApplyMask(mask, body[..j]) else body[..j]
    {
      var c := body[j];
      assert body[..j + 1] == body[..j] + [c];
      payload := payload + [if masked then Xor(c, mask[j % 4]) else c];
    }
    assert body[..|body|] == body;
  }

  /** The extended-length loop of `parse_frame`. */
  method ReadLength(field: Bytes) returns (len: nat)
    ensures len == BigEndian(field)
  {
    len := 0;
    for k := 0 to |field|
      invariant len == BigEndian(field[..k])
    {
      assert field[..k + 1][..k] == field[..k];
      len := 256 * len + field[k];
    }
    assert field[..|field|] == field;
  }

  /** `parse_frame`: read one frame off the front of `buf`. */
  method ParseFrame(buf: Bytes, cap: nat) returns (f: Frame)
    ensures f == ParsedFrame(buf, cap)
  {
    f := EMPTY_FRAME;
    if |buf| < 2 { return; }
    f := f.(fin := buf[0] >= 128, opcode := buf[0] % 16);
    var masked := buf[1] >= 128;
    f := f.(masked := masked);
    var len: nat := buf[1] % 128;
    var i := 2;
    if len == 126 {
      if |buf| < 4 { return; }
      len := ReadLength(buf[2..4]);
      i := 4;
    } else if len == 127 {
      if |buf| < 10 { return; }
      len := ReadLength(buf[2..10]);
      i := 10;
    }
    assert i == LengthEnd(buf) && len == Declared(buf) && f == HeaderFrame(buf);
    if len > cap {
      f := f.(tooBig := true);
      return;
    }
    var mask := [0, 0, 0, 0];
    if masked {
      if |buf| < i + 4 { return; }
      mask := buf[i..i + 4];
      i := i + 4;
    }
    if |buf| < Wrap64(i + len) { return; }
    if |buf| < i + len {
      f := f.(overrun := true);
      return;
    }
    var payload := CopyPayload(buf[i..i + len], masked, mask);
    f := f.(payload := payload, consumed := i + len, ok := true);
  }
}
