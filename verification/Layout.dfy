/** The wire form byte by byte: which bytes of a payload and of a record hold what, told by
    offset and without reference to how they are written or read. */
module Layout {
  import opened Types
  import opened Messages
  import opened Validation
  import opened Wire
  import opened Codec
  import opened Records

  // ----- numbers, most significant byte first

  function Big(b: seq<byte>): nat {
    if b == [] then 0
    else
      var low: nat := b[|b| - 1];
      Big(b[..|b| - 1]) * 256 + low
  }

  /** Bytes k to k+n of p hold the number v. */
  ghost predicate Holds(p: seq<byte>, k: nat, n: nat, v: nat) {
    k + n <= |p| && Big(p[k..k + n]) == v
  }

  /** Bytes k and k+1 of p hold v in two's complement. */
  ghost predicate HoldsSigned(p: seq<byte>, k: nat, v: int) {
    -0x8000 <= v < 0x8000 && Holds(p, k, 2, if v < 0 then v + 0x1_0000 else v)
  }

  // ----- the sixteen payloads

  /** Rectangle r takes the bytes from k on: position, size, encoding, pixel length, pixels. */
  ghost predicate RectangleAt(r: Rectangle, p: seq<byte>, k: nat) {
    && Holds(p, k, 4, r.rect.x) && Holds(p, k + 4, 4, r.rect.y)
    && Holds(p, k + 8, 4, r.rect.w) && Holds(p, k + 12, 4, r.rect.h)
    && Holds(p, k + 16, 2, r.encoding) && Holds(p, k + 18, 4, |r.pixels|)
    && k + 22 + |r.pixels| <= |p| && p[k + 22..k + 22 + |r.pixels|] == r.pixels
  }

  /** The rectangles follow one another from byte k to the end. */
  ghost predicate RectanglesAt(rs: seq<Rectangle>, p: seq<byte>, k: nat)
    decreases |rs|
  {
    if rs == [] then |p| == k
    else RectangleAt(rs[0], p, k) && RectanglesAt(rs[1..], p, k + 22 + |rs[0].pixels|)
  }

  ghost predicate HeaderAt(h: Header, p: seq<byte>) {
    && Holds(p, 0, 8, h.generation) && Holds(p, 8, 8, h.sequence) && Holds(p, 16, 8, h.base)
    && Holds(p, 24, 1, if h.keyframe then 1 else 0)
  }

  ghost predicate InputAt(generation: nat, sequence: nat, p: seq<byte>) {
    Holds(p, 0, 8, generation) && Holds(p, 8, 8, sequence)
  }

  ghost predicate TextAt(code: nat, text: seq<byte>, p: seq<byte>) {
    |p| == 4 + |text| && Holds(p, 0, 2, code) && Holds(p, 2, 2, |text|) && p[4..] == text
  }

  /** The payload of m, and its type number. */
  ghost predicate LaidOut(m: Message, t: nat, p: seq<byte>) {
    match m
    case Auth(version, token) =>
      t == 1 && |p| == 34 && Holds(p, 0, 2, version) && p[2..] == token
    case ClientHello(min, max, capabilities) =>
      t == 2 && |p| == 12 && Holds(p, 0, 2, min) && Holds(p, 2, 2, max) && Holds(p, 4, 8, capabilities)
    case ServerHello(version, capabilities) =>
      t == 3 && |p| == 10 && Holds(p, 0, 2, version) && Holds(p, 2, 8, capabilities)
    case Display(c) =>
      && t == 4 && |p| == 26 && Holds(p, 0, 8, c.generation)
      && Holds(p, 8, 4, c.width) && Holds(p, 12, 4, c.height)
      && Holds(p, 16, 4, c.physicalWidth) && Holds(p, 20, 4, c.physicalHeight) && Holds(p, 24, 2, c.pixelFormat)
    case WholeFrame(f) =>
      t == 5 && HeaderAt(f.header, p) && Holds(p, 25, 2, |f.rectangles|) && RectanglesAt(f.rectangles, p, 27)
    case KeyframeRequest(generation) => t == 6 && |p| == 8 && Holds(p, 0, 8, generation)
    case Key(generation, sequence, usage, action, modifiers) =>
      && t == 7 && |p| == 20 && InputAt(generation, sequence, p)
      && Holds(p, 16, 2, usage) && Holds(p, 18, 1, action) && Holds(p, 19, 1, modifiers)
    case PointerMove(generation, sequence, x, y) =>
      t == 8 && |p| == 24 && InputAt(generation, sequence, p) && Holds(p, 16, 4, x) && Holds(p, 20, 4, y)
    case PointerButton(generation, sequence, button, action) =>
      t == 9 && |p| == 18 && InputAt(generation, sequence, p) && Holds(p, 16, 1, button) && Holds(p, 17, 1, action)
    case PointerWheel(generation, sequence, horizontal, vertical) =>
      && t == 10 && |p| == 20 && InputAt(generation, sequence, p)
      && HoldsSigned(p, 16, horizontal) && HoldsSigned(p, 18, vertical)
    case FocusLost(generation, sequence) => t == 11 && |p| == 16 && InputAt(generation, sequence, p)
    case Ping(nonce) => t == 12 && |p| == 8 && Holds(p, 0, 8, nonce)
    case Pong(nonce) => t == 13 && |p| == 8 && Holds(p, 0, 8, nonce)
    case Failure(code, diagnostic) => t == 14 && TextAt(code, diagnostic, p)
    case Close(code, reason) => t == 15 && TextAt(code, reason, p)
    case Part(q) =>
      && t == 16 && HeaderAt(q.header, p)
      && Holds(p, 25, 2, q.partIndex) && Holds(p, 27, 2, q.partCount)
      && Holds(p, 29, 2, |q.rectangles|) && RectanglesAt(q.rectangles, p, 31)
  }

  // ----- one field after another

  lemma BigLast(a: seq<byte>, x: byte)
    ensures Big(a + [x]) == Big(a) * 256 + x as nat
  {
    assert (a + [x])[..|a|] == a;
  }

  lemma BigTwo(a: seq<byte>, x: byte, y: byte)
    ensures Big([x]) == x as nat && Big([x, y]) == x as nat * 256 + y as nat
    ensures Big(a + [x, y]) == Big(a) * 0x1_0000 + Big([x, y])
  {
    hide Big;
    assert [x, y] == [] + [x] + [y] && [] + [x] == [x] && a + [x, y] == a + [x] + [y];
    assert Big([]) == 0 by { BigNothing(); }
    BigLast([], x);
    BigLast([x], y);
    BigLast(a, x);
    BigLast(a + [x], y);
  }

  lemma BigNothing()
    ensures Big([]) == 0
  {
  }

  lemma BigFour(a: seq<byte>, b: seq<byte>)
    requires |b| == 4
    ensures Big(a + b) == Big(a) * 0x1_0000_0000 + Big(b)
  {
    hide Big;
    var hi, lo := b[..2], b[2..];
    assert hi == [b[0], b[1]] && lo == [b[2], b[3]];
    assert a + b == a + hi + lo && b == hi + lo;
    BigTwo(a, b[0], b[1]);
    BigTwo(a + hi, b[2], b[3]);
    BigTwo(hi, b[2], b[3]);
  }

  /** From byte k on, p is q. */
  ghost predicate From(p: seq<byte>, k: nat, q: seq<byte>) {
    k <= |p| && p[k..] == q
  }

  lemma Slices(p: seq<byte>, k: nat, q: seq<byte>, n: nat)
    requires From(p, k, q) && n <= |q|
    ensures k + n <= |p| && p[k..k + n] == q[..n] && From(p, k + n, q[n..])
  {
  }

  lemma Next8(p: seq<byte>, k: nat, v: nat, tail: seq<byte>)
    requires From(p, k, Put8(v, tail)) && v < 256
    ensures Holds(p, k, 1, v) && From(p, k + 1, tail)
  {
    Slices(p, k, Put8(v, tail), 1);
    BigTwo([], v, 0);
    assert Put8(v, tail)[..1] == [v] && Put8(v, tail)[1..] == tail;
  }

  lemma Front16(v: nat, tail: seq<byte>)
    requires v <= U16_MAX
    ensures Big(Put16(v, tail)[..2]) == v && Put16(v, tail)[2..] == tail
  {
    var p := Put16(v, tail);
    assert p[..2] == [p[0], p[1]];
    BigTwo([], p[0], p[1]);
  }

  lemma Front32(v: nat, tail: seq<byte>)
    requires v <= U32_MAX
    ensures Big(Put32(v, tail)[..4]) == v && Put32(v, tail)[4..] == tail
  {
    hide Put16, Big;
    var hi, lo := v / 0x1_0000, v % 0x1_0000;
    var rest := Put16(lo, tail);
    Front16(hi, rest);
    Front16(lo, tail);
    var p := Put32(v, tail);
    assert p[..4] == p[..2] + [rest[0], rest[1]] && rest[..2] == [rest[0], rest[1]];
    BigTwo(p[..2], rest[0], rest[1]);
    assert p[4..] == p[2..][2..];
  }

  lemma Front64(v: nat, tail: seq<byte>)
    requires v <= U64_MAX
    ensures Big(Put64(v, tail)[..8]) == v && Put64(v, tail)[8..] == tail
  {
    hide Put32, Big;
    var hi, lo := v / 0x1_0000_0000, v % 0x1_0000_0000;
    var rest := Put32(lo, tail);
    Front32(hi, rest);
    Front32(lo, tail);
    var p := Put64(v, tail);
    assert p[4..] == rest;
    assert p[..8] == p[..4] + rest[..4];
    BigFour(p[..4], rest[..4]);
    assert p[8..] == p[4..][4..];
  }

  lemma Next16(p: seq<byte>, k: nat, v: nat, tail: seq<byte>)
    requires From(p, k, Put16(v, tail)) && v <= U16_MAX
    ensures Holds(p, k, 2, v) && From(p, k + 2, tail)
  {
    hide Put16, Big;
    Front16(v, tail);
    Slices(p, k, Put16(v, tail), 2);
  }

  lemma Next32(p: seq<byte>, k: nat, v: nat, tail: seq<byte>)
    requires From(p, k, Put32(v, tail)) && v <= U32_MAX
    ensures Holds(p, k, 4, v) && From(p, k + 4, tail)
  {
    hide Put32, Big;
    Front32(v, tail);
    Slices(p, k, Put32(v, tail), 4);
  }

  lemma Next64(p: seq<byte>, k: nat, v: nat, tail: seq<byte>)
    requires From(p, k, Put64(v, tail)) && v <= U64_MAX
    ensures Holds(p, k, 8, v) && From(p, k + 8, tail)
  {
    hide Put64, Big;
    Front64(v, tail);
    Slices(p, k, Put64(v, tail), 8);
  }

  lemma NextSigned(p: seq<byte>, k: nat, v: int, tail: seq<byte>)
    requires From(p, k, PutSigned16(v, tail)) && -0x8000 <= v < 0x8000
    ensures HoldsSigned(p, k, v) && From(p, k + 2, tail)
  {
    hide Put16, Big;
    Next16(p, k, v % 0x1_0000, tail);
  }

  lemma NextHeader(p: seq<byte>, h: Header, tail: seq<byte>)
    requires p == PutHeader(h, tail) && TypedHeader(h)
    ensures HeaderAt(h, p) && From(p, 25, tail)
  {
    hide Put8, Put64, Big, Holds;
    var flag := Put8(if h.keyframe then 1 else 0, tail);
    assert p[0..] == p;
    Next64(p, 0, h.generation, Put64(h.sequence, Put64(h.base, flag)));
    Next64(p, 8, h.sequence, Put64(h.base, flag));
    Next64(p, 16, h.base, flag);
    Next8(p, 24, if h.keyframe then 1 else 0, tail);
  }

  lemma NextRectangle(p: seq<byte>, k: nat, r: Rectangle, tail: seq<byte>)
    requires From(p, k, PutRectangle(r, tail)) && TypedRectangle(r)
    ensures RectangleAt(r, p, k) && From(p, k + 22 + |r.pixels|, tail)
  {
    hide Put16, Put32, Big, Holds;
    var q6 := r.pixels + tail;
    var q5 := Put32(|r.pixels|, q6);
    var q4 := Put16(r.encoding, q5);
    var q3 := Put32(r.rect.h, q4);
    var q2 := Put32(r.rect.w, q3);
    Next32(p, k, r.rect.x, Put32(r.rect.y, q2));
    Next32(p, k + 4, r.rect.y, q2);
    Next32(p, k + 8, r.rect.w, q3);
    Next32(p, k + 12, r.rect.h, q4);
    Next16(p, k + 16, r.encoding, q5);
    Next32(p, k + 18, |r.pixels|, q6);
    Slices(p, k + 22, q6, |r.pixels|);
    assert q6[..|r.pixels|] == r.pixels && q6[|r.pixels|..] == tail;
  }

  lemma {:induction false} NextRectangles(p: seq<byte>, k: nat, rs: seq<Rectangle>)
    requires From(p, k, PutRectangles(rs)) && TypedRectangles(rs)
    ensures RectanglesAt(rs, p, k)
    decreases |rs|
  {
    hide PutRectangle, RectangleAt, TypedRectangle;
    if rs != [] {
      NextRectangle(p, k, rs[0], PutRectangles(rs[1..]));
      NextRectangles(p, k + 22 + |rs[0].pixels|, rs[1..]);
    }
  }

  // ----- every payload has its layout

  lemma HelloLayout(m: Message)
    requires (m.Auth? || m.ClientHello? || m.ServerHello?) && Typed(m)
    ensures LaidOut(m, TypeOf(m), Marshal(m))
  {
    hide Put16, Put64, Big, Holds;
    var p := Marshal(m);
    assert p[0..] == p;
    match m
    case Auth(version, token) => Next16(p, 0, version, token);
    case ClientHello(min, max, capabilities) =>
      Next16(p, 0, min, Put16(max, Put64(capabilities, [])));
      Next16(p, 2, max, Put64(capabilities, []));
      Next64(p, 4, capabilities, []);
    case ServerHello(version, capabilities) =>
      Next16(p, 0, version, Put64(capabilities, []));
      Next64(p, 2, capabilities, []);
  }

  lemma DisplayLayout(m: Message)
    requires m.Display? && Typed(m)
    ensures LaidOut(m, TypeOf(m), Marshal(m))
  {
    hide Put16, Put32, Put64, Big, Holds;
    var p, c := Marshal(m), m.config;
    assert p[0..] == p;
    var q4 := Put16(c.pixelFormat, []);
    var q3 := Put32(c.physicalHeight, q4);
    var q2 := Put32(c.physicalWidth, q3);
    var q1 := Put32(c.height, q2);
    Next64(p, 0, c.generation, Put32(c.width, q1));
    Next32(p, 8, c.width, q1);
    Next32(p, 12, c.height, q2);
    Next32(p, 16, c.physicalWidth, q3);
    Next32(p, 20, c.physicalHeight, q4);
    Next16(p, 24, c.pixelFormat, []);
  }

  lemma FrameLayout(m: Message)
    requires (m.WholeFrame? || m.Part?) && Typed(m)
    ensures LaidOut(m, TypeOf(m), Marshal(m))
  {
    hide Put16, PutHeader, PutRectangles, RectanglesAt, TypedRectangles, Big, Holds, HeaderAt;
    var p := Marshal(m);
    var rs := if m.WholeFrame? then m.frame.rectangles else m.part.rectangles;
    var q := Put16(|rs|, PutRectangles(rs));
    if m.WholeFrame? {
      NextHeader(p, m.frame.header, q);
      Next16(p, 25, |rs|, PutRectangles(rs));
      NextRectangles(p, 27, rs);
    } else {
      NextHeader(p, m.part.header, Put16(m.part.partIndex, Put16(m.part.partCount, q)));
      Next16(p, 25, m.part.partIndex, Put16(m.part.partCount, q));
      Next16(p, 27, m.part.partCount, q);
      Next16(p, 29, |rs|, PutRectangles(rs));
      NextRectangles(p, 31, rs);
    }
  }

  /** What follows the header of an input event. */
  lemma InputLayout(p: seq<byte>, generation: nat, sequence: nat, tail: seq<byte>)
    requires p == Put64(generation, Put64(sequence, tail)) && generation <= U64_MAX && sequence <= U64_MAX
    ensures InputAt(generation, sequence, p) && From(p, 16, tail)
  {
    hide Put64, Big, Holds;
    assert p[0..] == p;
    Next64(p, 0, generation, Put64(sequence, tail));
    Next64(p, 8, sequence, tail);
  }

  lemma KeyLayout(m: Message)
    requires (m.Key? || m.PointerButton? || m.FocusLost?) && Typed(m)
    ensures LaidOut(m, TypeOf(m), Marshal(m))
  {
    hide Put8, Put16, Put64, Big, Holds, InputAt;
    var p := Marshal(m);
    match m
    case Key(generation, sequence, usage, action, modifiers) =>
      InputLayout(p, generation, sequence, Put16(usage, Put8(action, Put8(modifiers, []))));
      Next16(p, 16, usage, Put8(action, Put8(modifiers, [])));
      Next8(p, 18, action, Put8(modifiers, []));
      Next8(p, 19, modifiers, []);
    case PointerButton(generation, sequence, button, action) =>
      InputLayout(p, generation, sequence, Put8(button, Put8(action, [])));
      Next8(p, 16, button, Put8(action, []));
      Next8(p, 17, action, []);
    case FocusLost(generation, sequence) => InputLayout(p, generation, sequence, []);
  }

  lemma PointerLayout(m: Message)
    requires (m.PointerMove? || m.PointerWheel?) && Typed(m)
    ensures LaidOut(m, TypeOf(m), Marshal(m))
  {
    hide Put32, PutSigned16, Put64, Big, Holds, HoldsSigned, InputAt;
    var p := Marshal(m);
    match m
    case PointerMove(generation, sequence, x, y) =>
      InputLayout(p, generation, sequence, Put32(x, Put32(y, [])));
      Next32(p, 16, x, Put32(y, []));
      Next32(p, 20, y, []);
    case PointerWheel(generation, sequence, horizontal, vertical) =>
      InputLayout(p, generation, sequence, PutSigned16(horizontal, PutSigned16(vertical, [])));
      NextSigned(p, 16, horizontal, PutSigned16(vertical, []));
      NextSigned(p, 18, vertical, []);
  }

  lemma SmallLayout(m: Message)
    requires (m.KeyframeRequest? || m.Ping? || m.Pong? || m.Failure? || m.Close?) && Typed(m)
    ensures LaidOut(m, TypeOf(m), Marshal(m))
  {
    hide Put16, Put64, Big, Holds;
    var p := Marshal(m);
    assert p[0..] == p;
    match m
    case KeyframeRequest(generation) => Next64(p, 0, generation, []);
    case Ping(nonce) => Next64(p, 0, nonce, []);
    case Pong(nonce) => Next64(p, 0, nonce, []);
    case Failure(code, text) =>
      Next16(p, 0, code, PutText(text));
      Next16(p, 2, |text|, text);
    case Close(code, text) =>
      Next16(p, 0, code, PutText(text));
      Next16(p, 2, |text|, text);
  }

  lemma MarshalLayout(m: Message)
    requires Typed(m)
    ensures LaidOut(m, TypeOf(m), Marshal(m))
  {
    hide LaidOut, Typed, Marshal;
    match m
    case Auth(_, _) => HelloLayout(m);
    case ClientHello(_, _, _) => HelloLayout(m);
    case ServerHello(_, _) => HelloLayout(m);
    case Display(_) => DisplayLayout(m);
    case WholeFrame(_) => FrameLayout(m);
    case Part(_) => FrameLayout(m);
    case Key(_, _, _, _, _) => KeyLayout(m);
    case PointerButton(_, _, _, _) => KeyLayout(m);
    case FocusLost(_, _) => KeyLayout(m);
    case PointerMove(_, _, _, _) => PointerLayout(m);
    case PointerWheel(_, _, _, _) => PointerLayout(m);
    case _ => SmallLayout(m);
  }

  // ----- and no other bytes have it

  lemma {:induction false} SameNumber(a: seq<byte>, b: seq<byte>)
    requires |a| == |b| && Big(a) == Big(b)
    ensures a == b
    decreases |a|
  {
    if a != [] {
      var x: nat, y: nat := a[|a| - 1], b[|b| - 1];
      assert Big(a) == Big(a[..|a| - 1]) * 256 + x && Big(b) == Big(b[..|b| - 1]) * 256 + y;
      SameNumber(a[..|a| - 1], b[..|b| - 1]);
      assert a == a[..|a| - 1] + [a[|a| - 1]] && b == b[..|b| - 1] + [b[|b| - 1]];
    }
  }

  /** p and q agree up to byte k. */
  ghost predicate Agree(p: seq<byte>, q: seq<byte>, k: nat) {
    k <= |p| && k <= |q| && p[..k] == q[..k]
  }

  lemma FieldAgrees(p: seq<byte>, q: seq<byte>, k: nat, n: nat, v: nat)
    requires Agree(p, q, k) && Holds(p, k, n, v) && Holds(q, k, n, v)
    ensures Agree(p, q, k + n)
  {
    hide Big;
    SameNumber(p[k..k + n], q[k..k + n]);
    assert p[..k + n] == p[..k] + p[k..k + n] && q[..k + n] == q[..k] + q[k..k + n];
  }

  lemma RectangleAgrees(p: seq<byte>, q: seq<byte>, k: nat, r: Rectangle)
    requires Agree(p, q, k) && RectangleAt(r, p, k) && RectangleAt(r, q, k)
    ensures Agree(p, q, k + 22 + |r.pixels|)
  {
    hide Holds, Agree;
    FieldAgrees(p, q, k, 4, r.rect.x);
    FieldAgrees(p, q, k + 4, 4, r.rect.y);
    FieldAgrees(p, q, k + 8, 4, r.rect.w);
    FieldAgrees(p, q, k + 12, 4, r.rect.h);
    FieldAgrees(p, q, k + 16, 2, r.encoding);
    FieldAgrees(p, q, k + 18, 4, |r.pixels|);
    BytesAgree(p, q, k + 22, |r.pixels|);
  }

  lemma BytesAgree(p: seq<byte>, q: seq<byte>, k: nat, n: nat)
    requires Agree(p, q, k) && k + n <= |p| && k + n <= |q| && p[k..k + n] == q[k..k + n]
    ensures Agree(p, q, k + n)
  {
    assert p[..k + n] == p[..k] + p[k..k + n] && q[..k + n] == q[..k] + q[k..k + n];
  }

  lemma {:induction false} RectanglesAgree(p: seq<byte>, q: seq<byte>, k: nat, rs: seq<Rectangle>)
    requires Agree(p, q, k) && RectanglesAt(rs, p, k) && RectanglesAt(rs, q, k)
    ensures p == q
    decreases |rs|
  {
    hide RectangleAt, Agree;
    if rs == [] {
      WholeAgrees(p, q, k);
    } else {
      RectangleAgrees(p, q, k, rs[0]);
      RectanglesAgree(p, q, k + 22 + |rs[0].pixels|, rs[1..]);
    }
  }

  lemma WholeAgrees(p: seq<byte>, q: seq<byte>, k: nat)
    requires Agree(p, q, k) && |p| == |q| == k
    ensures p == q
  {
  }

  lemma NothingAgrees(p: seq<byte>, q: seq<byte>)
    ensures Agree(p, q, 0)
  {
  }

  lemma HeaderAgrees(p: seq<byte>, q: seq<byte>, h: Header)
    requires HeaderAt(h, p) && HeaderAt(h, q)
    ensures Agree(p, q, 25)
  {
    hide Holds, Agree;
    NothingAgrees(p, q);
    FieldAgrees(p, q, 0, 8, h.generation);
    FieldAgrees(p, q, 8, 8, h.sequence);
    FieldAgrees(p, q, 16, 8, h.base);
    FieldAgrees(p, q, 24, 1, if h.keyframe then 1 else 0);
  }

  lemma FrameIsUnique(m: Message, t: nat, p: seq<byte>, q: seq<byte>)
    requires (m.WholeFrame? || m.Part?) && LaidOut(m, t, p) && LaidOut(m, t, q)
    ensures p == q
  {
    hide Holds, Agree, HeaderAt, RectanglesAt;
    if m.WholeFrame? {
      HeaderAgrees(p, q, m.frame.header);
      FieldAgrees(p, q, 25, 2, |m.frame.rectangles|);
      RectanglesAgree(p, q, 27, m.frame.rectangles);
    } else {
      HeaderAgrees(p, q, m.part.header);
      FieldAgrees(p, q, 25, 2, m.part.partIndex);
      FieldAgrees(p, q, 27, 2, m.part.partCount);
      FieldAgrees(p, q, 29, 2, |m.part.rectangles|);
      RectanglesAgree(p, q, 31, m.part.rectangles);
    }
  }

  lemma InputAgrees(p: seq<byte>, q: seq<byte>, generation: nat, sequence: nat)
    requires InputAt(generation, sequence, p) && InputAt(generation, sequence, q)
    ensures Agree(p, q, 16)
  {
    hide Holds, Agree;
    NothingAgrees(p, q);
    FieldAgrees(p, q, 0, 8, generation);
    FieldAgrees(p, q, 8, 8, sequence);
  }

  lemma InputIsUnique(m: Message, t: nat, p: seq<byte>, q: seq<byte>)
    requires m.Key? || m.PointerMove? || m.PointerButton? || m.PointerWheel? || m.FocusLost?
    requires LaidOut(m, t, p) && LaidOut(m, t, q)
    ensures p == q
  {
    hide Holds, Agree, InputAt;
    InputAgrees(p, q, m.generation, m.inputSequence);
    match m {
      case Key(_, _, usage, action, modifiers) =>
        FieldAgrees(p, q, 16, 2, usage);
        FieldAgrees(p, q, 18, 1, action);
        FieldAgrees(p, q, 19, 1, modifiers);
      case PointerMove(_, _, x, y) =>
        FieldAgrees(p, q, 16, 4, x);
        FieldAgrees(p, q, 20, 4, y);
      case PointerButton(_, _, button, action) =>
        FieldAgrees(p, q, 16, 1, button);
        FieldAgrees(p, q, 17, 1, action);
      case PointerWheel(_, _, horizontal, vertical) =>
        FieldAgrees(p, q, 16, 2, if horizontal < 0 then horizontal + 0x1_0000 else horizontal);
        FieldAgrees(p, q, 18, 2, if vertical < 0 then vertical + 0x1_0000 else vertical);
      case FocusLost(_, _) =>
    }
    WholeAgrees(p, q, |p|);
  }

  lemma TextAgrees(p: seq<byte>, q: seq<byte>, code: nat, text: seq<byte>)
    requires TextAt(code, text, p) && TextAt(code, text, q)
    ensures p == q
  {
    hide Holds, Agree;
    NothingAgrees(p, q);
    FieldAgrees(p, q, 0, 2, code);
    FieldAgrees(p, q, 2, 2, |text|);
    BytesAgree(p, q, 4, |text|);
    WholeAgrees(p, q, |p|);
  }

  lemma HelloIsUnique(m: Message, t: nat, p: seq<byte>, q: seq<byte>)
    requires (m.Auth? || m.ClientHello? || m.ServerHello?) && LaidOut(m, t, p) && LaidOut(m, t, q)
    ensures p == q
  {
    hide Holds, Agree;
    NothingAgrees(p, q);
    match m {
      case Auth(version, token) =>
        FieldAgrees(p, q, 0, 2, version);
        BytesAgree(p, q, 2, 32);
      case ClientHello(min, max, capabilities) =>
        FieldAgrees(p, q, 0, 2, min);
        FieldAgrees(p, q, 2, 2, max);
        FieldAgrees(p, q, 4, 8, capabilities);
      case ServerHello(version, capabilities) =>
        FieldAgrees(p, q, 0, 2, version);
        FieldAgrees(p, q, 2, 8, capabilities);
    }
    WholeAgrees(p, q, |p|);
  }

  lemma DisplayIsUnique(m: Message, t: nat, p: seq<byte>, q: seq<byte>)
    requires m.Display? && LaidOut(m, t, p) && LaidOut(m, t, q)
    ensures p == q
  {
    hide Holds, Agree;
    var c := m.config;
    NothingAgrees(p, q);
    FieldAgrees(p, q, 0, 8, c.generation);
    FieldAgrees(p, q, 8, 4, c.width);
    FieldAgrees(p, q, 12, 4, c.height);
    FieldAgrees(p, q, 16, 4, c.physicalWidth);
    FieldAgrees(p, q, 20, 4, c.physicalHeight);
    FieldAgrees(p, q, 24, 2, c.pixelFormat);
    WholeAgrees(p, q, 26);
  }

  lemma NumberIsUnique(p: seq<byte>, q: seq<byte>, v: nat)
    requires |p| == |q| == 8 && Holds(p, 0, 8, v) && Holds(q, 0, 8, v)
    ensures p == q
  {
    hide Holds, Agree;
    NothingAgrees(p, q);
    FieldAgrees(p, q, 0, 8, v);
    WholeAgrees(p, q, 8);
  }

  lemma LayoutIsUnique(m: Message, t: nat, p: seq<byte>, q: seq<byte>)
    requires LaidOut(m, t, p) && LaidOut(m, t, q)
    ensures p == q
  {
    hide Holds, TextAt;
    match m
    case Auth(_, _) => HelloIsUnique(m, t, p, q);
    case ClientHello(_, _, _) => HelloIsUnique(m, t, p, q);
    case ServerHello(_, _) => HelloIsUnique(m, t, p, q);
    case Display(_) => DisplayIsUnique(m, t, p, q);
    case WholeFrame(_) => FrameIsUnique(m, t, p, q);
    case Part(_) => FrameIsUnique(m, t, p, q);
    case KeyframeRequest(generation) => NumberIsUnique(p, q, generation);
    case Ping(nonce) => NumberIsUnique(p, q, nonce);
    case Pong(nonce) => NumberIsUnique(p, q, nonce);
    case Failure(code, text) => TextAgrees(p, q, code, text);
    case Close(code, text) => TextAgrees(p, q, code, text);
    case _ => InputIsUnique(m, t, p, q);
  }

  // ----- payloads

  /** The wire form: for every message whose values fit their fields, its payload is the one
      sequence of bytes with its layout, and its type number is the layout's. */
  lemma PayloadExactly(m: Message, t: nat, p: seq<byte>)
    requires Typed(m)
    ensures LaidOut(m, t, p) <==> t == TypeOf(m) && p == Marshal(m)
  {
    hide Marshal, Typed;
    MarshalLayout(m);
    if LaidOut(m, t, p) {
      OneType(m, t, p, TypeOf(m), Marshal(m));
      LayoutIsUnique(m, t, p, Marshal(m));
    }
  }

  lemma OneType(m: Message, t: nat, p: seq<byte>, u: nat, q: seq<byte>)
    requires LaidOut(m, t, p) && LaidOut(m, u, q)
    ensures t == u
  {
    hide Holds, HoldsSigned, HeaderAt, InputAt, TextAt, RectanglesAt;
  }

  /** The rectangle count, checked before any rectangle is read, is within the limit. */
  predicate Countable(m: Message, limits: Limits) {
    (m.WholeFrame? ==> |m.frame.rectangles| <= limits.maxRectangles)
    && (m.Part? ==> |m.part.rectangles| <= limits.maxRectangles)
  }

  /** Reading a payload: bytes laid out as some message of their type yield it, or what is wrong
      with it; bytes laid out as none are malformed. */
  lemma UnmarshalExactly(t: nat, p: seq<byte>, limits: Limits)
    requires 1 <= t <= 16
    ensures forall m :: Typed(m) && LaidOut(m, t, p) && Countable(m, limits) ==>
              Unmarshal(t, p, limits) == if MessageError(m, limits) == None then Ok(m)
                                         else Err(MessageError(m, limits).value)
    ensures (forall m :: Typed(m) && Countable(m, limits) ==> !LaidOut(m, t, p)) ==>
              Unmarshal(t, p, limits) == Err(Malformed)
  {
    hide LaidOut, Marshal, Typed, Parse, MessageError;
    forall m | Typed(m) && LaidOut(m, t, p) && Countable(m, limits)
      ensures Parse(t, p, limits) == Got(m, [])
    {
      PayloadExactly(m, t, p);
      AllFaithful(m, p, limits);
    }
    var r := Parse(t, p, limits);
    if r.Got? && r.rest == [] {
      AllFaithful(Sample(t), p, limits);
      PayloadExactly(r.value, t, p);
      ParsedIsCountable(t, p, limits);
      assert LaidOut(r.value, t, p) && Typed(r.value) && Countable(r.value, limits);
    }
  }

  lemma {:induction false} RectanglesCounted(p: seq<byte>, n: nat)
    ensures GetRectangles(p, n).Got? ==> |GetRectangles(p, n).value| == n
    decreases n
  {
    hide GetRectangle;
    if n > 0 && GetRectangle(p).Got? {
      RectanglesCounted(GetRectangle(p).rest, n - 1);
    }
  }

  lemma ListCounted(p: seq<byte>, limits: Limits)
    ensures GetRectangleList(p, limits).Got? ==> |GetRectangleList(p, limits).value| <= limits.maxRectangles
  {
    hide Get16, GetRectangles;
    if Get16(p).Got? {
      RectanglesCounted(Get16(p).rest, Get16(p).value);
    }
  }

  lemma ParsedIsCountable(t: nat, p: seq<byte>, limits: Limits)
    requires 1 <= t <= 16 && Parse(t, p, limits).Got?
    ensures Countable(Parse(t, p, limits).value, limits)
  {
    hide Get8, Get16, Get32, Get64, GetSigned16, GetBytes, GetText, GetHeader, GetRectangleList;
    if t == 5 || t == 16 {
      var p1 := GetHeader(p).rest;
      ListCounted(p1, limits);
      var p2 := if Get16(p1).Got? then Get16(p1).rest else [];
      var p3 := if Get16(p2).Got? then Get16(p2).rest else [];
      ListCounted(p3, limits);
    }
  }

  // ----- records

  /** A record on the wire: "VDP1", version, type, four zero bytes, payload length, number. */
  ghost predicate RecordAt(m: Message, version: nat, sequence: nat, r: seq<byte>, length: nat) {
    && 24 + length <= |r|
    && r[..4] == [0x56, 0x44, 0x50, 0x31]
    && Holds(r, 4, 2, version)
    && r[8..12] == [0, 0, 0, 0]
    && Holds(r, 12, 4, length)
    && Holds(r, 16, 8, sequence)
    && exists t :: Holds(r, 6, 2, t) && LaidOut(m, t, r[24..24 + length])
  }

  lemma ZeroWords(tail: seq<byte>)
    ensures Put16(0, Put16(0, tail)) == [0, 0, 0, 0] + tail
  {
  }

  /** What the encoder appends: a record of the message, and behind it what follows. */
  lemma RecordLayout(m: Message, version: nat, sequence: nat, tail: seq<byte>)
    requires Typed(m) && version <= U16_MAX && sequence <= U64_MAX && |Marshal(m)| <= U32_MAX
    ensures var r := Record(m, version, sequence, tail);
            && RecordAt(m, version, sequence, r, |Marshal(m)|)
            && r[24 + |Marshal(m)|..] == tail
  {
    hide Marshal, Typed, Put16, Put32, Put64, LaidOut, Holds;
    var r, p := Record(m, version, sequence, tail), Marshal(m);
    var q5 := Put64(sequence, p + tail);
    var q4 := Put32(|p|, q5);
    var q3 := Put16(0, Put16(0, q4));
    var q2 := Put16(TypeOf(m), q3);
    assert r[..4] == [0x56, 0x44, 0x50, 0x31] && r[4..] == Put16(version, q2);
    Next16(r, 4, version, q2);
    Next16(r, 6, TypeOf(m), q3);
    ZeroWords(q4);
    Slices(r, 8, q3, 4);
    Next32(r, 12, |p|, q5);
    Next64(r, 16, sequence, p + tail);
    Slices(r, 24, p + tail, |p|);
    assert (p + tail)[..|p|] == p && (p + tail)[|p|..] == tail;
    MarshalLayout(m);
  }

  /** What the encoder refuses: what validation does, and a FRAME_PART below version 2. */
  lemma RefusedExactly(m: Message, version: nat, limits: Limits)
    ensures EncodeError(m, version, limits)
            == if MessageError(m, limits).Some? then MessageError(m, limits)
               else if m.Part? && version < 2 then Some(BadVersion)
               else None
  {
    hide MessageError;
  }

  /** The payload cap of a type: FRAME and FRAME_PART carry pixels. */
  function CapOf(t: nat, limits: Limits): nat {
    if t == 5 || t == 16 then limits.maxPixelPayload else limits.maxControlPayload
  }

  /** The fields of a header, by offset. */
  lemma EnvelopeLayout(stream: seq<byte>)
    ensures GetEnvelope(stream).Got? <==> 24 <= |stream|
    ensures 24 <= |stream| ==>
              var e, rest := GetEnvelope(stream).value, GetEnvelope(stream).rest;
              && rest == stream[24..] && e.magic == stream[..4]
              && e.version == Big(stream[4..6]) && e.kind == Big(stream[6..8])
              && e.flags == Big(stream[8..10]) && e.reserved == Big(stream[10..12])
              && e.length == Big(stream[12..16]) && e.sequence == Big(stream[16..24])
  {
    hide Big, Get16, Get32, Get64;
    if 24 <= |stream| {
      var p := stream[4..];
      Read16(stream, 4);
      Read16(stream, 6);
      Read16(stream, 8);
      Read16(stream, 10);
      Read32(stream, 12);
      Read64(stream, 16);
    }
  }

  lemma Read16(p: seq<byte>, k: nat)
    requires k + 2 <= |p|
    ensures Get16(p[k..]) == Got(Big(p[k..k + 2]), p[k + 2..])
  {
    assert p[k..k + 2] == [p[k], p[k + 1]];
    BigTwo([], p[k], p[k + 1]);
    assert p[k..][2..] == p[k + 2..];
  }

  lemma Read32(p: seq<byte>, k: nat)
    requires k + 4 <= |p|
    ensures Get32(p[k..]) == Got(Big(p[k..k + 4]), p[k + 4..])
  {
    hide Big, Get16;
    Read16(p, k);
    Read16(p, k + 2);
    assert p[k + 2..k + 4] == [p[k + 2], p[k + 3]];
    assert p[k..k + 4] == p[k..k + 2] + [p[k + 2], p[k + 3]];
    BigTwo(p[k..k + 2], p[k + 2], p[k + 3]);
  }

  lemma Read64(p: seq<byte>, k: nat)
    requires k + 8 <= |p|
    ensures Get64(p[k..]) == Got(Big(p[k..k + 8]), p[k + 8..])
  {
    hide Big, Get32;
    Read32(p, k);
    Read32(p, k + 4);
    assert p[k..k + 8] == p[k..k + 4] + p[k + 4..k + 8];
    BigFour(p[k..k + 4], p[k + 4..k + 8]);
  }

  /** Why a record is refused before its payload is looked at, by offset and in this order. */
  ghost function HeaderVerdict(d: Receiver, stream: seq<byte>, limits: Limits): Option<Error> {
    if |stream| < 24 then Some(ShortRead)
    else if stream[..4] != [0x56, 0x44, 0x50, 0x31] then Some(Malformed)
    else if !(d.minVersion <= Big(stream[4..6]) <= d.maxVersion) then Some(BadVersion)
    else if !(1 <= Big(stream[6..8]) <= 16) then Some(UnknownType)
    else if Big(stream[6..8]) == 16 && Big(stream[4..6]) < 2 then Some(BadVersion)
    else if stream[8..12] != [0, 0, 0, 0] then Some(Malformed)
    else if Big(stream[12..16]) > CapOf(Big(stream[6..8]), limits) then Some(MessageTooLarge)
    else if Big(stream[16..24]) != d.sequence + 1 then Some(BadSequence)
    else if |stream| < 24 + Big(stream[12..16]) then Some(ShortRead)
    else None
  }

  lemma ZeroBytes(stream: seq<byte>)
    requires 24 <= |stream|
    ensures stream[8..12] == [0, 0, 0, 0] <==> Big(stream[8..10]) == 0 && Big(stream[10..12]) == 0
  {
    assert stream[8..10] == [stream[8], stream[9]] && stream[10..12] == [stream[10], stream[11]];
    BigTwo([], stream[8], stream[9]);
    BigTwo([], stream[10], stream[11]);
    assert stream[8..12] == [stream[8], stream[9], stream[10], stream[11]];
  }

  /** Reading a record: for every receiver and every stream, what the header's bytes say decides
      first, in order; then the payload's. */
  lemma DecodeExactly(d: Receiver, stream: seq<byte>, limits: Limits)
    ensures HeaderVerdict(d, stream, limits).Some? ==>
              DecodeRecord(d, stream, limits) == Err(HeaderVerdict(d, stream, limits).value)
    ensures HeaderVerdict(d, stream, limits) == None ==>
              var end := 24 + Big(stream[12..16]);
              DecodeRecord(d, stream, limits)
              == match Unmarshal(Big(stream[6..8]), stream[24..end], limits)
                 case Err(e) => Err(e)
                 case Ok(m) => Ok((m, stream[end..]))
  {
    hide Big, GetEnvelope, Unmarshal;
    EnvelopeLayout(stream);
    if 24 <= |stream| {
      ZeroBytes(stream);
      var n := Big(stream[12..16]);
      if |stream| >= 24 + n {
        assert stream[24..][..n] == stream[24..24 + n] && stream[24..][n..] == stream[24 + n..];
      }
    }
  }
}
