/** Which messages are accepted and why the others are refused, in the protocol's own numbers. */
module Verdicts {
  import opened Types
  import opened Geometry
  import opened Messages
  import opened Wire
  import opened Validation

  // ----- text

  /** A Unicode scalar value: any code point that is not a surrogate. */
  predicate Scalar(c: nat) {
    c < 0xD800 || 0xE000 <= c < 0x11_0000
  }

  /** The octets of one character (RFC 3629, section 3). */
  function Utf8(c: nat): seq<byte>
    requires Scalar(c)
  {
    if c < 0x80 then [c]
    else if c < 0x800 then [0xC0 + c / 0x40, 0x80 + c % 0x40]
    else if c < 0x1_0000 then [0xE0 + c / 0x1000, 0x80 + c / 0x40 % 0x40, 0x80 + c % 0x40]
    else [0xF0 + c / 0x4_0000, 0x80 + c / 0x1000 % 0x40, 0x80 + c / 0x40 % 0x40, 0x80 + c % 0x40]
  }

  ghost predicate Scalars(cs: seq<nat>) {
    forall k :: 0 <= k < |cs| ==> Scalar(cs[k])
  }

  function Encoded(cs: seq<nat>): seq<byte>
    requires Scalars(cs)
  {
    if cs == [] then [] else Utf8(cs[0]) + Encoded(cs[1..])
  }

  /** The character s starts with. */
  function Leading(s: seq<byte>): nat
    requires s != [] && ValidUtf8(s)
  {
    var lead: nat := s[0];
    if lead < 0x80 then lead
    else
      var a: nat := s[1];
      if lead < 0xE0 then (lead - 0xC0) * 0x40 + (a - 0x80)
      else
        var b: nat := s[2];
        if lead < 0xF0 then ((lead - 0xE0) * 0x40 + (a - 0x80)) * 0x40 + (b - 0x80)
        else
          var d: nat := s[3];
          (((lead - 0xF0) * 0x40 + (a - 0x80)) * 0x40 + (b - 0x80)) * 0x40 + (d - 0x80)
  }

  lemma LeadingIsFirst(s: seq<byte>)
    requires s != [] && ValidUtf8(s)
    ensures Scalar(Leading(s)) && Utf8(Leading(s)) <= s && ValidUtf8(s[|Utf8(Leading(s))|..])
  {
    hide Utf8;
    var lead: nat := s[0];
    if lead < 0x80 {
      assert Utf8(lead) == [s[0]] by { OneOctet(lead); }
    } else if lead < 0xE0 {
      TwoOctets(lead, s[1]);
      assert s[..2] == [s[0], s[1]];
    } else if lead < 0xF0 {
      ThreeOctets(lead, s[1], s[2]);
      assert s[..3] == [s[0], s[1], s[2]];
    } else {
      FourOctets(lead, s[1], s[2], s[3]);
      assert s[..4] == [s[0], s[1], s[2], s[3]];
    }
  }

  lemma OneOctet(lead: nat)
    requires lead < 0x80
    ensures Utf8(lead) == [lead]
  {
  }

  lemma TwoOctets(lead: nat, a: nat)
    requires 0xC2 <= lead < 0xE0 && 0x80 <= a < 0xC0
    ensures var c := (lead - 0xC0) * 0x40 + (a - 0x80); Scalar(c) && Utf8(c) == [lead, a]
  {
  }

  lemma ThreeOctets(lead: nat, a: nat, b: nat)
    requires 0xE0 <= lead < 0xF0 && 0x80 <= a < 0xC0 && 0x80 <= b < 0xC0
    requires (lead == 0xE0 ==> 0xA0 <= a) && (lead == 0xED ==> a < 0xA0)
    ensures var c := ((lead - 0xE0) * 0x40 + (a - 0x80)) * 0x40 + (b - 0x80); Scalar(c) && Utf8(c) == [lead, a, b]
  {
    var e := (lead - 0xE0) * 0x40 + (a - 0x80);
    var c := e * 0x40 + (b - 0x80);
    assert c / 0x40 == e && e / 0x40 == lead - 0xE0;
    Quotients(c);
  }

  lemma FourOctets(lead: nat, a: nat, b: nat, d: nat)
    requires 0xF0 <= lead <= 0xF4 && 0x80 <= a < 0xC0 && 0x80 <= b < 0xC0 && 0x80 <= d < 0xC0
    requires (lead == 0xF0 ==> 0x90 <= a) && (lead == 0xF4 ==> a < 0x90)
    ensures var c := (((lead - 0xF0) * 0x40 + (a - 0x80)) * 0x40 + (b - 0x80)) * 0x40 + (d - 0x80);
            Scalar(c) && Utf8(c) == [lead, a, b, d]
  {
    var e := (lead - 0xF0) * 0x40 + (a - 0x80);
    var f := e * 0x40 + (b - 0x80);
    var c := f * 0x40 + (d - 0x80);
    assert c / 0x40 == f && f / 0x40 == e && e / 0x40 == lead - 0xF0;
    Quotients(c);
  }

  lemma Quotients(c: nat)
    ensures c / 0x1000 == c / 0x40 / 0x40 && c / 0x4_0000 == c / 0x40 / 0x40 / 0x40
  {
  }

  lemma TwoOctetRange(c: nat)
    requires 0x80 <= c < 0x800
    ensures 0xC2 <= 0xC0 + c / 0x40 < 0xE0
  {
  }

  lemma ThreeOctetRange(c: nat)
    requires 0x800 <= c < 0x1_0000 && Scalar(c)
    ensures 0xE0 <= 0xE0 + c / 0x1000 < 0xF0
    ensures c / 0x1000 == 0 ==> 0x20 <= c / 0x40 % 0x40
    ensures c / 0x1000 == 0xD ==> c / 0x40 % 0x40 < 0x20
  {
    Quotients(c);
  }

  lemma FourOctetRange(c: nat)
    requires 0x1_0000 <= c < 0x11_0000
    ensures 0xF0 <= 0xF0 + c / 0x4_0000 <= 0xF4
    ensures c / 0x4_0000 == 0 ==> 0x10 <= c / 0x1000 % 0x40
    ensures c / 0x4_0000 == 4 ==> c / 0x1000 % 0x40 < 0x10
  {
    Quotients(c);
  }

  lemma AfterTwo(a: byte, b: byte, rest: seq<byte>)
    requires 0xC2 <= a < 0xE0 && Continuation(b)
    ensures ValidUtf8([a, b] + rest) <==> ValidUtf8(rest)
  {
    assert ([a, b] + rest)[2..] == rest;
  }

  lemma AfterThree(a: byte, b: byte, d: byte, rest: seq<byte>)
    requires 0xE0 <= a < 0xF0 && Continuation(b) && Continuation(d)
    requires (a == 0xE0 ==> 0xA0 <= b) && (a == 0xED ==> b < 0xA0)
    ensures ValidUtf8([a, b, d] + rest) <==> ValidUtf8(rest)
  {
    assert ([a, b, d] + rest)[3..] == rest;
  }

  lemma AfterFour(a: byte, b: byte, d: byte, e: byte, rest: seq<byte>)
    requires 0xF0 <= a <= 0xF4 && Continuation(b) && Continuation(d) && Continuation(e)
    requires (a == 0xF0 ==> 0x90 <= b) && (a == 0xF4 ==> b < 0x90)
    ensures ValidUtf8([a, b, d, e] + rest) <==> ValidUtf8(rest)
  {
    assert ([a, b, d, e] + rest)[4..] == rest;
  }

  lemma CharacterIsValid(c: nat, rest: seq<byte>)
    requires Scalar(c)
    ensures ValidUtf8(Utf8(c) + rest) <==> ValidUtf8(rest)
  {
    if c < 0x80 {
      assert ([c as byte] + rest)[1..] == rest;
    } else {
      hide ValidUtf8;
      if c < 0x800 {
        TwoOctetRange(c);
        AfterTwo(0xC0 + c / 0x40, 0x80 + c % 0x40, rest);
      } else if c < 0x1_0000 {
        ThreeOctetRange(c);
        AfterThree(0xE0 + c / 0x1000, 0x80 + c / 0x40 % 0x40, 0x80 + c % 0x40, rest);
      } else {
        FourOctetRange(c);
        AfterFour(0xF0 + c / 0x4_0000, 0x80 + c / 0x1000 % 0x40, 0x80 + c / 0x40 % 0x40, 0x80 + c % 0x40, rest);
      }
    }
  }

  lemma {:induction false} EncodedIsValid(cs: seq<nat>)
    requires Scalars(cs)
    ensures ValidUtf8(Encoded(cs))
  {
    hide Utf8;
    if cs != [] {
      EncodedIsValid(cs[1..]);
      CharacterIsValid(cs[0], Encoded(cs[1..]));
    }
  }

  lemma {:induction false} ValidIsEncoded(s: seq<byte>) returns (cs: seq<nat>)
    requires ValidUtf8(s)
    ensures Scalars(cs) && Encoded(cs) == s
    decreases |s|
  {
    hide Utf8, ValidUtf8, Leading;
    cs := [];
    if s != [] {
      LeadingIsFirst(s);
      var c := Leading(s);
      var u := Utf8(c);
      assert u != [] by { TakesOctets(c); }
      var rest := ValidIsEncoded(s[|u|..]);
      cs := [c] + rest;
      assert cs[1..] == rest && s == u + s[|u|..];
    }
  }

  lemma TakesOctets(c: nat)
    requires Scalar(c)
    ensures Utf8(c) != []
  {
  }

  /** Text: the octets accepted are those of the sequences of characters, and no others. */
  lemma TextExactly(s: seq<byte>)
    ensures ValidUtf8(s) <==> exists cs :: Scalars(cs) && Encoded(cs) == s
  {
    hide ValidUtf8;
    if ValidUtf8(s) {
      var cs := ValidIsEncoded(s);
    }
    forall cs | Scalars(cs) && Encoded(cs) == s
      ensures ValidUtf8(s)
    {
      EncodedIsValid(cs);
    }
  }

  // ----- limits

  /** A limit within its hard cap is kept; zero or anything above the cap means the cap. */
  predicate Effective(given: nat, cap: nat, kept: nat) {
    kept == if 1 <= given <= cap then given else cap
  }

  lemma LimitsExactly(l: Limits)
    ensures var b := Bounded(l);
            && Effective(l.maxControlPayload, 65536, b.maxControlPayload)
            && Effective(l.maxPixelPayload, 16777216, b.maxPixelPayload)
            && Effective(l.maxRectangles, 256, b.maxRectangles)
            && Effective(l.maxFrameParts, 32, b.maxFrameParts)
            && Effective(l.maxDimension, 8192, b.maxDimension)
  {
  }

  // ----- messages without pixels

  predicate Numbered(generation: nat, sequence: nat) {
    1 <= generation && 1 <= sequence
  }

  predicate PressOrRelease(action: nat) {
    action == 1 || action == 2
  }

  /** A usage of the keyboard page: keys and keypad, the keypad's second block, modifiers. */
  predicate KeyOfKeyboard(usage: nat) {
    usage in {0xe0, 0xe1, 0xe2, 0xe3, 0xe4, 0xe5, 0xe6, 0xe7} || 4 <= usage < 165 || 176 <= usage < 222
  }

  function Magnitude(i: int): nat { if i < 0 then -i else i }

  /** The wheel turned by whole clicks of 120, between one and twenty over both axes. */
  ghost predicate Clicks(horizontal: int, vertical: int) {
    exists i, j :: horizontal == 120 * i && vertical == 120 * j && 1 <= Magnitude(i) + Magnitude(j) <= 20
  }

  ghost predicate Text(s: seq<byte>) {
    |s| <= 1024 && exists cs :: Scalars(cs) && Encoded(cs) == s
  }

  /** A version outside those the message may name. */
  predicate NamesBadVersion(m: Message) {
    (m.Auth? && m.version != 1) || (m.ServerHello? && m.version != 1 && m.version != 2)
  }

  /** The message's fields are in range, a dimension being at most `dimension`. */
  ghost predicate InRange(m: Message, dimension: nat) {
    match m
    case Auth(_, token) => exists k :: 0 <= k < |token| && token[k] != 0
    case ClientHello(min, max, capabilities) => 1 <= min <= max && capabilities == 0
    case ServerHello(_, capabilities) => capabilities == 0
    case Display(c) =>
      1 <= c.generation && 1 <= c.width <= dimension && 1 <= c.height <= dimension && c.pixelFormat == 1
    case KeyframeRequest(generation) => 1 <= generation
    case Key(generation, sequence, usage, action, _) =>
      Numbered(generation, sequence) && KeyOfKeyboard(usage) && PressOrRelease(action)
    case PointerMove(generation, sequence, x, y) =>
      Numbered(generation, sequence) && x < dimension && y < dimension
    case PointerButton(generation, sequence, button, action) =>
      Numbered(generation, sequence) && 1 <= button <= 5 && PressOrRelease(action)
    case PointerWheel(generation, sequence, horizontal, vertical) =>
      Numbered(generation, sequence) && Clicks(horizontal, vertical)
    case FocusLost(generation, sequence) => Numbered(generation, sequence)
    case Failure(code, diagnostic) => 1 <= code <= 3 && Text(diagnostic)
    case Close(code, reason) => code <= 1 && Text(reason)
    case _ => true
  }

  /** The bytes of its payload. */
  function PayloadSize(m: Message): nat
    requires !m.WholeFrame? && !m.Part?
  {
    match m
    case Auth(_, token) => 2 + |token|
    case ClientHello(_, _, _) => 12
    case ServerHello(_, _) => 10
    case Display(_) => 26
    case Key(_, _, _, _, _) => 20
    case PointerMove(_, _, _, _) => 24
    case PointerButton(_, _, _, _) => 18
    case PointerWheel(_, _, _, _) => 20
    case FocusLost(_, _) => 16
    case Failure(_, diagnostic) => 4 + |diagnostic|
    case Close(_, reason) => 4 + |reason|
    case KeyframeRequest(_) => 8
    case Ping(_) => 8
    case Pong(_) => 8
  }

  lemma SizeExactly(m: Message)
    requires !m.WholeFrame? && !m.Part?
    ensures |Marshal(m)| == PayloadSize(m)
  {
  }

  lemma ClicksExactly(horizontal: int, vertical: int)
    ensures Clicks(horizontal, vertical)
            <==> && (horizontal != 0 || vertical != 0) && horizontal % 120 == 0 && vertical % 120 == 0
                 && WheelClicks(horizontal, vertical) <= 20
  {
    hide WheelClicks, Magnitude;
    if horizontal % 120 == 0 && vertical % 120 == 0 {
      var i, j := horizontal / 120, vertical / 120;
      assert horizontal == 120 * i && vertical == 120 * j;
      ClicksOf(i, j);
    }
    forall i, j | horizontal == 120 * i && vertical == 120 * j
      ensures horizontal % 120 == 0 && vertical % 120 == 0
      ensures WheelClicks(horizontal, vertical) == Magnitude(i) + Magnitude(j)
      ensures Magnitude(i) + Magnitude(j) == 0 <==> horizontal == 0 && vertical == 0
    {
      ClicksOf(i, j);
    }
  }

  lemma ClicksOf(i: int, j: int)
    ensures 120 * i % 120 == 0 && 120 * j % 120 == 0
    ensures WheelClicks(120 * i, 120 * j) == Magnitude(i) + Magnitude(j)
    ensures Magnitude(i) + Magnitude(j) == 0 <==> i == 0 && j == 0
  {
    ClicksOfAxis(i);
    ClicksOfAxis(j);
  }

  lemma ClicksOfAxis(i: int)
    ensures (if 120 * i < 0 then -(120 * i) else 120 * i) / 120 == Magnitude(i)
    ensures 120 * i % 120 == 0
  {
  }

  /** The verdict on every message that carries no pixels. */
  lemma ControlExactly(m: Message, l: Limits)
    requires !m.WholeFrame? && !m.Part?
    ensures MessageError(m, l)
            == if NamesBadVersion(m) then Some(BadVersion)
               else if !InRange(m, Bounded(l).maxDimension) then Some(Malformed)
               else if PayloadSize(m) > Bounded(l).maxControlPayload then Some(MessageTooLarge)
               else None
  {
    hide ValidUtf8, WheelClicks, Clicks, Marshal, Bounded;
    SizeExactly(m);
    match m
    case PointerWheel(_, _, horizontal, vertical) => ClicksExactly(horizontal, vertical);
    case Failure(_, diagnostic) => TextExactly(diagnostic);
    case Close(_, reason) => TextExactly(reason);
    case _ =>
  }

  // ----- messages with pixels

  predicate HeaderInRange(h: Header) {
    1 <= h.generation && h.base < h.sequence && (h.keyframe <==> h.base == 0)
  }

  /** Inside the largest display, in one of the two encodings. */
  predicate Placed(r: Rectangle, dimension: nat) {
    && 1 <= r.rect.w && 1 <= r.rect.h && r.rect.x + r.rect.w <= dimension && r.rect.y + r.rect.h <= dimension
    && (r.encoding == 1 || r.encoding == 2)
  }

  /** Raw pixels are four bytes each; compressed ones at least one byte. */
  predicate Filled(r: Rectangle) {
    if r.encoding == 1 then |r.pixels| == 4 * (r.rect.w * r.rect.h) else 1 <= |r.pixels|
  }

  /** The rectangles of a list that are well formed and, among themselves, disjoint. */
  ghost predicate Sound(rs: seq<Rectangle>, limits: Limits) {
    && (forall k :: 0 <= k < |rs| ==>
          Placed(rs[k], limits.maxDimension) && Filled(rs[k])
          && 4 * (rs[k].rect.w * rs[k].rect.h) <= limits.maxPixelPayload)
    && (forall j, k, px: nat, py: nat :: 0 <= j < k < |rs| && Inside(rs[j].rect, px, py) ==> !Inside(rs[k].rect, px, py))
  }

  /** Rectangle k is the first not to be sound, and it is too large. */
  ghost predicate OversizedFirst(rs: seq<Rectangle>, k: nat, limits: Limits) {
    && k < |rs| && Sound(rs[..k], limits) && Placed(rs[k], limits.maxDimension)
    && 4 * (rs[k].rect.w * rs[k].rect.h) > limits.maxPixelPayload
  }

  lemma SoundIsValid(rs: seq<Rectangle>, limits: Limits)
    ensures Sound(rs, limits) <==> ValidList(rs, limits)
  {
    hide Inside, Overlaps;
    var g := Rects(rs);
    forall k | 0 <= k < |rs|
      ensures ValidRectangle(rs[k], limits)
              <==> && Placed(rs[k], limits.maxDimension) && Filled(rs[k])
                   && 4 * (rs[k].rect.w * rs[k].rect.h) <= limits.maxPixelPayload
    {
    }
    forall j, k | 0 <= j < k < |rs| && Placed(rs[j], limits.maxDimension) && Placed(rs[k], limits.maxDimension)
      ensures Overlaps(g[j], g[k])
              <==> exists px: nat, py: nat :: Inside(rs[j].rect, px, py) && Inside(rs[k].rect, px, py)
    {
      OverlapIsSharedPixel(g[j], g[k]);
    }
  }

  lemma {:induction false} FirstError(rs: seq<Rectangle>, from: nat, limits: Limits)
    requires from <= |rs| && ValidList(rs[..from], limits)
    ensures ListError(rs, from, limits)
            == if ValidList(rs, limits) then None
               else if exists k :: from <= k && OversizedFirst(rs, k, limits) then Some(MessageTooLarge)
               else Some(Malformed)
    decreases |rs| - from
  {
    hide ValidRectangle, Placed, Filled, Overlaps;
    if from == |rs| {
      assert rs[..from] == rs;
    } else {
      var r := rs[from];
      OneMore(rs, from, limits);
      RectangleVerdict(r, limits);
      SoundIsValid(rs[..from], limits);
      forall k | from < k && OversizedFirst(rs, k, limits)
        ensures ValidList(rs[..from + 1], limits)
      {
        SoundIsValid(rs[..k], limits);
        PrefixIsValid(rs[..k], from + 1, limits);
        assert rs[..k][..from + 1] == rs[..from + 1];
      }
      if ValidList(rs[..from + 1], limits) {
        FirstError(rs, from + 1, limits);
        assert !OversizedFirst(rs, from, limits);
      } else {
        if ValidList(rs, limits) {
          PrefixIsValid(rs, from + 1, limits);
        }
        assert OversizedFirst(rs, from, limits)
          <==> Placed(r, limits.maxDimension) && 4 * (r.rect.w * r.rect.h) > limits.maxPixelPayload;
        assert ListError(rs, from, limits)
            == if OversizedFirst(rs, from, limits) then Some(MessageTooLarge) else Some(Malformed);
      }
    }
  }

  lemma PrefixIsValid(rs: seq<Rectangle>, k: nat, limits: Limits)
    requires k <= |rs| && ValidList(rs, limits)
    ensures ValidList(rs[..k], limits)
  {
    hide ValidRectangle, Overlaps;
    assert Rects(rs[..k]) == Rects(rs)[..k];
  }

  lemma OneMore(rs: seq<Rectangle>, k: nat, limits: Limits)
    requires k < |rs| && ValidList(rs[..k], limits)
    ensures ValidList(rs[..k + 1], limits) <==> ValidRectangle(rs[k], limits) && !OverlapsEarlier(rs, k)
  {
    hide ValidRectangle, Overlaps;
    var g, g' := Rects(rs[..k]), Rects(rs[..k + 1]);
    assert forall j :: 0 <= j < k ==> g'[j] == g[j];
    SameOverlap(rs, k);
    if ValidRectangle(rs[k], limits) && !OverlapsEarlier(rs, k) {
      forall i, j | 0 <= i < j < k + 1
        ensures !Overlaps(g'[i], g'[j])
      {
        if j < k {
          assert !Overlaps(g[i], g[j]);
        }
      }
    }
    if ValidList(rs[..k + 1], limits) {
      assert ValidRectangle(rs[..k + 1][k], limits);
      forall j | 0 <= j < k
        ensures !Overlaps(rs[k].rect, rs[j].rect)
      {
        assert !Overlaps(g'[j], g'[k]);
      }
    }
  }

  lemma SameOverlap(rs: seq<Rectangle>, k: nat)
    requires k < |rs|
    ensures forall j :: 0 <= j < k ==> (Overlaps(rs[k].rect, rs[j].rect) <==> Overlaps(rs[j].rect, rs[k].rect))
  {
  }

  lemma RectangleVerdict(r: Rectangle, limits: Limits)
    ensures RectangleError(r, limits)
            == if ValidRectangle(r, limits) then None
               else if Placed(r, limits.maxDimension) && 4 * (r.rect.w * r.rect.h) > limits.maxPixelPayload then
                 Some(MessageTooLarge)
               else Some(Malformed)
    ensures ValidRectangle(r, limits) ==> 4 * (r.rect.w * r.rect.h) <= limits.maxPixelPayload
  {
  }

  /** What the checks that FRAME and FRAME_PART share say of header and rectangles. */
  ghost function PixelVerdict(h: Header, rs: seq<Rectangle>, limits: Limits, size: nat): Option<Error> {
    if !HeaderInRange(h) || rs == [] then Some(Malformed)
    else if |rs| > limits.maxRectangles then Some(MessageTooLarge)
    else ListVerdict(rs, limits, size)
  }

  /** The rectangles in order, then the payload's size. */
  ghost function ListVerdict(rs: seq<Rectangle>, limits: Limits, size: nat): Option<Error> {
    if exists k :: OversizedFirst(rs, k, limits) then Some(MessageTooLarge)
    else if !Sound(rs, limits) then Some(Malformed)
    else if size > limits.maxPixelPayload then Some(MessageTooLarge)
    else None
  }

  lemma ListExactly(rs: seq<Rectangle>, limits: Limits, size: nat)
    ensures ListVerdict(rs, limits, size)
            == if ListError(rs, 0, limits).Some? then ListError(rs, 0, limits)
               else if size > limits.maxPixelPayload then Some(MessageTooLarge)
               else None
  {
    hide Sound, ValidList, ListError, OversizedFirst;
    assert ValidList(rs[..0], limits) by { NothingIsValid(rs[..0], limits); }
    FirstError(rs, 0, limits);
    SoundIsValid(rs, limits);
    forall k | OversizedFirst(rs, k, limits)
      ensures !Sound(rs, limits)
    {
      OversizedIsUnsound(rs, k, limits);
    }
  }

  lemma NothingIsValid(rs: seq<Rectangle>, limits: Limits)
    requires rs == []
    ensures ValidList(rs, limits)
  {
  }

  lemma OversizedIsUnsound(rs: seq<Rectangle>, k: nat, limits: Limits)
    requires OversizedFirst(rs, k, limits)
    ensures !Sound(rs, limits)
  {
    hide Inside;
  }

  /** The verdict on a FRAME: 27 bytes of header, then 22 and its pixels for each rectangle. */
  lemma FrameExactly(f: Frame, l: Limits)
    ensures MessageError(WholeFrame(f), l) == PixelVerdict(f.header, f.rectangles, Bounded(l), 27 + ListSize(f.rectangles))
  {
    hide Bounded, ListError, ListVerdict;
    ListExactly(f.rectangles, Bounded(l), 27 + ListSize(f.rectangles));
  }

  /** The verdict on a FRAME_PART: its place among at least two parts comes between header and
      rectangles. */
  lemma PartExactly(p: FramePart, l: Limits)
    ensures var limits, size := Bounded(l), 31 + ListSize(p.rectangles);
            var header := PixelVerdict(p.header, p.rectangles, limits, size);
            MessageError(Part(p), l)
            == if !HeaderInRange(p.header) || p.rectangles == [] || |p.rectangles| > limits.maxRectangles then header
               else if !(2 <= p.partCount <= limits.maxFrameParts && p.partIndex < p.partCount) then Some(Malformed)
               else ListVerdict(p.rectangles, limits, size)
  {
    hide Bounded, ListError, ListVerdict;
    ListExactly(p.rectangles, Bounded(l), 31 + ListSize(p.rectangles));
  }

  /** A list's marshaled size: 22 bytes and its pixels for each rectangle. */
  lemma {:induction false} ListSizeExactly(rs: seq<Rectangle>, r: Rectangle)
    ensures ListSize([]) == 0 && ListSize(rs + [r]) == ListSize(rs) + 22 + |r.pixels|
  {
    assert (rs + [r])[..|rs|] == rs;
  }
}
