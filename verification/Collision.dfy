/** What a hash collision does to the replica, on concrete images. */
module Collision {
  import opened Types
  import opened Geometry
  import opened Raster
  import opened Messages
  import opened Tiling
  import opened Damage
  import Fnv
  import Host
  import opened ClientState
  import opened ClientRuns
  import opened Replica
  import opened System
  import opened WireBounds

  /** An unforced capture of the remembered geometry counts as unchanged exactly when the tile
      arithmetic wraps or every tile hashes as the remembered image's, whatever the bytes are. */
  lemma UnseenExactly(m: Memory, image: Image, c: Config, codecs: Codecs)
    requires ConfigOk(c) && MemoryOk(m, c, codecs.hash) && m.previous.pixels != [] && ValidImage(image)
    requires m.previous.width == image.width && m.previous.height == image.height
    ensures Compare(m, image, false, c, codecs) == (m, Ok(None))
            <==> Compare(m, image, false, c, codecs).1 == Ok(None)
    ensures Compare(m, image, false, c, codecs).1 == Ok(None)
            <==> Wraps(image, c.tileSize)
                 || forall i :: 0 <= i < TileCount(image, c.tileSize) ==>
                      codecs.hash(TileBytes(image, c.tileSize, i)) == codecs.hash(TileBytes(m.previous, c.tileSize, i))
  {
    hide Dirty, DamageRects, TileBytes, TileCount, EncodeAll, BandAll, Bands, FullFrame, IsDirty, StoredHashes,
         WellSized;
    hide GridOf, Wraps;
    if Wraps(image, c.tileSize) {
      WrappedSeesNothing(m, image, c, codecs);
    } else {
      var next := m.(sequence := m.sequence + 1);
      NoDamageExactly(m, next, image, c, codecs.hash);
      FullFrameIsSent(next, image, c, codecs);
    }
  }

  lemma FullFrameIsSent(m: Memory, image: Image, c: Config, codecs: Codecs)
    requires ValidImage(image) && ConfigOk(c)
    ensures FullFrame(m, image, c, codecs).1 != Ok(None)
  {
  }

  lemma NoDamageExactly(m: Memory, next: Memory, image: Image, c: Config, hash: seq<byte> -> nat)
    requires ConfigOk(c) && MemoryOk(m, c, hash) && m.previous.pixels != [] && ValidImage(image)
    requires m.previous.width == image.width && m.previous.height == image.height && !Wraps(image, c.tileSize)
    requires next.previous == m.previous && next.hashes == m.hashes
    ensures DirtyMap(Dirty(image, next, c.tileSize, hash), GridOf(image, c.tileSize))
    ensures DamageRects(Dirty(image, next, c.tileSize, hash), GridOf(image, c.tileSize)) == []
            <==> forall i :: 0 <= i < TileCount(image, c.tileSize) ==>
                   hash(TileBytes(image, c.tileSize, i)) == hash(TileBytes(m.previous, c.tileSize, i))
  {
    hide DamageRects, TileBytes, IsDirty, TileRect;
    var d, g := Dirty(image, next, c.tileSize, hash), GridOf(image, c.tileSize);
    if DamageRects(d, g) == [] {
      DamageRectsExact(d, g);
      forall i | 0 <= i < |d|
        ensures !d[i]
      {
        var px, py := TileHasPixel(g, i);
        DirtyPixelOfTile(d, g, i, px, py);
        assert !Covers([], px, py);
      }
    } else if forall i :: 0 <= i < |d| ==> !d[i] {
      NothingDirtyNothingDamaged(d, g);
    }
  }

  /** A capture whose every tile hashes as remembered counts as unchanged, whatever its bytes. */
  lemma SameHashesSeeNothing(m: Memory, image: Image, c: Host.Setup)
    requires Tiled(c) && MemoryOk(m, c.damage, c.codecs.hash) && m.previous.pixels != []
    requires ValidImage(image) && SameGeometry(m, image)
    requires Hashes(image, c.damage.tileSize, c.codecs.hash) == m.hashes
    ensures Compare(m, image, false, c.damage, c.codecs) == (m, Ok(None))
  {
    hide Hashes, TileBytes, Compare;
    forall i | 0 <= i < TileCount(image, c.damage.tileSize)
      ensures c.codecs.hash(TileBytes(image, c.damage.tileSize, i))
              == c.codecs.hash(TileBytes(m.previous, c.damage.tileSize, i))
    {
      assert Hashes(image, c.damage.tileSize, c.codecs.hash)[i] == m.hashes[i];
    }
    UnseenExactly(m, image, c.damage, c.codecs);
  }

  lemma NothingDirtyNothingDamaged(d: seq<bool>, g: Grid)
    requires DirtyMap(d, g) && forall i :: 0 <= i < |d| ==> !d[i]
    ensures DamageRects(d, g) == []
  {
    hide DamageRects;
    DamageRectsExact(d, g);
    var rs := DamageRects(d, g);
    if rs != [] {
      var px, py := rs[0].x, rs[0].y;
      assert Inside(rs[0], px, py) && Covers(rs, px, py);
      assert IsDirty(d, g, px, py);
      PixelTile(g, px, py);
      RowMajorBound(px / g.tile, py / g.tile, g.Cols(), g.Rows());
    }
  }

  lemma FirstCaptureIsKeyframe(image: Image, c: Host.Setup)
    requires Default(c) && NeverEmpty(c.codecs) && ValidImage(image) && c.version == VERSION2
    ensures Host.Takes(image, c) && SendsKeyframe(Host.START, image, false, c)
  {
    hide Hashes, StoredHashes, Bands, EncodeAll;
    CompareModest(NO_MEMORY, image, false, c);
  }

  /** The first capture of a session is shown exactly and remembered. */
  lemma FirstCaptureShown(a: Image, c: Host.Setup, client: Setup)
    requires Default(c) && Matched(c, client) && c.version == VERSION2 && ValidImage(a)
    ensures var hs := [Host.Taken(a, false, [])];
            && Ready(Host.START, BLANK, c, client) && Host.Possible(hs, c)
            && var p := Played(Host.START, BLANK, hs, c, client);
               && p.ok && p.client.pixels == a.pixels && a.pixels != [] && Inv(p.client, client)
               && p.host.memory.previous == a && !p.host.keyframeRequested
               && MemoryOk(p.host.memory, c.damage, c.codecs.hash)
               && p.host.memory.hashes == Hashes(a, c.damage.tileSize, c.codecs.hash)
  {
    hide Hashes, Played, Compare, Host.SendCapture, InSync, SendsKeyframe, Run, EventsOf, Follows, Ready;
    hide NeverEmpty, Host.Possible, AllLegal;
    var hs := [Host.Taken(a, false, [])];
    assert hs[..0] == [];
    BothLegal(a, a);
    MatchedNeverEmpty(c, client);
    StartsInSync(c, client);
    DefaultRunsNeverFail(Host.START, BLANK, hs, c, client);
    LastPossible(hs, c);
    NothingPlayed(Host.START, BLANK, c, client);
    FirstCaptureIsKeyframe(a, c);
    ClientEqualsHost(Host.START, BLANK, hs, c, client);
    ClientFollowsHost(Host.START, BLANK, hs, c, client);
    var p := Played(Host.START, BLANK, hs, c, client);
    ReadyInv(p.host, p.client, c, client);
    FirstRemembered(p.host, p.client, a, c, client);
    PlayedLast(Host.START, BLANK, hs, c, client);
    RequestTakenUp(Host.START, a, c);
  }

  /** A capture takes up any pending request. */
  lemma RequestTakenUp(h: Host.State, image: Image, c: Host.Setup)
    requires Host.SetupOk(c) && MemoryOk(h.memory, c.damage, c.codecs.hash) && Host.Takes(image, c)
    ensures !Host.SendCapture(h, image, false, c).0.keyframeRequested
  {
    hide Compare, Host.PlanFrame, Host.SendAll, Host.Prepare;
  }

  /** Two captures of one geometry, different in some bytes but in no hash: nothing fails, and
      yet the client goes on showing the first, while every tile hashes like the second's. */
  lemma CollisionShowsStale(a: Image, b: Image, c: Host.Setup, client: Setup)
    requires Default(c) && Matched(c, client) && c.version == VERSION2
    requires ValidImage(a) && ValidImage(b) && a.width == b.width && a.height == b.height && a.pixels != b.pixels
    requires Hashes(a, c.damage.tileSize, c.codecs.hash) == Hashes(b, c.damage.tileSize, c.codecs.hash)
    ensures var hs := [Host.Taken(a, false, []), Host.Taken(b, false, [])];
            && Ready(Host.START, BLANK, c, client) && Host.Possible(hs, c)
            && var p := Played(Host.START, BLANK, hs, c, client);
               p.ok && p.client.pixels == a.pixels != b.pixels
  {
    hide Hashes, Played, Compare, Host.SendCapture, Run, EventsOf, Ready, NeverEmpty, Host.Possible, AllLegal;
    var first, hs := [Host.Taken(a, false, [])], [Host.Taken(a, false, []), Host.Taken(b, false, [])];
    assert hs[..1] == first;
    BothLegal(a, b);
    MatchedNeverEmpty(c, client);
    FirstCaptureShown(a, c, client);
    DefaultRunsNeverFail(Host.START, BLANK, hs, c, client);
    PlayedLast(Host.START, BLANK, hs, c, client);
    LastPossible(hs, c);
    var p := Played(Host.START, BLANK, first, c, client);
    SecondUnseen(p.host, p.client, a, b, c, client);
  }

  lemma BothLegal(a: Image, b: Image)
    requires ValidImage(a) && ValidImage(b)
    ensures AllLegal([Host.Taken(a, false, [])]) && AllLegal([Host.Taken(a, false, []), Host.Taken(b, false, [])])
  {
  }

  lemma MatchedNeverEmpty(c: Host.Setup, client: Setup)
    requires Matched(c, client)
    ensures NeverEmpty(c.codecs)
  {
  }

  /** In sync and exact, the remembered image is the one shown. */
  lemma FirstRemembered(h: Host.State, s: State, a: Image, c: Host.Setup, client: Setup)
    requires Tiled(c) && InSync(h, s, c, client) && Follows(s, a, c)
    requires s.pixels == a.pixels == h.memory.previous.pixels
    ensures h.memory.previous == a && h.memory.previous.pixels != [] && ValidImage(a)
    ensures MemoryOk(h.memory, c.damage, c.codecs.hash)
            && h.memory.hashes == Hashes(a, c.damage.tileSize, c.codecs.hash)
  {
    hide Hashes;
    ImageNotEmpty(a);
  }

  lemma SecondUnseen(h: Host.State, s: State, a: Image, b: Image, c: Host.Setup, client: Setup)
    requires Tiled(c) && c.version == VERSION2 && Inv(s, client) && !h.keyframeRequested
    requires MemoryOk(h.memory, c.damage, c.codecs.hash) && h.memory.previous == a && a.pixels != []
    requires ValidImage(a) && ValidImage(b) && a.width == b.width && a.height == b.height
    requires h.memory.hashes == Hashes(b, c.damage.tileSize, c.codecs.hash) && Host.Takes(b, c)
    ensures Run(s, EventsOf(Host.SendCapture(h, b, false, c).1), client).0 == s
  {
    hide Hashes, Compare;
    SameHashesSeeNothing(h.memory, b, c);
    NothingSentNothingShown(s, client);
  }

  // ----- a witness under the source's own hash

  /** FNV-1a, and a compressor that prefixes a byte. */
  const CODECS := Codecs(x => [0] + x, Fnv.Hash)

  const HOST := Host.Configured(VERSION2, DEFAULT_LIMITS, Config(64, 0.0, 0, 0), CODECS, false, 0)

  const CLIENT := Setup(DEFAULT_LIMITS, (x: seq<byte>) => if x == [] then None else Some(x[1..]))

  /** Five pixels each, different and of one hash. */
  const BEFORE := Image(5, 1, Fnv.FIRST)
  const AFTER := Image(5, 1, Fnv.SECOND)

  /** All five pixels change, no host error occurs, and the client goes on showing the old ones. */
  lemma ChangedPixelsStay()
    ensures var hs := [Host.Taken(BEFORE, false, []), Host.Taken(AFTER, false, [])];
            && Ready(Host.START, BLANK, HOST, CLIENT) && Host.Possible(hs, HOST)
            && var p := Played(Host.START, BLANK, hs, HOST, CLIENT);
               p.ok && p.client.pixels == BEFORE.pixels != AFTER.pixels
  {
    hide Played, Hashes, Fnv.Hash, Lossless;
    ShippedIsDefault(VERSION2, 64, CODECS, false, 0);
    PrefixIsLossless();
    Fnv.OneHash();
    OneTile(BEFORE, CODECS.hash);
    OneTile(AFTER, CODECS.hash);
    CollisionShowsStale(BEFORE, AFTER, HOST, CLIENT);
  }

  /** A row of five pixels is a single tile. */
  lemma OneTile(image: Image, hash: seq<byte> -> nat)
    requires image.width == 5 && image.height == 1 && |image.pixels| == 20
    ensures ValidImage(image) && Hashes(image, 64, hash) == [hash(image.pixels)]
  {
    hide Crop;
    var g := GridOf(image, 64);
    assert g.Cols() == 1 && g.Rows() == 1;
    var r := TileRect(g, 0);
    assert r == WholeImage(image);
    CropRow(image, r, 0);
    assert Crop(image, r) == image.pixels;
  }

  lemma PrefixIsLossless()
    ensures Lossless(CODECS, CLIENT.inflate)
  {
    forall x: seq<byte>
      ensures CODECS.deflate(x) != [] && CLIENT.inflate(CODECS.deflate(x)) == Some(x)
    {
      assert ([0] + x)[1..] == x;
    }
  }
}
