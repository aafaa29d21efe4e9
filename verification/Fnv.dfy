/** The tile hash the detector uses, 64-bit FNV-1a, and two inputs it cannot tell apart. */
module Fnv {
  import opened Types

  const OFFSET: bv64 := 0xcbf2_9ce4_8422_2325
  const PRIME: bv64 := 0x100_0000_01b3

  /** One byte: exclusive or, then multiplication modulo 2^64. */
  function Mix(h: bv64, b: byte): bv64 {
    (h ^ b as bv64) * PRIME
  }

  function Feed(h: bv64, s: seq<byte>): bv64
    decreases |s|
  {
    if s == [] then h else Feed(Mix(h, s[0]), s[1..])
  }

  function Hash(s: seq<byte>): nat {
    Feed(OFFSET, s) as nat
  }

  /** Writing in pieces is writing the concatenation. */
  lemma {:induction false} FeedConcat(h: bv64, a: seq<byte>, b: seq<byte>)
    ensures Feed(h, a + b) == Feed(Feed(h, a), b)
    decreases |a|
  {
    hide Mix;
    if a == [] {
      assert a + b == b;
    } else {
      FeedConcat(Mix(h, a[0]), a[1..], b);
      assert (a + b)[1..] == a[1..] + b;
    }
  }

  // ----- two rows of five pixels with one hash

  /** One pixel. */
  function Mix4(h: bv64, a: byte, b: byte, c: byte, d: byte): bv64 {
    Mix(Mix(Mix(Mix(h, a), b), c), d)
  }

  lemma FeedOne(h: bv64, a: byte)
    ensures Feed(h, [a]) == Mix(h, a)
  {
    hide Mix;
    assert [a][1..] == [];
  }

  lemma FeedPixel(h: bv64, a: byte, b: byte, c: byte, d: byte)
    ensures Feed(h, [a, b, c, d]) == Mix4(h, a, b, c, d)
  {
    hide Mix, Feed;
    FeedOne(h, a);
    FeedOne(Mix(h, a), b);
    FeedOne(Mix(Mix(h, a), b), c);
    FeedOne(Mix(Mix(Mix(h, a), b), c), d);
    FeedConcat(h, [a], [b]);
    FeedConcat(h, [a, b], [c]);
    FeedConcat(h, [a, b, c], [d]);
    assert [a] + [b] == [a, b] && [a, b] + [c] == [a, b, c] && [a, b, c] + [d] == [a, b, c, d];
  }

  lemma FeedMore(before: seq<byte>, h: bv64, a: byte, b: byte, c: byte, d: byte)
    requires Feed(OFFSET, before) == h
    ensures Feed(OFFSET, before + [a, b, c, d]) == Mix4(h, a, b, c, d)
  {
    hide Mix4, Feed;
    FeedConcat(OFFSET, before, [a, b, c, d]);
    FeedPixel(h, a, b, c, d);
  }

  const FIRST: seq<byte> :=
    [56, 121, 110, 48] + [105, 89, 67, 75] + [89, 72, 108, 73] + [106, 52, 45, 66] + [119, 80, 113, 107]

  const SECOND: seq<byte> :=
    [71, 82, 101, 76] + [85, 114, 77, 52] + [119, 77, 113, 102] + [103, 57, 121, 122] + [86, 51, 75, 81]

  lemma FourLetters()
    ensures Mix4(OFFSET, 0x66, 0x6f, 0x6f, 0x62) == 0xdd12_0e79_0c25_12af
  {
  }

  /** Published answers of 64-bit FNV-1a: for nothing and for "foob". */
  lemma KnownAnswers()
    ensures Hash([]) == 0xcbf2_9ce4_8422_2325
    ensures Hash([0x66, 0x6f, 0x6f, 0x62]) == 0xdd12_0e79_0c25_12af
  {
    hide Mix4;
    FourLetters();
    FeedPixel(OFFSET, 0x66, 0x6f, 0x6f, 0x62);
  }

  lemma FirstPixel0()
    ensures Mix4(OFFSET, 56, 121, 110, 48) == 0xfed9_af3c_bf8a_9e84
  {
  }

  lemma FirstPixel1()
    ensures Mix4(0xfed9_af3c_bf8a_9e84, 105, 89, 67, 75) == 0x4704_0691_dc67_73a0
  {
  }

  lemma FirstPixel2()
    ensures Mix4(0x4704_0691_dc67_73a0, 89, 72, 108, 73) == 0xbdf4_eba3_8c1a_41a2
  {
  }

  lemma FirstPixel3()
    ensures Mix4(0xbdf4_eba3_8c1a_41a2, 106, 52, 45, 66) == 0x56c2_6c4e_d421_45eb
  {
  }

  lemma FirstPixel4()
    ensures Mix4(0x56c2_6c4e_d421_45eb, 119, 80, 113, 107) == 0x4eac_0c95_5408_67e4
  {
  }

  lemma FirstHash()
    ensures Feed(OFFSET, FIRST) == 0x4eac_0c95_5408_67e4
  {
    hide Mix4, Feed;
    FeedNothing();
    var s: seq<byte> := [];
    FirstPixel0();
    FeedMore(s, OFFSET, 56, 121, 110, 48);
    s := s + [56, 121, 110, 48];
    FirstPixel1();
    FeedMore(s, 0xfed9_af3c_bf8a_9e84, 105, 89, 67, 75);
    s := s + [105, 89, 67, 75];
    FirstPixel2();
    FeedMore(s, 0x4704_0691_dc67_73a0, 89, 72, 108, 73);
    s := s + [89, 72, 108, 73];
    FirstPixel3();
    FeedMore(s, 0xbdf4_eba3_8c1a_41a2, 106, 52, 45, 66);
    s := s + [106, 52, 45, 66];
    FirstPixel4();
    FeedMore(s, 0x56c2_6c4e_d421_45eb, 119, 80, 113, 107);
    assert s + [119, 80, 113, 107] == FIRST;
  }

  lemma SecondPixel0()
    ensures Mix4(OFFSET, 71, 82, 101, 76) == 0x0fe6_b87d_a79f_bc35
  {
  }

  lemma SecondPixel1()
    ensures Mix4(0x0fe6_b87d_a79f_bc35, 85, 114, 77, 52) == 0xaf1d_fea0_7455_80ef
  {
  }

  lemma SecondPixel2()
    ensures Mix4(0xaf1d_fea0_7455_80ef, 119, 77, 113, 102) == 0xa0ee_acf6_1457_5744
  {
  }

  lemma SecondPixel3()
    ensures Mix4(0xa0ee_acf6_1457_5744, 103, 57, 121, 122) == 0x209c_11c3_5df8_c213
  {
  }

  lemma SecondPixel4()
    ensures Mix4(0x209c_11c3_5df8_c213, 86, 51, 75, 81) == 0x4eac_0c95_5408_67e4
  {
  }

  lemma SecondHash()
    ensures Feed(OFFSET, SECOND) == 0x4eac_0c95_5408_67e4
  {
    hide Mix4, Feed;
    FeedNothing();
    var s: seq<byte> := [];
    SecondPixel0();
    FeedMore(s, OFFSET, 71, 82, 101, 76);
    s := s + [71, 82, 101, 76];
    SecondPixel1();
    FeedMore(s, 0x0fe6_b87d_a79f_bc35, 85, 114, 77, 52);
    s := s + [85, 114, 77, 52];
    SecondPixel2();
    FeedMore(s, 0xaf1d_fea0_7455_80ef, 119, 77, 113, 102);
    s := s + [119, 77, 113, 102];
    SecondPixel3();
    FeedMore(s, 0xa0ee_acf6_1457_5744, 103, 57, 121, 122);
    s := s + [103, 57, 121, 122];
    SecondPixel4();
    FeedMore(s, 0x209c_11c3_5df8_c213, 86, 51, 75, 81);
    assert s + [86, 51, 75, 81] == SECOND;
  }

  lemma FeedNothing()
    ensures Feed(OFFSET, []) == OFFSET
  {
  }

  /** Different bytes, the same hash. */
  lemma OneHash()
    ensures Hash(FIRST) == Hash(SECOND) && FIRST != SECOND
  {
    hide Feed;
    FirstHash();
    SecondHash();
    assert FIRST[0] != SECOND[0];
  }
}
