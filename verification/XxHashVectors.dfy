/** Published values of XXH32, computed stage by stage. */
module Xxh32Vectors {
  import opened Bytes
  import opened XxStripes
  import opened Xxh32

  // ---------------------------------------------------------------- single stages

  /** One lane of a stripe: word, product, turned sum, result. */
  lemma {:induction false} Lane(a: byte, b: byte, c: byte, d: byte, acc: bv32, input: bv32, p: bv32, t: bv32, r: bv32)
    requires Word(a, b, c, d) == input && Times2(input) == p && Turn(acc, p, 13) == t && Times1(t) == r
    ensures Round(acc, Read32([a, b, c, d], 0)) == r
  {
    hide Word, Times1, Times2, Turn;
  }

  lemma {:induction false} Striped(l: Lanes, a: seq<byte>, b: seq<byte>, c: seq<byte>, d: seq<byte>, r: Lanes)
    requires |a| == |b| == |c| == |d| == 4 && Round(l.v1, Read32(a, 0)) == r.v1 && Round(l.v2, Read32(b, 0)) == r.v2
    requires Round(l.v3, Read32(c, 0)) == r.v3 && Round(l.v4, Read32(d, 0)) == r.v4
    ensures EatStripe(l, a + b + c + d) == r
  {
    hide Round, Word;
  }

  lemma {:induction false} AbsorbWord(h: bv32, a: byte, b: byte, c: byte, d: byte, input: bv32, p: bv32, t: bv32,
                                      r: bv32)
    requires Word(a, b, c, d) == input && Times3(input) == p && Turn(h, p, 17) == t && Times4(t) == r
    ensures Absorb(h, [a, b, c, d]) == r
  {
    hide Word, Times3, Times4, Turn;
  }

  lemma {:induction false} AbsorbByte(h: bv32, a: byte, input: bv32, p: bv32, t: bv32, r: bv32)
    requires a as bv32 == input && Times5(input) == p && Turn(h, p, 11) == t && Times1(t) == r
    ensures Absorb(h, [a]) == r
  {
    hide Times1, Times5, Turn;
  }

  lemma {:induction false} Shaken(h: bv32, a: bv32, b: bv32, c: bv32, d: bv32, r: bv32)
    requires Shake(h, 15) == a && Times2(a) == b && Shake(b, 13) == c && Times3(c) == d && Shake(d, 16) == r
    ensures Avalanche(h) == r
  {
    hide Shake, Times2, Times3;
  }

  lemma {:induction false} Merged(l: Lanes, a: bv32, b: bv32, c: bv32, d: bv32, r: bv32)
    requires Rotl(l.v1, 1) == a && Rotl(l.v2, 7) == b && Rotl(l.v3, 12) == c && Rotl(l.v4, 18) == d
    requires Sum(a, b, c, d) == r
    ensures Merge(l) == r
  {
    hide Rotl, Sum;
  }

  lemma {:induction false} Started(seed: bv32, p: bv32, q: bv32, l: Lanes)
    requires Times1(1) == p && Times2(1) == q && Plus(Plus(seed, p), q) == l.v1 && Plus(seed, q) == l.v2 && seed == l.v3
    requires Minus(seed, p) == l.v4
    ensures Start(seed) == l
  {
    hide Times1, Times2, Plus, Minus;
  }

  lemma {:induction false} LastChunk(h: bv32, c: seq<byte>)
    requires RULE.Valid() && c != [] && |c| == Chunk(|c|)
    ensures Tail(RULE, h, c) == Absorb(h, c)
  {
    hide Absorb;
    assert c + [] == c;
    TailMore(RULE, h, c, []);
  }

  /** All stages of a hash, from the lanes behind the last stripe on. */
  lemma {:induction false} Hashed(start: Lanes, data: seq<byte>, n: nat, l: Lanes, rest: seq<byte>, h0: bv32, h1: bv32,
                                  h2: bv32, r: bv32)
    requires RULE.Valid() && Eat(RULE, start, data) == l && Rest(16, data) == rest && |data| == n < TWO32
    requires h0 == if n >= 16 then Merge(l) else Small(start)
    requires AddLength(h0, n) == h1 && Tail(RULE, h1, rest) == h2 && Avalanche(h2) == r
    ensures Hash(RULE, start, data) == r
  {
    hide Eat, Rest, Tail, Merge, Small, AddLength, Avalanche;
  }

  // ---------------------------------------------------------------- a phrase

  const PHRASE1: seq<byte> :=
    [78, 111, 98, 111] + [100, 121, 32, 105] + [110, 115, 112, 101] + [99, 116, 115, 32]

  lemma Phrase1()
    ensures EatStripe(Lanes(0x24234428, 0x85EBCA77, 0x00000000, 0x61C8864F), PHRASE1) ==
            Lanes(0x046A700A, 0xBFADF8E3, 0x5B32B4AA, 0x137E5555)
  {
    hide EatStripe, Round, Read32;
    Lane(78, 111, 98, 111, 0x24234428, 0x6F626F4E, 0x252F4942, 0x51AD492A, 0x046A700A);
    Lane(100, 121, 32, 105, 0x85EBCA77, 0x69207964, 0xE0AD557C, 0x23FE6CD3, 0xBFADF8E3);
    Lane(110, 115, 112, 101, 0x00000000, 0x6570736E, 0xFE547422, 0x8E845FCA, 0x5B32B4AA);
    Lane(99, 116, 115, 32, 0x61C8864F, 0x20737463, 0x75623805, 0x57CA9AE5, 0x137E5555);
    Striped(Lanes(0x24234428, 0x85EBCA77, 0x00000000, 0x61C8864F), [78, 111, 98, 111], [100, 121, 32, 105], [110,
            115, 112, 101], [99, 116, 115, 32], Lanes(0x046A700A, 0xBFADF8E3, 0x5B32B4AA, 0x137E5555));
  }

  const PHRASE2: seq<byte> :=
    [116, 104, 101, 32] + [115, 112, 97, 109] + [109, 105, 115, 104] + [32, 114, 101, 112]

  lemma Phrase2()
    ensures EatStripe(Lanes(0x046A700A, 0xBFADF8E3, 0x5B32B4AA, 0x137E5555), PHRASE2) ==
            Lanes(0x719A836E, 0x514C1DE8, 0x97FA4BA2, 0x242A97A2)
  {
    hide EatStripe, Round, Read32;
    Lane(116, 104, 101, 32, 0x046A700A, 0x20656874, 0x3A0B15EC, 0xB0BEC7CE, 0x719A836E);
    Lane(115, 112, 97, 109, 0xBFADF8E3, 0x6D617073, 0xB3970375, 0x9F8B0E68, 0x514C1DE8);
    Lane(109, 105, 115, 104, 0x5B32B4AA, 0x6873696D, 0x06E503AB, 0xF70AAC42, 0x97FA4BA2);
    Lane(32, 114, 101, 112, 0x137E5555, 0x70657220, 0xAE954CE0, 0x7446B842, 0x242A97A2);
    Striped(Lanes(0x046A700A, 0xBFADF8E3, 0x5B32B4AA, 0x137E5555), [116, 104, 101, 32], [115, 112, 97, 109], [109,
            105, 115, 104], [32, 114, 101, 112], Lanes(0x719A836E, 0x514C1DE8, 0x97FA4BA2, 0x242A97A2));
  }

  const PHRASE_REST1: seq<byte> := [101, 116, 105, 116]

  const PHRASE_REST2: seq<byte> := [105]

  const PHRASE_REST3: seq<byte> := [111]

  const PHRASE_REST4: seq<byte> := [110]

  const PHRASE_REST: seq<byte> := PHRASE_REST1 + (PHRASE_REST2 + (PHRASE_REST3 + PHRASE_REST4))

  const PHRASE: seq<byte> := PHRASE1 + (PHRASE2 + PHRASE_REST)

  lemma PhraseMerged()
    ensures Merge(Lanes(0x719A836E, 0x514C1DE8, 0x97FA4BA2, 0x242A97A2)) ==
            0x8C86B52D
  {
    Merged(Lanes(0x719A836E, 0x514C1DE8, 0x97FA4BA2, 0x242A97A2), 0xE33506DC, 0xA60EF428, 0xA4BA297F, 0x5E8890AA,
           0x8C86B52D);
  }

  lemma PhraseAbsorbed()
    ensures Absorb(0x8C86B554, PHRASE_REST1) == 0x09B51544
    ensures Absorb(0x09B51544, PHRASE_REST2) == 0xCDEFD3C9
    ensures Absorb(0xCDEFD3C9, PHRASE_REST3) == 0x3852087B
    ensures Absorb(0x3852087B, PHRASE_REST4) == 0xB3A7011B
  {
    hide Absorb;
    AbsorbWord(0x8C86B554, 101, 116, 105, 116, 0x74697465, 0xE2776211, 0x2ECADDFC, 0x09B51544);
    AbsorbByte(0x09B51544, 105, 0x00000069, 0x29708799, 0x2CE6E999, 0xCDEFD3C9);
    AbsorbByte(0xCDEFD3C9, 111, 0x0000006F, 0xAF76F5BF, 0x364C43EB, 0x3852087B);
    AbsorbByte(0x3852087B, 110, 0x0000006E, 0x99208E0E, 0x94B44E8B, 0xB3A7011B);
  }

  lemma {:induction false} PhraseTail()
    ensures RULE.Valid() && Tail(RULE, 0x8C86B554, PHRASE_REST) == 0xB3A7011B
  {
    hide Tail, Absorb;
    RuleIsValid();
    PhraseAbsorbed();
    TailMore(RULE, 0x8C86B554, PHRASE_REST1, PHRASE_REST2 + (PHRASE_REST3 + PHRASE_REST4));
    TailMore(RULE, 0x09B51544, PHRASE_REST2, PHRASE_REST3 + PHRASE_REST4);
    TailMore(RULE, 0xCDEFD3C9, PHRASE_REST3, PHRASE_REST4);
    LastChunk(0x3852087B, PHRASE_REST4);
  }

  lemma {:induction false} PhraseLanes()
    ensures Eat(RULE, Lanes(0x24234428, 0x85EBCA77, 0x00000000, 0x61C8864F), PHRASE) ==
            Lanes(0x719A836E, 0x514C1DE8, 0x97FA4BA2, 0x242A97A2)
    ensures Rest(16, PHRASE) == PHRASE_REST
  {
    hide Eat, EatStripe;
    Phrase1();
    EatMore(RULE, Lanes(0x24234428, 0x85EBCA77, 0x00000000, 0x61C8864F), PHRASE1, PHRASE2 + PHRASE_REST);
    Phrase2();
    EatMore(RULE, Lanes(0x046A700A, 0xBFADF8E3, 0x5B32B4AA, 0x137E5555), PHRASE2, PHRASE_REST);
    EatShort(RULE, Lanes(0x719A836E, 0x514C1DE8, 0x97FA4BA2, 0x242A97A2), PHRASE_REST);
  }

  /** "Nobody inspects the spammish repetition", without a seed. */
  lemma {:induction false} PhraseHash()
    ensures RULE.Valid() && Hash(RULE, Start(0x00000000), PHRASE) == 0xE2293B2F
  {
    hide Eat, Rest, Tail, Start, Merge, Avalanche;
    Started(0x00000000, 0x9E3779B1, 0x85EBCA77, Lanes(0x24234428, 0x85EBCA77, 0x00000000, 0x61C8864F));
    PhraseLanes();
    PhraseMerged();
    PhraseTail();
    Shaken(0xB3A7011B, 0xB3A66655, 0xE81FA383, 0xE818E37E, 0xE229D906, 0xE2293B2F);
    Hashed(Lanes(0x24234428, 0x85EBCA77, 0x00000000, 0x61C8864F), PHRASE, 39, Lanes(0x719A836E, 0x514C1DE8,
           0x97FA4BA2, 0x242A97A2), PHRASE_REST, 0x8C86B52D, 0x8C86B554, 0xB3A7011B, 0xE2293B2F);
  }

  // ---------------------------------------------------------------- a longer input, with a seed

  const LONG1: seq<byte> :=
    [158, 255, 31, 75] + [94, 83, 47, 221] + [181, 84, 77, 42] + [149, 43, 87, 174]

  lemma Long1()
    ensures EatStripe(Lanes(0xC25ABDD9, 0x24234428, 0x9E3779B1, 0x00000000), LONG1) ==
            Lanes(0x82C65DDE, 0x4A3E0B66, 0x3F7D79C4, 0xAF374125)
  {
    hide EatStripe, Round, Read32;
    Lane(158, 255, 31, 75, 0xC25ABDD9, 0x4B1FFF9E, 0xE79C7E72, 0xE789753E, 0x82C65DDE);
    Lane(94, 83, 47, 221, 0x24234428, 0xDD2F535E, 0x8611ECB2, 0xA61B5546, 0x4A3E0B66);
    Lane(181, 84, 77, 42, 0x9E3779B1, 0x2A4D54B5, 0x79F03223, 0xF57A8304, 0x3F7D79C4);
    Lane(149, 43, 87, 174, 0x00000000, 0xAE572B95, 0x3DAFD443, 0xFA8867B5, 0xAF374125);
    Striped(Lanes(0xC25ABDD9, 0x24234428, 0x9E3779B1, 0x00000000), [158, 255, 31, 75], [94, 83, 47, 221], [181, 84,
            77, 42], [149, 43, 87, 174], Lanes(0x82C65DDE, 0x4A3E0B66, 0x3F7D79C4, 0xAF374125));
  }

  const LONG2: seq<byte> :=
    [93, 186, 116, 233] + [211, 166, 76, 152] + [48, 96, 192, 128] + [0, 0, 0, 0]

  lemma Long2()
    ensures EatStripe(Lanes(0x82C65DDE, 0x4A3E0B66, 0x3F7D79C4, 0xAF374125), LONG2) ==
            Lanes(0x0D97528E, 0xBB6BFCA6, 0x3E32935C, 0xE3C57A06)
  {
    hide EatStripe, Round, Read32;
    Lane(93, 186, 116, 233, 0x82C65DDE, 0xE974BA5D, 0x04AF033B, 0xAC2330EE, 0x0D97528E);
    Lane(211, 166, 76, 152, 0x4A3E0B66, 0x984CA6D3, 0x09F50A15, 0x62AF6A86, 0xBB6BFCA6);
    Lane(48, 96, 192, 128, 0x3F7D79C4, 0x80C06030, 0xE1629650, 0x0202841C, 0x3E32935C);
    Lane(0, 0, 0, 0, 0xAF374125, 0x00000000, 0x00000000, 0xE824B5E6, 0xE3C57A06);
    Striped(Lanes(0x82C65DDE, 0x4A3E0B66, 0x3F7D79C4, 0xAF374125), [93, 186, 116, 233], [211, 166, 76, 152], [48, 96,
            192, 128], [0, 0, 0, 0], Lanes(0x0D97528E, 0xBB6BFCA6, 0x3E32935C, 0xE3C57A06));
  }

  const LONG3: seq<byte> :=
    [0, 0, 0, 0] + [0, 0, 0, 0] + [0, 0, 0, 0] + [0, 0, 0, 0]

  lemma Long3()
    ensures EatStripe(Lanes(0x0D97528E, 0xBB6BFCA6, 0x3E32935C, 0xE3C57A06), LONG3) ==
            Lanes(0x20520E12, 0x1E26775D, 0x2F0F75E6, 0x41D526F8)
  {
    hide EatStripe, Round, Read32;
    Lane(0, 0, 0, 0, 0x0D97528E, 0x00000000, 0x00000000, 0xEA51C1B2, 0x20520E12);
    Lane(0, 0, 0, 0, 0xBB6BFCA6, 0x00000000, 0x00000000, 0x7F94D76D, 0x1E26775D);
    Lane(0, 0, 0, 0, 0x3E32935C, 0x00000000, 0x00000000, 0x526B87C6, 0x2F0F75E6);
    Lane(0, 0, 0, 0, 0xE3C57A06, 0x00000000, 0x00000000, 0xAF40DC78, 0x41D526F8);
    Striped(Lanes(0x0D97528E, 0xBB6BFCA6, 0x3E32935C, 0xE3C57A06), [0, 0, 0, 0], [0, 0, 0, 0], [0, 0, 0, 0], [0, 0,
            0, 0], Lanes(0x20520E12, 0x1E26775D, 0x2F0F75E6, 0x41D526F8));
  }

  const LONG4: seq<byte> :=
    [0, 0, 0, 0] + [0, 0, 0, 0] + [0, 0, 0, 0] + [0, 0, 0, 0]

  lemma Long4()
    ensures EatStripe(Lanes(0x20520E12, 0x1E26775D, 0x2F0F75E6, 0x41D526F8), LONG4) ==
            Lanes(0x139FC4EA, 0x986FDE84, 0xAB632991, 0xF98E1A1A)
  {
    hide EatStripe, Round, Read32;
    Lane(0, 0, 0, 0, 0x20520E12, 0x00000000, 0x00000000, 0x41C2440A, 0x139FC4EA);
    Lane(0, 0, 0, 0, 0x1E26775D, 0x00000000, 0x00000000, 0xCEEBA3C4, 0x986FDE84);
    Lane(0, 0, 0, 0, 0x2F0F75E6, 0x00000000, 0x00000000, 0xEEBCC5E1, 0xAB632991);
    Lane(0, 0, 0, 0, 0x41D526F8, 0x00000000, 0x00000000, 0xA4DF083A, 0xF98E1A1A);
    Striped(Lanes(0x20520E12, 0x1E26775D, 0x2F0F75E6, 0x41D526F8), [0, 0, 0, 0], [0, 0, 0, 0], [0, 0, 0, 0], [0, 0,
            0, 0], Lanes(0x139FC4EA, 0x986FDE84, 0xAB632991, 0xF98E1A1A));
  }

  const LONG5: seq<byte> :=
    [0, 0, 0, 0] + [0, 0, 0, 0] + [0, 0, 0, 0] + [0, 0, 0, 0]

  lemma Long5()
    ensures EatStripe(Lanes(0x139FC4EA, 0x986FDE84, 0xAB632991, 0xF98E1A1A), LONG5) ==
            Lanes(0x79D84C83, 0x4E81D0FD, 0xD52AFBAC, 0x8B19F9E1)
  {
    hide EatStripe, Round, Read32;
    Lane(0, 0, 0, 0, 0x139FC4EA, 0x00000000, 0x00000000, 0xF89D4273, 0x79D84C83);
    Lane(0, 0, 0, 0, 0x986FDE84, 0x00000000, 0x00000000, 0xFBD0930D, 0x4E81D0FD);
    Lane(0, 0, 0, 0, 0xAB632991, 0x00000000, 0x00000000, 0x6532356C, 0xD52AFBAC);
    Lane(0, 0, 0, 0, 0xF98E1A1A, 0x00000000, 0x00000000, 0xC3435F31, 0x8B19F9E1);
    Striped(Lanes(0x139FC4EA, 0x986FDE84, 0xAB632991, 0xF98E1A1A), [0, 0, 0, 0], [0, 0, 0, 0], [0, 0, 0, 0], [0, 0,
            0, 0], Lanes(0x79D84C83, 0x4E81D0FD, 0xD52AFBAC, 0x8B19F9E1));
  }

  const LONG6: seq<byte> :=
    [0, 0, 0, 0] + [0, 0, 0, 0] + [0, 0, 0, 0] + [0, 0, 0, 0]

  lemma Long6()
    ensures EatStripe(Lanes(0x79D84C83, 0x4E81D0FD, 0xD52AFBAC, 0x8B19F9E1), LONG6) ==
            Lanes(0x311CCACB, 0x02D7B8D0, 0xA5DAE915, 0xE23AF073)
  {
    hide EatStripe, Round, Read32;
    Lane(0, 0, 0, 0, 0x79D84C83, 0x00000000, 0x00000000, 0x09906F3B, 0x311CCACB);
    Lane(0, 0, 0, 0, 0x4E81D0FD, 0x00000000, 0x00000000, 0x3A1FA9D0, 0x02D7B8D0);
    Lane(0, 0, 0, 0, 0xD52AFBAC, 0x00000000, 0x00000000, 0x5F759AA5, 0xA5DAE915);
    Lane(0, 0, 0, 0, 0x8B19F9E1, 0x00000000, 0x00000000, 0x3F3C3163, 0xE23AF073);
    Striped(Lanes(0x79D84C83, 0x4E81D0FD, 0xD52AFBAC, 0x8B19F9E1), [0, 0, 0, 0], [0, 0, 0, 0], [0, 0, 0, 0], [0, 0,
            0, 0], Lanes(0x311CCACB, 0x02D7B8D0, 0xA5DAE915, 0xE23AF073));
  }

  const LONG_REST1: seq<byte> := [0, 0, 0, 0]

  const LONG_REST2: seq<byte> := [0]

  const LONG_REST: seq<byte> := LONG_REST1 + LONG_REST2

  const LONG: seq<byte> := LONG1 + (LONG2 + (LONG3 + (LONG4 + (LONG5 + (LONG6 + LONG_REST)))))

  lemma LongMerged()
    ensures Merge(Lanes(0x311CCACB, 0x02D7B8D0, 0xA5DAE915, 0xE23AF073)) ==
            0x3E76E0DF
  {
    Merged(Lanes(0x311CCACB, 0x02D7B8D0, 0xA5DAE915, 0xE23AF073), 0x62399596, 0x6BDC6801, 0xAE915A5D, 0xC1CF88EB,
           0x3E76E0DF);
  }

  lemma LongAbsorbed()
    ensures Absorb(0x3E76E144, LONG_REST1) == 0x91007E83
    ensures Absorb(0x91007E83, LONG_REST2) == 0x2E7C0208
  {
    hide Absorb;
    AbsorbWord(0x3E76E144, 0, 0, 0, 0, 0x00000000, 0x00000000, 0xC2887CED, 0x91007E83);
    AbsorbByte(0x91007E83, 0, 0x00000000, 0x00000000, 0x03F41C88, 0x2E7C0208);
  }

  lemma {:induction false} LongTail()
    ensures RULE.Valid() && Tail(RULE, 0x3E76E144, LONG_REST) == 0x2E7C0208
  {
    hide Tail, Absorb;
    RuleIsValid();
    LongAbsorbed();
    TailMore(RULE, 0x3E76E144, LONG_REST1, LONG_REST2);
    LastChunk(0x91007E83, LONG_REST2);
  }

  lemma {:induction false} LongLanes()
    ensures Eat(RULE, Lanes(0xC25ABDD9, 0x24234428, 0x9E3779B1, 0x00000000), LONG) ==
            Lanes(0x311CCACB, 0x02D7B8D0, 0xA5DAE915, 0xE23AF073)
    ensures Rest(16, LONG) == LONG_REST
  {
    hide Eat, EatStripe;
    Long1();
    EatMore(RULE, Lanes(0xC25ABDD9, 0x24234428, 0x9E3779B1, 0x00000000), LONG1,
            LONG2 + (LONG3 + (LONG4 + (LONG5 + (LONG6 + LONG_REST)))));
    Long2();
    EatMore(RULE, Lanes(0x82C65DDE, 0x4A3E0B66, 0x3F7D79C4, 0xAF374125), LONG2,
            LONG3 + (LONG4 + (LONG5 + (LONG6 + LONG_REST))));
    Long3();
    EatMore(RULE, Lanes(0x0D97528E, 0xBB6BFCA6, 0x3E32935C, 0xE3C57A06), LONG3,
            LONG4 + (LONG5 + (LONG6 + LONG_REST)));
    Long4();
    EatMore(RULE, Lanes(0x20520E12, 0x1E26775D, 0x2F0F75E6, 0x41D526F8), LONG4, LONG5 + (LONG6 + LONG_REST));
    Long5();
    EatMore(RULE, Lanes(0x139FC4EA, 0x986FDE84, 0xAB632991, 0xF98E1A1A), LONG5, LONG6 + LONG_REST);
    Long6();
    EatMore(RULE, Lanes(0x79D84C83, 0x4E81D0FD, 0xD52AFBAC, 0x8B19F9E1), LONG6, LONG_REST);
    EatShort(RULE, Lanes(0x311CCACB, 0x02D7B8D0, 0xA5DAE915, 0xE23AF073), LONG_REST);
  }

  /** The 101 bytes of the sanity check that comes with xxHash, with the first prime as seed. */
  lemma {:induction false} LongHash()
    ensures RULE.Valid() && Hash(RULE, Start(0x9E3779B1), LONG) == 0x498EC8E2
  {
    hide Eat, Rest, Tail, Start, Merge, Avalanche;
    Started(0x9E3779B1, 0x9E3779B1, 0x85EBCA77, Lanes(0xC25ABDD9, 0x24234428, 0x9E3779B1, 0x00000000));
    LongLanes();
    LongMerged();
    LongTail();
    Shaken(0x2E7C0208, 0x2E7C5EF0, 0x95098190, 0x950D29DC, 0x498E816C, 0x498EC8E2);
    Hashed(Lanes(0xC25ABDD9, 0x24234428, 0x9E3779B1, 0x00000000), LONG, 101, Lanes(0x311CCACB, 0x02D7B8D0,
           0xA5DAE915, 0xE23AF073), LONG_REST, 0x3E76E0DF, 0x3E76E144, 0x2E7C0208, 0x498EC8E2);
  }
}

/** Published values of XXH64, computed stage by stage. */
module Xxh64Vectors {
  import opened Bytes
  import opened XxStripes
  import Xxh32
  import opened Xxh64

  // ---------------------------------------------------------------- single stages

  lemma {:induction false} Longs(c: seq<byte>, low: bv32, high: bv32, input: bv64)
    requires |c| == 8 && Xxh32.Word(c[0], c[1], c[2], c[3]) == low && Xxh32.Word(c[4], c[5], c[6], c[7]) == high
    requires Long(low, high) == input
    ensures Read64(c, 0) == input
  {
    hide Xxh32.Word, Long;
  }

  lemma {:induction false} Rounded(acc: bv64, input: bv64, p: bv64, t: bv64, r: bv64)
    requires Times2(input) == p && Turn(acc, p, 31) == t && Times1(t) == r
    ensures Round(acc, input) == r
  {
    hide Times1, Times2, Turn;
  }

  /** One lane of a stripe: words, product, turned sum, result. */
  lemma {:induction false} Lane(c0: byte, c1: byte, c2: byte, c3: byte, c4: byte, c5: byte, c6: byte, c7: byte,
                                acc: bv64, low: bv32, high: bv32, input: bv64, p: bv64, t: bv64, r: bv64)
    requires Xxh32.Word(c0, c1, c2, c3) == low && Xxh32.Word(c4, c5, c6, c7) == high && Long(low, high) == input
    requires Times2(input) == p && Turn(acc, p, 31) == t && Times1(t) == r
    ensures Round(acc, Read64([c0, c1, c2, c3, c4, c5, c6, c7], 0)) == r
  {
    hide Read64, Round, Xxh32.Word, Long, Times1, Times2, Turn;
    Longs([c0, c1, c2, c3, c4, c5, c6, c7], low, high, input);
    Rounded(acc, input, p, t, r);
  }

  lemma {:induction false} Striped(l: Lanes, a: seq<byte>, b: seq<byte>, c: seq<byte>, d: seq<byte>, r: Lanes)
    requires |a| == |b| == |c| == |d| == 8 && Round(l.v1, Read64(a, 0)) == r.v1 && Round(l.v2, Read64(b, 0)) == r.v2
    requires Round(l.v3, Read64(c, 0)) == r.v3 && Round(l.v4, Read64(d, 0)) == r.v4
    ensures EatStripe(l, a + b + c + d) == r
  {
    hide Round, Xxh32.Word, Long;
  }

  lemma {:induction false} AbsorbLong(h: bv64, c0: byte, c1: byte, c2: byte, c3: byte, c4: byte, c5: byte, c6: byte,
                                      c7: byte, low: bv32, high: bv32, input: bv64, p: bv64, t: bv64, r: bv64,
                                      u: bv64, z: bv64, h1: bv64)
    requires Xxh32.Word(c0, c1, c2, c3) == low && Xxh32.Word(c4, c5, c6, c7) == high && Long(low, high) == input
    requires Times2(input) == p && Turn(0, p, 31) == t && Times1(t) == r
    requires TurnXor(h, r, 27) == u && Times1(u) == z && Plus(z, Times4(1)) == h1
    ensures Absorb(h, [c0, c1, c2, c3, c4, c5, c6, c7]) == h1
  {
    hide Read64, Round, Xxh32.Word, Long, Times1, Times2, Times4, Turn, TurnXor, Plus;
    Longs([c0, c1, c2, c3, c4, c5, c6, c7], low, high, input);
    Rounded(0, input, p, t, r);
  }

  lemma {:induction false} AbsorbWord(h: bv64, a: byte, b: byte, c: byte, d: byte, input: bv32, p: bv64, u: bv64,
                                      z: bv64, h1: bv64)
    requires Xxh32.Word(a, b, c, d) == input && Times1(input as bv64) == p
    requires TurnXor(h, p, 23) == u && Times2(u) == z && Plus(z, Times3(1)) == h1
    ensures Absorb(h, [a, b, c, d]) == h1
  {
    hide Xxh32.Word, Times1, Times2, Times3, TurnXor, Plus;
  }

  lemma {:induction false} AbsorbByte(h: bv64, a: byte, input: bv64, p: bv64, u: bv64, h1: bv64)
    requires a as bv64 == input && Times5(input) == p && TurnXor(h, p, 11) == u && Times1(u) == h1
    ensures Absorb(h, [a]) == h1
  {
    hide Times1, Times5, TurnXor;
  }

  lemma {:induction false} Shaken(h: bv64, a: bv64, b: bv64, c: bv64, d: bv64, r: bv64)
    requires Shake(h, 33) == a && Times2(a) == b && Shake(b, 29) == c && Times3(c) == d && Shake(d, 32) == r
    ensures Avalanche(h) == r
  {
    hide Shake, Times2, Times3;
  }

  lemma {:induction false} Summed(l: Lanes, a: bv64, b: bv64, c: bv64, d: bv64, r: bv64)
    requires Rotl(l.v1, 1) == a && Rotl(l.v2, 7) == b && Rotl(l.v3, 12) == c && Rotl(l.v4, 18) == d
    requires Sum(a, b, c, d) == r
    ensures Merge(l) == MergeRound(MergeRound(MergeRound(MergeRound(r, l.v1), l.v2), l.v3), l.v4)
  {
    hide Rotl, Sum, MergeRound;
  }

  lemma {:induction false} MergeOne(acc: bv64, val: bv64, p: bv64, t: bv64, r: bv64, y: bv64, z: bv64, h: bv64)
    requires Times2(val) == p && Turn(0, p, 31) == t && Times1(t) == r
    requires Xor(acc, r) == y && Times1(y) == z && Plus(z, Times4(1)) == h
    ensures MergeRound(acc, val) == h
  {
    hide Round, Times1, Times2, Times4, Turn, Xor, Plus;
    Rounded(0, val, p, t, r);
  }

  lemma {:induction false} Started(seed: bv64, p: bv64, q: bv64, l: Lanes)
    requires Times1(1) == p && Times2(1) == q && Plus(Plus(seed, p), q) == l.v1 && Plus(seed, q) == l.v2 && seed == l.v3
    requires Minus(seed, p) == l.v4
    ensures Start(seed) == l
  {
    hide Times1, Times2, Plus, Minus;
  }

  lemma {:induction false} LastChunk(h: bv64, c: seq<byte>)
    requires RULE.Valid() && c != [] && |c| == Chunk(|c|)
    ensures Tail(RULE, h, c) == Absorb(h, c)
  {
    hide Absorb;
    assert c + [] == c;
    TailMore(RULE, h, c, []);
  }

  /** All stages of a hash, from the lanes behind the last stripe on. */
  lemma {:induction false} Hashed(start: Lanes, data: seq<byte>, n: nat, l: Lanes, rest: seq<byte>, h0: bv64, h1: bv64,
                                  h2: bv64, r: bv64)
    requires RULE.Valid() && Eat(RULE, start, data) == l && Rest(32, data) == rest && |data| == n < TWO64
    requires h0 == if n >= 32 then Merge(l) else Small(start)
    requires AddLength(h0, n) == h1 && Tail(RULE, h1, rest) == h2 && Avalanche(h2) == r
    ensures Hash(RULE, start, data) == r
  {
    hide Eat, Rest, Tail, Merge, Small, AddLength, Avalanche;
  }

  // ---------------------------------------------------------------- a phrase

  const PHRASE1: seq<byte> :=
    [78, 111, 98, 111, 100, 121, 32, 105] + [110, 115, 112, 101, 99, 116, 115, 32]
    + [116, 104, 101, 32, 115, 112, 97, 109] + [109, 105, 115, 104, 32, 114, 101, 112]

  lemma Phrase1Lanes()
    ensures Round(0x60EA27EEADC0B5D6, Read64([78, 111, 98, 111, 100, 121, 32, 105], 0)) == 0x37245127A4067E4B
    ensures Round(0xC2B2AE3D27D4EB4F, Read64([110, 115, 112, 101, 99, 116, 115, 32], 0)) == 0x1B302B0A818F92CF
    ensures Round(0x0000000000000000, Read64([116, 104, 101, 32, 115, 112, 97, 109], 0)) == 0xCD62D843D0580FCA
    ensures Round(0x61C8864E7A143579, Read64([109, 105, 115, 104, 32, 114, 101, 112], 0)) == 0x1C16E43EF2142A4A
  {
    hide Round, Read64;
    Lane(78, 111, 98, 111, 100, 121, 32, 105, 0x60EA27EEADC0B5D6, 0x6F626F4E, 0x69207964, 0x692079646F626F4E,
         0x06F06E4CCA24F312, 0xBBF2D47433ED4B1D, 0x37245127A4067E4B);
    Lane(110, 115, 112, 101, 99, 116, 115, 32, 0xC2B2AE3D27D4EB4F, 0x6570736E, 0x20737463, 0x207374636570736E,
         0xBEF890B5E0C198F2, 0x844B4220C0D59F79, 0x1B302B0A818F92CF);
    Lane(116, 104, 101, 32, 115, 112, 97, 109, 0x0000000000000000, 0x20656874, 0x6D617073, 0x6D61707320656874,
         0x0A6264CC423DB7CC, 0x211EDBE605313266, 0xCD62D843D0580FCA);
    Lane(109, 105, 115, 104, 32, 114, 101, 112, 0x61C8864E7A143579, 0x6873696D, 0x70657220, 0x706572206873696D,
         0x7EC4417E16A897A3, 0x485E668E704663E6, 0x1C16E43EF2142A4A);
  }

  lemma Phrase1()
    ensures EatStripe(Lanes(0x60EA27EEADC0B5D6, 0xC2B2AE3D27D4EB4F, 0x0000000000000000, 0x61C8864E7A143579), PHRASE1) ==
            Lanes(0x37245127A4067E4B, 0x1B302B0A818F92CF, 0xCD62D843D0580FCA, 0x1C16E43EF2142A4A)
  {
    hide EatStripe, Round, Read64;
    Phrase1Lanes();
    Striped(Lanes(0x60EA27EEADC0B5D6, 0xC2B2AE3D27D4EB4F, 0x0000000000000000, 0x61C8864E7A143579), [78, 111, 98, 111,
            100, 121, 32, 105], [110, 115, 112, 101, 99, 116, 115, 32], [116, 104, 101, 32, 115, 112, 97, 109], [109,
            105, 115, 104, 32, 114, 101, 112], Lanes(0x37245127A4067E4B, 0x1B302B0A818F92CF, 0xCD62D843D0580FCA,
            0x1C16E43EF2142A4A));
  }

  const PHRASE_REST1: seq<byte> := [101, 116, 105, 116]

  const PHRASE_REST2: seq<byte> := [105]

  const PHRASE_REST3: seq<byte> := [111]

  const PHRASE_REST4: seq<byte> := [110]

  const PHRASE_REST: seq<byte> := PHRASE_REST1 + (PHRASE_REST2 + (PHRASE_REST3 + PHRASE_REST4))

  const PHRASE: seq<byte> := PHRASE1 + PHRASE_REST

  lemma PhraseMerged()
    ensures Merge(Lanes(0x37245127A4067E4B, 0x1B302B0A818F92CF, 0xCD62D843D0580FCA, 0x1C16E43EF2142A4A)) ==
            0x84F22C421A11A8B5
  {
    hide MergeRound;
    Summed(Lanes(0x37245127A4067E4B, 0x1B302B0A818F92CF, 0xCD62D843D0580FCA, 0x1C16E43EF2142A4A), 0x6E48A24F480CFC96,
           0x98158540C7C9678D, 0x2D843D0580FCACD6, 0x90FBC850A928705B, 0xC4DE2CE639FB8154);
    MergeOne(0xC4DE2CE639FB8154, 0x37245127A4067E4B, 0xBF0E534A970BD225, 0x4B85E912DF8729A5, 0x7790FF1F7A9A2803,
             0xB34ED3F94361A957, 0xAAE843653DFBF2E1, 0x30D40DDD00AEA144);
    MergeOne(0x30D40DDD00AEA144, 0x1B302B0A818F92CF, 0x40BCC4C2E37E52E1, 0x71BF2970A05E6261, 0xDECED6C0BF716B27,
             0xEE1ADB1DBFDFCA63, 0x5FB6261DFC96D835, 0xE5A1F095BF498698);
    MergeOne(0xE5A1F095BF498698, 0xCD62D843D0580FCA, 0x1917FFA4FAF34D56, 0x7D79A6AB0C8BFFD2, 0x70073EB805759BBE,
             0x95A6CE2DBA3C1D26, 0x73E31CAA24955B0A, 0xF9CEE721E748096D);
    MergeOne(0xF9CEE721E748096D, 0x1C16E43EF2142A4A, 0x2898226B8252FAD6, 0xC1297D6B144C1135, 0xC1CBBAE50E57E4F3,
             0x38055DC4E91FED9E, 0xFF0661CA575EFA52, 0x84F22C421A11A8B5);
  }

  lemma PhraseAbsorbed1()
    ensures Absorb(0x84F22C421A11A8DC, PHRASE_REST1) == 0x9FCA0F5D0AAA110F
  {
    hide Absorb;
    AbsorbWord(0x84F22C421A11A8DC, 101, 116, 105, 116, 0x74697465, 0xE9863933EB2B1343, 0xB8F89D5DCFB6BA0A,
               0x8973A7AB6C729716, 0x9FCA0F5D0AAA110F);
  }

  lemma PhraseAbsorbed2()
    ensures Absorb(0x9FCA0F5D0AAA110F, PHRASE_REST2) == 0x769671546F21BA14
  {
    hide Absorb;
    AbsorbByte(0x9FCA0F5D0AAA110F, 105, 0x0000000000000069, 0x5654765029708FCD, 0xF3C8691ED4F6164C,
               0x769671546F21BA14);
  }

  lemma PhraseAbsorbed3()
    ensures Absorb(0x769671546F21BA14, PHRASE_REST3) == 0xEAE9B643C5F94E52
  {
    hide Absorb;
    AbsorbByte(0x769671546F21BA14, 111, 0x000000000000006F, 0x4551F96AAF76FE6B, 0x3C41F602BA23F99E,
               0xEAE9B643C5F94E52);
  }

  lemma PhraseAbsorbed4()
    ensures Absorb(0xEAE9B643C5F94E52, PHRASE_REST4) == 0x1D0A47483B37CC24
  {
    hide Absorb;
    AbsorbByte(0xEAE9B643C5F94E52, 110, 0x000000000000006E, 0x1D7D0E3B992096A6, 0xA5C3C2E6CEC7A7BC,
               0x1D0A47483B37CC24);
  }

  lemma {:induction false} PhraseTail()
    ensures RULE.Valid() && Tail(RULE, 0x84F22C421A11A8DC, PHRASE_REST) == 0x1D0A47483B37CC24
  {
    hide Tail, Absorb;
    RuleIsValid();
    PhraseAbsorbed1();
    PhraseAbsorbed2();
    PhraseAbsorbed3();
    PhraseAbsorbed4();
    TailMore(RULE, 0x84F22C421A11A8DC, PHRASE_REST1, PHRASE_REST2 + (PHRASE_REST3 + PHRASE_REST4));
    TailMore(RULE, 0x9FCA0F5D0AAA110F, PHRASE_REST2, PHRASE_REST3 + PHRASE_REST4);
    TailMore(RULE, 0x769671546F21BA14, PHRASE_REST3, PHRASE_REST4);
    LastChunk(0xEAE9B643C5F94E52, PHRASE_REST4);
  }

  lemma {:induction false} PhraseLanes()
    ensures Eat(RULE, Lanes(0x60EA27EEADC0B5D6, 0xC2B2AE3D27D4EB4F, 0x0000000000000000, 0x61C8864E7A143579), PHRASE) ==
            Lanes(0x37245127A4067E4B, 0x1B302B0A818F92CF, 0xCD62D843D0580FCA, 0x1C16E43EF2142A4A)
    ensures Rest(32, PHRASE) == PHRASE_REST
  {
    hide Eat, EatStripe;
    Phrase1();
    EatMore(RULE, Lanes(0x60EA27EEADC0B5D6, 0xC2B2AE3D27D4EB4F, 0x0000000000000000, 0x61C8864E7A143579), PHRASE1,
            PHRASE_REST);
    EatShort(RULE, Lanes(0x37245127A4067E4B, 0x1B302B0A818F92CF, 0xCD62D843D0580FCA, 0x1C16E43EF2142A4A), PHRASE_REST);
  }

  /** "Nobody inspects the spammish repetition", without a seed. */
  lemma {:induction false} PhraseHash()
    ensures RULE.Valid() && Hash(RULE, Start(0x0000000000000000), PHRASE) == 0xFBCEA83C8A378BF1
  {
    hide Eat, Rest, Tail, Start, Merge, Avalanche;
    Started(0x0000000000000000, 0x9E3779B185EBCA87, 0xC2B2AE3D27D4EB4F, Lanes(0x60EA27EEADC0B5D6, 0xC2B2AE3D27D4EB4F,
            0x0000000000000000, 0x61C8864E7A143579));
    PhraseLanes();
    PhraseMerged();
    PhraseTail();
    Shaken(0x1D0A47483B37CC24, 0x1D0A474835B2EF80, 0x5F0214BEAA126880, 0x5F0214BC5202CD75, 0xFBCEA83C71F923CD,
           0xFBCEA83C8A378BF1);
    Hashed(Lanes(0x60EA27EEADC0B5D6, 0xC2B2AE3D27D4EB4F, 0x0000000000000000, 0x61C8864E7A143579), PHRASE, 39,
           Lanes(0x37245127A4067E4B, 0x1B302B0A818F92CF, 0xCD62D843D0580FCA, 0x1C16E43EF2142A4A), PHRASE_REST,
           0x84F22C421A11A8B5, 0x84F22C421A11A8DC, 0x1D0A47483B37CC24, 0xFBCEA83C8A378BF1);
  }

  // ---------------------------------------------------------------- fewer bytes than a stripe, with a seed

  const SHORT_REST1: seq<byte> := [158, 255, 31, 75, 94, 83, 47, 221]

  const SHORT_REST2: seq<byte> := [181, 84, 77, 42]

  const SHORT_REST3: seq<byte> := [149]

  const SHORT_REST4: seq<byte> := [43]

  const SHORT_REST: seq<byte> := SHORT_REST1 + (SHORT_REST2 + (SHORT_REST3 + SHORT_REST4))

  const SHORT: seq<byte> := SHORT_REST

  lemma ShortAbsorbed1()
    ensures Absorb(0x27D4EB2FB48DE184, SHORT_REST1) == 0x3164064B7724F65A
  {
    hide Absorb;
    AbsorbLong(0x27D4EB2FB48DE184, 158, 255, 31, 75, 94, 83, 47, 221, 0x4B1FFF9E, 0xDD2F535E, 0xDD2F535E4B1FFF9E,
               0x38E3AC264F5DEBC2, 0x27AEF5E11C71D613, 0xD5AC89023563E205, 0x6C0F701C0F93C311, 0xAB783BD3B47247F7,
               0x3164064B7724F65A);
  }

  lemma ShortAbsorbed2()
    ensures Absorb(0x3164064B7724F65A, SHORT_REST2) == 0x6F4CB3505ACEDD46
  {
    hide Absorb;
    AbsorbWord(0x3164064B7724F65A, 181, 84, 77, 42, 0x2A4D54B5, 0xCB85419B1EC57D73, 0xE834F0C594FD70A3,
               0x58F64B9EBC97634D, 0x6F4CB3505ACEDD46);
  }

  lemma ShortAbsorbed3()
    ensures Absorb(0x6F4CB3505ACEDD46, SHORT_REST3) == 0xC126FC321D6E9EDB
  {
    hide Absorb;
    AbsorbByte(0x6F4CB3505ACEDD46, 149, 0x0000000000000095, 0x2EECE268004A65A9, 0x0289C2D425C77A0D,
               0xC126FC321D6E9EDB);
  }

  lemma ShortAbsorbed4()
    ensures Absorb(0xC126FC321D6E9EDB, SHORT_REST4) == 0x45C2E53989B25669
  {
    hide Absorb;
    AbsorbByte(0xC126FC321D6E9EDB, 43, 0x000000000000002B, 0xB0C380E8C0836E17, 0x2BE6D6EF6F86638F,
               0x45C2E53989B25669);
  }

  lemma {:induction false} ShortTail()
    ensures RULE.Valid() && Tail(RULE, 0x27D4EB2FB48DE184, SHORT_REST) == 0x45C2E53989B25669
  {
    hide Tail, Absorb;
    RuleIsValid();
    ShortAbsorbed1();
    ShortAbsorbed2();
    ShortAbsorbed3();
    ShortAbsorbed4();
    TailMore(RULE, 0x27D4EB2FB48DE184, SHORT_REST1, SHORT_REST2 + (SHORT_REST3 + SHORT_REST4));
    TailMore(RULE, 0x3164064B7724F65A, SHORT_REST2, SHORT_REST3 + SHORT_REST4);
    TailMore(RULE, 0x6F4CB3505ACEDD46, SHORT_REST3, SHORT_REST4);
    LastChunk(0xC126FC321D6E9EDB, SHORT_REST4);
  }

  lemma {:induction false} ShortLanes()
    ensures Eat(RULE, Lanes(0x60EA27EF4BF82F87, 0xC2B2AE3DC60C6500, 0x000000009E3779B1, 0x61C8864F184BAF2A), SHORT) ==
            Lanes(0x60EA27EF4BF82F87, 0xC2B2AE3DC60C6500, 0x000000009E3779B1, 0x61C8864F184BAF2A)
    ensures Rest(32, SHORT) == SHORT_REST
  {
    EatShort(RULE, Lanes(0x60EA27EF4BF82F87, 0xC2B2AE3DC60C6500, 0x000000009E3779B1, 0x61C8864F184BAF2A), SHORT_REST);
  }

  /** The first 14 of them, with the same seed. */
  lemma {:induction false} ShortHash()
    ensures RULE.Valid() && Hash(RULE, Start(0x000000009E3779B1), SHORT) == 0x5B9611585EFCC9CB
  {
    hide Eat, Rest, Tail, Start, Merge, Avalanche;
    Started(0x000000009E3779B1, 0x9E3779B185EBCA87, 0xC2B2AE3D27D4EB4F, Lanes(0x60EA27EF4BF82F87, 0xC2B2AE3DC60C6500,
            0x000000009E3779B1, 0x61C8864F184BAF2A));
    ShortLanes();
    ShortTail();
    Shaken(0x45C2E53989B25669, 0x45C2E539AB5324F5, 0xBEB48CEE1F794E9B, 0xBEB48CEBEADD29EB, 0x5B961158056AD893,
           0x5B9611585EFCC9CB);
    Hashed(Lanes(0x60EA27EF4BF82F87, 0xC2B2AE3DC60C6500, 0x000000009E3779B1, 0x61C8864F184BAF2A), SHORT, 14,
           Lanes(0x60EA27EF4BF82F87, 0xC2B2AE3DC60C6500, 0x000000009E3779B1, 0x61C8864F184BAF2A), SHORT_REST,
           0x27D4EB2FB48DE176, 0x27D4EB2FB48DE184, 0x45C2E53989B25669, 0x5B9611585EFCC9CB);
  }

  // ---------------------------------------------------------------- three stripes, with a seed

  const LONG1: seq<byte> :=
    [158, 255, 31, 75, 94, 83, 47, 221] + [181, 84, 77, 42, 149, 43, 87, 174]
    + [93, 186, 116, 233, 211, 166, 76, 152] + [48, 96, 192, 128, 0, 0, 0, 0]

  lemma Long1Lanes()
    ensures Round(0x60EA27EF4BF82F87, Read64([158, 255, 31, 75, 94, 83, 47, 221], 0)) == 0xD720D6104B9F4F46
    ensures Round(0xC2B2AE3DC60C6500, Read64([181, 84, 77, 42, 149, 43, 87, 174], 0)) == 0xA3FBF2C752ADAD9A
    ensures Round(0x000000009E3779B1, Read64([93, 186, 116, 233, 211, 166, 76, 152], 0)) == 0x18511BF07C42E533
    ensures Round(0x61C8864F184BAF2A, Read64([48, 96, 192, 128, 0, 0, 0, 0], 0)) == 0x4B891310298BA6B1
  {
    hide Round, Read64;
    Lane(158, 255, 31, 75, 94, 83, 47, 221, 0x60EA27EF4BF82F87, 0x4B1FFF9E, 0xDD2F535E, 0xDD2F535E4B1FFF9E,
         0x38E3AC264F5DEBC2, 0xCDAB0DA4CCE6EA0A, 0xD720D6104B9F4F46);
    Lane(181, 84, 77, 42, 149, 43, 87, 174, 0xC2B2AE3DC60C6500, 0x2A4D54B5, 0xAE572B95, 0xAE572B952A4D54B5,
         0x56BB65EFC3834ADB, 0xC4C7D7ED8CB70A16, 0xA3FBF2C752ADAD9A);
    Lane(93, 186, 116, 233, 211, 166, 76, 152, 0x000000009E3779B1, 0xE974BA5D, 0x984CA6D3, 0x984CA6D3E974BA5D,
         0xD2FFBDEAB21CE1B3, 0xA82A2DB2697FDEF5, 0x18511BF07C42E533);
    Lane(48, 96, 192, 128, 0, 0, 0, 0, 0x61C8864F184BAF2A, 0x80C06030, 0x00000000, 0x0000000080C06030,
         0xC49FEFBF4B69BED0, 0x31DAB6FD13343B07, 0x4B891310298BA6B1);
  }

  lemma Long1()
    ensures EatStripe(Lanes(0x60EA27EF4BF82F87, 0xC2B2AE3DC60C6500, 0x000000009E3779B1, 0x61C8864F184BAF2A), LONG1) ==
            Lanes(0xD720D6104B9F4F46, 0xA3FBF2C752ADAD9A, 0x18511BF07C42E533, 0x4B891310298BA6B1)
  {
    hide EatStripe, Round, Read64;
    Long1Lanes();
    Striped(Lanes(0x60EA27EF4BF82F87, 0xC2B2AE3DC60C6500, 0x000000009E3779B1, 0x61C8864F184BAF2A), [158, 255, 31, 75,
            94, 83, 47, 221], [181, 84, 77, 42, 149, 43, 87, 174], [93, 186, 116, 233, 211, 166, 76, 152], [48, 96,
            192, 128, 0, 0, 0, 0], Lanes(0xD720D6104B9F4F46, 0xA3FBF2C752ADAD9A, 0x18511BF07C42E533,
            0x4B891310298BA6B1));
  }

  const LONG2: seq<byte> :=
    [0, 0, 0, 0, 0, 0, 0, 0] + [0, 0, 0, 0, 0, 0, 0, 0] + [0, 0, 0, 0, 0, 0, 0, 0] + [0, 0, 0, 0, 0, 0, 0, 0]

  lemma Long2Lanes()
    ensures Round(0xD720D6104B9F4F46, Read64([0, 0, 0, 0, 0, 0, 0, 0], 0)) == 0x24D6E7C315F4C138
    ensures Round(0xA3FBF2C752ADAD9A, Read64([0, 0, 0, 0, 0, 0, 0, 0], 0)) == 0x161AB8200097A135
    ensures Round(0x18511BF07C42E533, Read64([0, 0, 0, 0, 0, 0, 0, 0], 0)) == 0xC441B30514108DC8
    ensures Round(0x4B891310298BA6B1, Read64([0, 0, 0, 0, 0, 0, 0, 0], 0)) == 0x1BB20C726701D6B8
  {
    hide Round, Read64;
    Lane(0, 0, 0, 0, 0, 0, 0, 0, 0xD720D6104B9F4F46, 0x00000000, 0x00000000, 0x0000000000000000, 0x0000000000000000,
         0x25CFA7A36B906B08, 0x24D6E7C315F4C138);
    Lane(0, 0, 0, 0, 0, 0, 0, 0, 0xA3FBF2C752ADAD9A, 0x00000000, 0x00000000, 0x0000000000000000, 0x0000000000000000,
         0xA956D6CD51FDF963, 0x161AB8200097A135);
    Lane(0, 0, 0, 0, 0, 0, 0, 0, 0x18511BF07C42E533, 0x00000000, 0x00000000, 0x0000000000000000, 0x0000000000000000,
         0x3E2172998C288DF8, 0xC441B30514108DC8);
    Lane(0, 0, 0, 0, 0, 0, 0, 0, 0x4B891310298BA6B1, 0x00000000, 0x00000000, 0x0000000000000000, 0x0000000000000000,
         0x14C5D358A5C48988, 0x1BB20C726701D6B8);
  }

  lemma Long2()
    ensures EatStripe(Lanes(0xD720D6104B9F4F46, 0xA3FBF2C752ADAD9A, 0x18511BF07C42E533, 0x4B891310298BA6B1), LONG2) ==
            Lanes(0x24D6E7C315F4C138, 0x161AB8200097A135, 0xC441B30514108DC8, 0x1BB20C726701D6B8)
  {
    hide EatStripe, Round, Read64;
    Long2Lanes();
    Striped(Lanes(0xD720D6104B9F4F46, 0xA3FBF2C752ADAD9A, 0x18511BF07C42E533, 0x4B891310298BA6B1), [0, 0, 0, 0, 0, 0,
            0, 0], [0, 0, 0, 0, 0, 0, 0, 0], [0, 0, 0, 0, 0, 0, 0, 0], [0, 0, 0, 0, 0, 0, 0, 0],
            Lanes(0x24D6E7C315F4C138, 0x161AB8200097A135, 0xC441B30514108DC8, 0x1BB20C726701D6B8));
  }

  const LONG3: seq<byte> :=
    [0, 0, 0, 0, 0, 0, 0, 0] + [0, 0, 0, 0, 0, 0, 0, 0] + [0, 0, 0, 0, 0, 0, 0, 0] + [0, 0, 0, 0, 0, 0, 0, 0]

  lemma Long3Lanes()
    ensures Round(0x24D6E7C315F4C138, Read64([0, 0, 0, 0, 0, 0, 0, 0], 0)) == 0xE8824C3EC4A4A5A7
    ensures Round(0x161AB8200097A135, Read64([0, 0, 0, 0, 0, 0, 0, 0], 0)) == 0xDEE0C05FB1602C70
    ensures Round(0xC441B30514108DC8, Read64([0, 0, 0, 0, 0, 0, 0, 0], 0)) == 0x636191E7DF49478E
    ensures Round(0x1BB20C726701D6B8, Read64([0, 0, 0, 0, 0, 0, 0, 0], 0)) == 0x6EA27555DFAE420F
  {
    hide Round, Read64;
    Lane(0, 0, 0, 0, 0, 0, 0, 0, 0x24D6E7C315F4C138, 0x00000000, 0x00000000, 0x0000000000000000, 0x0000000000000000,
         0x8AFA609C126B73E1, 0xE8824C3EC4A4A5A7);
    Lane(0, 0, 0, 0, 0, 0, 0, 0, 0x161AB8200097A135, 0x00000000, 0x00000000, 0x0000000000000000, 0x0000000000000000,
         0x004BD09A8B0D5C10, 0xDEE0C05FB1602C70);
    Lane(0, 0, 0, 0, 0, 0, 0, 0, 0xC441B30514108DC8, 0x00000000, 0x00000000, 0x0000000000000000, 0x0000000000000000,
         0x8A0846E46220D982, 0x636191E7DF49478E);
    Lane(0, 0, 0, 0, 0, 0, 0, 0, 0x1BB20C726701D6B8, 0x00000000, 0x00000000, 0x0000000000000000, 0x0000000000000000,
         0x3380EB5C0DD90639, 0x6EA27555DFAE420F);
  }

  lemma Long3()
    ensures EatStripe(Lanes(0x24D6E7C315F4C138, 0x161AB8200097A135, 0xC441B30514108DC8, 0x1BB20C726701D6B8), LONG3) ==
            Lanes(0xE8824C3EC4A4A5A7, 0xDEE0C05FB1602C70, 0x636191E7DF49478E, 0x6EA27555DFAE420F)
  {
    hide EatStripe, Round, Read64;
    Long3Lanes();
    Striped(Lanes(0x24D6E7C315F4C138, 0x161AB8200097A135, 0xC441B30514108DC8, 0x1BB20C726701D6B8), [0, 0, 0, 0, 0, 0,
            0, 0], [0, 0, 0, 0, 0, 0, 0, 0], [0, 0, 0, 0, 0, 0, 0, 0], [0, 0, 0, 0, 0, 0, 0, 0],
            Lanes(0xE8824C3EC4A4A5A7, 0xDEE0C05FB1602C70, 0x636191E7DF49478E, 0x6EA27555DFAE420F));
  }

  const LONG_REST1: seq<byte> := [0, 0, 0, 0]

  const LONG_REST2: seq<byte> := [0]

  const LONG_REST: seq<byte> := LONG_REST1 + LONG_REST2

  const LONG: seq<byte> := LONG1 + (LONG2 + (LONG3 + LONG_REST))

  lemma LongMerged()
    ensures Merge(Lanes(0xE8824C3EC4A4A5A7, 0xDEE0C05FB1602C70, 0x636191E7DF49478E, 0x6EA27555DFAE420F)) ==
            0xA5CD96C3F709E47E
  {
    hide MergeRound;
    Summed(Lanes(0xE8824C3EC4A4A5A7, 0xDEE0C05FB1602C70, 0x636191E7DF49478E, 0x6EA27555DFAE420F), 0xD104987D89494B4F,
           0x70602FD8B016386F, 0x191E7DF49478E636, 0xD5577EB9083DBA89, 0x2FDAC503D616247D);
    MergeOne(0x2FDAC503D616247D, 0xE8824C3EC4A4A5A7, 0x90140E42722B6B89, 0x3915B5C4C80A0721, 0x45D57E571734CC67,
             0x6A0FBB54C122E81A, 0x49ADDBB1F66AE9B6, 0xCF99A629B91D9819);
    MergeOne(0xCF99A629B91D9819, 0xDEE0C05FB1602C70, 0x63367674E2388690, 0x711C4348319B3B3A, 0x68D1FE9525D5FF96,
             0xA74858BC9CC8678F, 0x60FED9D02AAA7269, 0xE6EAA447ED5D20CC);
    MergeOne(0xE6EAA447ED5D20CC, 0x636191E7DF49478E, 0xC2E983F20FE46ED2, 0x07F237696174C1F9, 0xD9BA4C95F233C44F,
             0x3F50E8D21F6EE483, 0x366AF4B2E70ADF15, 0xBC56BF2AA9BD8D78);
    MergeOne(0xBC56BF2AA9BD8D78, 0x6EA27555DFAE420F, 0x8FE2C1C6FAD627A1, 0x7D6B13D0C7F160E3, 0x89166ABAC61E35B5,
             0x3540D5906FA3B8CD, 0x1FE1CC4C3457361B, 0xA5CD96C3F709E47E);
  }

  lemma LongAbsorbed1()
    ensures Absorb(0xA5CD96C3F709E4E3, LONG_REST1) == 0x0561592E65450B9E
  {
    hide Absorb;
    AbsorbWord(0xA5CD96C3F709E4E3, 0, 0, 0, 0, 0x00000000, 0x0000000000000000, 0x61FB84F271D2E6CB,
               0xEF0AF17CC70D91A5, 0x0561592E65450B9E);
  }

  lemma LongAbsorbed2()
    ensures Absorb(0x0561592E65450B9E, LONG_REST2) == 0x3CC9B5E66CFD94AD
  {
    hide Absorb;
    AbsorbByte(0x0561592E65450B9E, 0, 0x0000000000000000, 0x0000000000000000, 0x0AC9732A285CF02B, 0x3CC9B5E66CFD94AD);
  }

  lemma {:induction false} LongTail()
    ensures RULE.Valid() && Tail(RULE, 0xA5CD96C3F709E4E3, LONG_REST) == 0x3CC9B5E66CFD94AD
  {
    hide Tail, Absorb;
    RuleIsValid();
    LongAbsorbed1();
    LongAbsorbed2();
    TailMore(RULE, 0xA5CD96C3F709E4E3, LONG_REST1, LONG_REST2);
    LastChunk(0x0561592E65450B9E, LONG_REST2);
  }

  lemma {:induction false} LongLanes()
    ensures Eat(RULE, Lanes(0x60EA27EF4BF82F87, 0xC2B2AE3DC60C6500, 0x000000009E3779B1, 0x61C8864F184BAF2A), LONG) ==
            Lanes(0xE8824C3EC4A4A5A7, 0xDEE0C05FB1602C70, 0x636191E7DF49478E, 0x6EA27555DFAE420F)
    ensures Rest(32, LONG) == LONG_REST
  {
    hide Eat, EatStripe;
    Long1();
    EatMore(RULE, Lanes(0x60EA27EF4BF82F87, 0xC2B2AE3DC60C6500, 0x000000009E3779B1, 0x61C8864F184BAF2A), LONG1,
            LONG2 + (LONG3 + LONG_REST));
    Long2();
    EatMore(RULE, Lanes(0xD720D6104B9F4F46, 0xA3FBF2C752ADAD9A, 0x18511BF07C42E533, 0x4B891310298BA6B1), LONG2,
            LONG3 + LONG_REST);
    Long3();
    EatMore(RULE, Lanes(0x24D6E7C315F4C138, 0x161AB8200097A135, 0xC441B30514108DC8, 0x1BB20C726701D6B8), LONG3,
            LONG_REST);
    EatShort(RULE, Lanes(0xE8824C3EC4A4A5A7, 0xDEE0C05FB1602C70, 0x636191E7DF49478E, 0x6EA27555DFAE420F), LONG_REST);
  }

  /** The 101 bytes of the sanity check that comes with xxHash, with the first prime as seed. */
  lemma {:induction false} LongHash()
    ensures RULE.Valid() && Hash(RULE, Start(0x000000009E3779B1), LONG) == 0xCAA65939306F1E21
  {
    hide Eat, Rest, Tail, Start, Merge, Avalanche;
    Started(0x000000009E3779B1, 0x9E3779B185EBCA87, 0xC2B2AE3D27D4EB4F, Lanes(0x60EA27EF4BF82F87, 0xC2B2AE3DC60C6500,
            0x000000009E3779B1, 0x61C8864F184BAF2A));
    LongLanes();
    LongMerged();
    LongTail();
    Shaken(0x3CC9B5E66CFD94AD, 0x3CC9B5E672994E5E, 0xE5AD7F9B50177902, 0xE5AD7F9C7D7C85D8, 0xCAA65939FAC94718,
           0xCAA65939306F1E21);
    Hashed(Lanes(0x60EA27EF4BF82F87, 0xC2B2AE3DC60C6500, 0x000000009E3779B1, 0x61C8864F184BAF2A), LONG, 101,
           Lanes(0xE8824C3EC4A4A5A7, 0xDEE0C05FB1602C70, 0x636191E7DF49478E, 0x6EA27555DFAE420F), LONG_REST,
           0xA5CD96C3F709E47E, 0xA5CD96C3F709E4E3, 0x3CC9B5E66CFD94AD, 0xCAA65939306F1E21);
  }
}
