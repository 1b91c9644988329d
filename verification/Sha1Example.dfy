/** A known answer: the digest of "abc", as FIPS 180 gives it. */
module Sha1Example {
  import opened Bytes
  import opened Sha1

  /** The registers, and the sixteen words of the schedule that are needed next (FIPS 180-4, section 6.1.3). */
  datatype Window = Window(
    r: Registers, w0: word, w1: word, w2: word, w3: word, w4: word, w5: word, w6: word, w7: word,
    w8: word, w9: word, w10: word, w11: word, w12: word, w13: word, w14: word, w15: word)

  function NextWord(p: word, q: word, r: word, s: word): word {
    (p ^ q ^ r ^ s).RotateLeft(1)
  }

  function Rolled(x: Window, t: nat): Window {
    Window(Round(x.r, t, x.w0), x.w1, x.w2, x.w3, x.w4, x.w5, x.w6, x.w7, x.w8, x.w9, x.w10, x.w11, x.w12, x.w13,
           x.w14, x.w15, NextWord(x.w13, x.w8, x.w2, x.w0))
  }

  /** k rounds from round t on. */
  function Rolling(x: Window, t: nat, k: nat): Window
    decreases k
  {
    if k == 0 then x else Rolling(Rolled(x, t), t + 1, k - 1)
  }

  ghost function WindowAt(block: seq<byte>, r: Registers, t: nat): Window
    requires |block| == 64
  {
    Window(Rounds(block, r, t), Schedule(block, t), Schedule(block, t + 1), Schedule(block, t + 2),
           Schedule(block, t + 3), Schedule(block, t + 4), Schedule(block, t + 5), Schedule(block, t + 6),
           Schedule(block, t + 7), Schedule(block, t + 8), Schedule(block, t + 9), Schedule(block, t + 10),
           Schedule(block, t + 11), Schedule(block, t + 12), Schedule(block, t + 13), Schedule(block, t + 14),
           Schedule(block, t + 15))
  }

  lemma NextOfSchedule(block: seq<byte>, t: nat)
    requires |block| == 64
    ensures Schedule(block, t + 16)
         == NextWord(Schedule(block, t + 13), Schedule(block, t + 8), Schedule(block, t + 2), Schedule(block, t))
  {
    hide Rotl1;
    RotationsAre(Schedule(block, t + 13) ^ Schedule(block, t + 8) ^ Schedule(block, t + 2) ^ Schedule(block, t));
  }

  lemma OneMoreRound(block: seq<byte>, r: Registers, t: nat)
    requires |block| == 64
    ensures Round(Rounds(block, r, t), t, Schedule(block, t)) == Rounds(block, r, t + 1)
  {
    hide Round, Schedule;
  }

  lemma OneRolled(block: seq<byte>, r: Registers, t: nat)
    requires |block| == 64
    ensures Rolled(WindowAt(block, r, t), t) == WindowAt(block, r, t + 1)
  {
    hide Round, Rounds, Schedule, NextWord;
    OneMoreRound(block, r, t);
    NextOfSchedule(block, t);
  }

  /** Sixteen words are enough. */
  lemma {:induction false} RollingIsRounds(block: seq<byte>, r: Registers, t: nat, k: nat)
    requires |block| == 64
    ensures Rolling(WindowAt(block, r, t), t, k) == WindowAt(block, r, t + k)
    decreases k
  {
    hide Rolled, WindowAt;
    if k > 0 {
      OneRolled(block, r, t);
      RollingIsRounds(block, r, t + 1, k - 1);
    }
  }

  const ABC_0 := Window(Registers(0x67452301, 0xEFCDAB89, 0x98BADCFE, 0x10325476, 0xC3D2E1F0),
    0x61626380, 0x00000000, 0x00000000, 0x00000000, 0x00000000, 0x00000000, 0x00000000, 0x00000000,
    0x00000000, 0x00000000, 0x00000000, 0x00000000, 0x00000000, 0x00000000, 0x00000000, 0x00000018)
  const ABC_8 := Window(Registers(0x9E8C07D4, 0x993E30C1, 0x0FF1F290, 0xB3F52677, 0xF3763846),
    0x00000000, 0x00000000, 0x00000000, 0x00000000, 0x00000000, 0x00000000, 0x00000000, 0x00000018,
    0xC2C4C700, 0x00000000, 0x00000030, 0x85898E01, 0x00000000, 0x00000060, 0x0B131C03, 0x00000030)
  const ABC_16 := Window(Registers(0x20BDD62F, 0x196BEE77, 0x644A3DA5, 0x1181ED99, 0x18C623F9),
    0xC2C4C700, 0x00000000, 0x00000030, 0x85898E01, 0x00000000, 0x00000060, 0x0B131C03, 0x00000030,
    0x85898EC1, 0x16263806, 0x00000000, 0x00000180, 0x2C4C700C, 0x000000F0, 0x93AFB507, 0x5898E048)
  const ABC_24 := Window(Registers(0xD541F12D, 0x21283486, 0x0CE88EFF, 0x868DEC32, 0x7F67875F),
    0x85898EC1, 0x16263806, 0x00000000, 0x00000180, 0x2C4C700C, 0x000000F0, 0x93AFB507, 0x5898E048,
    0x8E9A9202, 0x00000600, 0xB131C0F0, 0x16263BC6, 0x4EBED41E, 0x626380A1, 0x16263806, 0x000018C0)
  const ABC_32 := Window(Registers(0x3B845D33, 0x1267B407, 0x717EEBD7, 0xA0DC2D4B, 0xD2AA1365),
    0x8E9A9202, 0x00000600, 0xB131C0F0, 0x16263BC6, 0x4EBED41E, 0x626380A1, 0x16263806, 0x000018C0,
    0xD2E138C4, 0x00000F00, 0x3AFB5079, 0x898E04E5, 0xE2BA3C2B, 0x000060C0, 0x053A37CD, 0x74458547)
  const ABC_40 := Window(Registers(0x32DE1CBA, 0x4C986405, 0xF718E5CF, 0x03D447F6, 0xF72EEC32),
    0xD2E138C4, 0x00000F00, 0x3AFB5079, 0x898E04E5, 0xE2BA3C2B, 0x000060C0, 0x053A37CD, 0x74458547,
    0xDA9415ED, 0x26380A16, 0x626383A1, 0x4EBF54DE, 0x3835B44B, 0x0000F600, 0x1E84C7A3, 0x98E04D98)
  const ABC_48 := Window(Registers(0xBEAD02CA, 0xA01B846C, 0x8714787C, 0x503CA382, 0xFB86C6AB),
    0xDA9415ED, 0x26380A16, 0x626383A1, 0x4EBF54DE, 0x3835B44B, 0x0000F600, 0x1E84C7A3, 0x98E04D98,
    0x651D16A0, 0x62658CA1, 0x458544D6, 0x44584CB7, 0x7BA06619, 0x6380AEA2, 0x0AE55269, 0x627B49A1)
  const ABC_56 := Window(Registers(0x5E6456AF, 0x7B71F76D, 0x09FA7C76, 0x792410DB, 0x8E11EB59),
    0x651D16A0, 0x62658CA1, 0x458544D6, 0x44584CB7, 0x7BA06619, 0x6380AEA2, 0x0AE55269, 0x627B49A1,
    0x7CD45C9D, 0x000F0000, 0xFB50753A, 0xEC6765E8, 0xBA3C2BE2, 0x0060C000, 0x3A37CD05, 0x458546F4)
  const ABC_64 := Window(Registers(0x6B61C9E1, 0xB66C020B, 0x9523272C, 0xF5D5B051, 0x8FD4B796),
    0x7CD45C9D, 0x000F0000, 0xFB50753A, 0xEC6765E8, 0xBA3C2BE2, 0x0060C000, 0x3A37CD05, 0x458546F4,
    0xB8599DD6, 0x380A1A26, 0x01E02203, 0xE7CC3456, 0xE6E60B69, 0x00F60A00, 0x5795EF4F, 0x822E0879)
  const ABC_72 := Window(Registers(0x39859DE7, 0xC199F8C7, 0x8FC96230, 0x125C24F0, 0xDE37534A),
    0xB8599DD6, 0x380A1A26, 0x01E02203, 0xE7CC3456, 0xE6E60B69, 0x00F60A00, 0x5795EF4F, 0x822E0879,
    0x7E577CE2, 0x07EF2103, 0x8544E945, 0xEB39DAB8, 0xC205991A, 0x80AECB63, 0x7D84CA48, 0x7B499B62)
  const ABC_80 := Window(Registers(0x42541B35, 0x5738D5E1, 0x21834873, 0x681E6DF6, 0xD8FDF6AD),
    0x7E577CE2, 0x07EF2103, 0x8544E945, 0xEB39DAB8, 0xC205991A, 0x80AECB63, 0x7D84CA48, 0x7B499B62,
    0x8E8010A8, 0x4B5B8A77, 0x3216B69A, 0x0507E88D, 0x705BEE96, 0x60C0FF00, 0xA28362D0, 0x1DA6B91D)

  lemma From0()
    ensures Rolling(ABC_0, 0, 8) == ABC_8
  {
  }

  lemma From8()
    ensures Rolling(ABC_8, 8, 8) == ABC_16
  {
  }

  lemma From16()
    ensures Rolling(ABC_16, 16, 8) == ABC_24
  {
  }

  lemma From24()
    ensures Rolling(ABC_24, 24, 8) == ABC_32
  {
  }

  lemma From32()
    ensures Rolling(ABC_32, 32, 8) == ABC_40
  {
  }

  lemma From40()
    ensures Rolling(ABC_40, 40, 8) == ABC_48
  {
  }

  lemma From48()
    ensures Rolling(ABC_48, 48, 8) == ABC_56
  {
  }

  lemma From56()
    ensures Rolling(ABC_56, 56, 8) == ABC_64
  {
  }

  lemma From64()
    ensures Rolling(ABC_64, 64, 8) == ABC_72
  {
  }

  lemma From72()
    ensures Rolling(ABC_72, 72, 8) == ABC_80
  {
  }

  /** The padded message: 61 62 63 80, zeros, and a length of 24 bits. */
  const ABC: seq<byte> := [0x61, 0x62, 0x63]
  const ABC_BLOCK: seq<byte> := [0x61, 0x62, 0x63, 0x80] + Zeros(59) + [24]

  lemma PaddedAbc()
    ensures Pad(ABC) == ABC_BLOCK && |ABC_BLOCK| == 64
  {
    hide ToBigEndian;
    DigitsJoin(24);
    assert PadZeros(3) == 52;
    assert Pad(ABC) == ABC + [0x80] + Zeros(52) + [0, 0, 0, 0, 0, 0, 0, 24];
  }

  lemma SameWord(v: word, w: word)
    requires v as int == w as int
    ensures v == w
  {
    assert (v as int) as word == v && (w as int) as word == w;
  }

  lemma WidenedAbc()
    ensures Widen(0x61) == 0x61 && Widen(0x62) == 0x62 && Widen(0x63) == 0x63
    ensures Widen(0x80) == 0x80 && Widen(24) == 24 && Widen(0) == 0
  {
    hide Widen;
    WidenValue(0x61);
    WidenValue(0x62);
    WidenValue(0x63);
    WidenValue(0x80);
    WidenValue(24);
    WidenValue(0);
    SameWord(Widen(0x61), 0x61);
    SameWord(Widen(0x62), 0x62);
    SameWord(Widen(0x63), 0x63);
    SameWord(Widen(0x80), 0x80);
    SameWord(Widen(24), 24);
    SameWord(Widen(0), 0);
  }

  lemma WordsOfAbc(t: nat)
    requires t < 16 && |ABC_BLOCK| == 64
    ensures Schedule(ABC_BLOCK, t) == if t == 0 then 0x61626380 else if t == 15 then 24 else 0
  {
    hide Widen;
    WidenedAbc();
    if t == 0 {
      assert Join(0x61, 0x62, 0x63, 0x80) == 0x61626380;
    } else if t == 15 {
      assert Join(0, 0, 0, 24) == 24;
    } else {
      assert Join(0, 0, 0, 0) == 0;
    }
  }

  lemma FirstWindow()
    ensures |ABC_BLOCK| == 64 && WindowAt(ABC_BLOCK, INITIAL, 0) == ABC_0
  {
    hide Schedule;
    forall t | 0 <= t < 16
      ensures Schedule(ABC_BLOCK, t) == if t == 0 then 0x61626380 else if t == 15 then 24 else 0
    {
      WordsOfAbc(t);
    }
  }

  lemma RoundsOfAbc()
    ensures |ABC_BLOCK| == 64 && WindowAt(ABC_BLOCK, INITIAL, 80) == ABC_80
  {
    hide *;
    FirstWindow();
    From0();
    From8();
    From16();
    From24();
    From32();
    From40();
    From48();
    From56();
    From64();
    From72();
    RollingIsRounds(ABC_BLOCK, INITIAL, 0, 8);
    RollingIsRounds(ABC_BLOCK, INITIAL, 8, 8);
    RollingIsRounds(ABC_BLOCK, INITIAL, 16, 8);
    RollingIsRounds(ABC_BLOCK, INITIAL, 24, 8);
    RollingIsRounds(ABC_BLOCK, INITIAL, 32, 8);
    RollingIsRounds(ABC_BLOCK, INITIAL, 40, 8);
    RollingIsRounds(ABC_BLOCK, INITIAL, 48, 8);
    RollingIsRounds(ABC_BLOCK, INITIAL, 56, 8);
    RollingIsRounds(ABC_BLOCK, INITIAL, 64, 8);
    RollingIsRounds(ABC_BLOCK, INITIAL, 72, 8);
  }

  /** A further block. */
  lemma NextBlock(m: seq<byte>, block: seq<byte>)
    requires |m| % 64 == 0 && |block| == 64
    ensures Hash(m + block) == Add(Hash(m), WindowAt(block, Hash(m), 80).r)
  {
    hide Rounds, Add, Schedule;
    var all := m + block;
    assert all[..|all| - 64] == m && all[|all| - 64..] == block;
  }

  /** FIPS 180-2, appendix A.1. */
  lemma DigestOfAbc()
    ensures |Pad(ABC)| == 64
    ensures Hash(Pad(ABC)) == Registers(0xA9993E36, 0x4706816A, 0xBA3E2571, 0x7850C26C, 0x9CD0D89D)
  {
    hide Hash, Pad, WindowAt;
    PaddedAbc();
    RoundsOfAbc();
    NextBlock([], ABC_BLOCK);
    assert [] + ABC_BLOCK == ABC_BLOCK;
    EmptyHash();
  }

  lemma EmptyHash()
    ensures Hash([]) == INITIAL
  {
  }
}
