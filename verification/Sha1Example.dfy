/** The worked example of FIPS PUB 180-1, appendix A: the digest of "abc", word by word and round by round, evaluated from
    the definition in Sha1Standard alone. */
module Sha1Example {
  import opened Sha1Standard

  const ABC: seq<octet> := [0x61, 0x62, 0x63]

  /** The message, the one bit, zeros, and the length in bits. */
  ghost predicate IsBlock(b: seq<octet>)
  {
    && |b| == 64 && b[0] == 0x61 && b[1] == 0x62 && b[2] == 0x63 && b[3] == 0x80 && b[63] == 0x18
    && forall i :: 4 <= i < 63 ==> b[i] == 0
  }

  lemma PaddedAbc()
    ensures IsBlock(Padded(ABC))
  {
    hide LengthOctets;
    Length24();
    assert Zeros(3) == 52;
  }

  lemma Length24()
    ensures LengthOctets(24) == [0, 0, 0, 0, 0, 0, 0, 0x18]
  {
    assert 24 / TWO_32 == 0 && 24 % TWO_32 == 24;
    assert Octets32(0) == [0, 0, 0, 0] && Octets32(24) == [0, 0, 0, 0x18];
  }

  // The schedule

  ghost predicate FirstWords(b: seq<octet>)
    requires |b| == 64
  {
    && W(b, 0) == 0x61626380 && W(b, 1) == 0x00000000
    && W(b, 2) == 0x00000000 && W(b, 3) == 0x00000000
    && W(b, 4) == 0x00000000 && W(b, 5) == 0x00000000
    && W(b, 6) == 0x00000000 && W(b, 7) == 0x00000000
    && W(b, 8) == 0x00000000 && W(b, 9) == 0x00000000
    && W(b, 10) == 0x00000000 && W(b, 11) == 0x00000000
    && W(b, 12) == 0x00000000 && W(b, 13) == 0x00000000
    && W(b, 14) == 0x00000000 && W(b, 15) == 0x00000018
  }

  ghost predicate SecondWords(b: seq<octet>)
    requires |b| == 64
  {
    && W(b, 16) == 0xC2C4C700 && W(b, 17) == 0x00000000
    && W(b, 18) == 0x00000030 && W(b, 19) == 0x85898E01
    && W(b, 20) == 0x00000000 && W(b, 21) == 0x00000060
    && W(b, 22) == 0x0B131C03 && W(b, 23) == 0x00000030
    && W(b, 24) == 0x85898EC1 && W(b, 25) == 0x16263806
    && W(b, 26) == 0x00000000 && W(b, 27) == 0x00000180
    && W(b, 28) == 0x2C4C700C && W(b, 29) == 0x000000F0
    && W(b, 30) == 0x93AFB507 && W(b, 31) == 0x5898E048
  }

  ghost predicate ThirdWords(b: seq<octet>)
    requires |b| == 64
  {
    && W(b, 32) == 0x8E9A9202 && W(b, 33) == 0x00000600
    && W(b, 34) == 0xB131C0F0 && W(b, 35) == 0x16263BC6
    && W(b, 36) == 0x4EBED41E && W(b, 37) == 0x626380A1
    && W(b, 38) == 0x16263806 && W(b, 39) == 0x000018C0
    && W(b, 40) == 0xD2E138C4 && W(b, 41) == 0x00000F00
    && W(b, 42) == 0x3AFB5079 && W(b, 43) == 0x898E04E5
    && W(b, 44) == 0xE2BA3C2B && W(b, 45) == 0x000060C0
    && W(b, 46) == 0x053A37CD && W(b, 47) == 0x74458547
  }

  ghost predicate FourthWords(b: seq<octet>)
    requires |b| == 64
  {
    && W(b, 48) == 0xDA9415ED && W(b, 49) == 0x26380A16
    && W(b, 50) == 0x626383A1 && W(b, 51) == 0x4EBF54DE
    && W(b, 52) == 0x3835B44B && W(b, 53) == 0x0000F600
    && W(b, 54) == 0x1E84C7A3 && W(b, 55) == 0x98E04D98
    && W(b, 56) == 0x651D16A0 && W(b, 57) == 0x62658CA1
    && W(b, 58) == 0x458544D6 && W(b, 59) == 0x44584CB7
    && W(b, 60) == 0x7BA06619 && W(b, 61) == 0x6380AEA2
    && W(b, 62) == 0x0AE55269 && W(b, 63) == 0x627B49A1
  }

  ghost predicate FifthWords(b: seq<octet>)
    requires |b| == 64
  {
    && W(b, 64) == 0x7CD45C9D && W(b, 65) == 0x000F0000
    && W(b, 66) == 0xFB50753A && W(b, 67) == 0xEC6765E8
    && W(b, 68) == 0xBA3C2BE2 && W(b, 69) == 0x0060C000
    && W(b, 70) == 0x3A37CD05 && W(b, 71) == 0x458546F4
    && W(b, 72) == 0xB8599DD6 && W(b, 73) == 0x380A1A26
    && W(b, 74) == 0x01E02203 && W(b, 75) == 0xE7CC3456
    && W(b, 76) == 0xE6E60B69 && W(b, 77) == 0x00F60A00
    && W(b, 78) == 0x5795EF4F && W(b, 79) == 0x822E0879
  }

  lemma FirstWordsAre(b: seq<octet>)
    requires IsBlock(b)
    ensures FirstWords(b)
  {
    hide W;
    FirstWord(b, 0, 0x61626380);
    FirstWord(b, 1, 0);
    FirstWord(b, 2, 0);
    FirstWord(b, 3, 0);
    FirstWord(b, 4, 0);
    FirstWord(b, 5, 0);
    FirstWord(b, 6, 0);
    FirstWord(b, 7, 0);
    FirstWord(b, 8, 0);
    FirstWord(b, 9, 0);
    FirstWord(b, 10, 0);
    FirstWord(b, 11, 0);
    FirstWord(b, 12, 0);
    FirstWord(b, 13, 0);
    FirstWord(b, 14, 0);
    FirstWord(b, 15, 0x18);
  }

  lemma FirstWord(b: seq<octet>, t: nat, w: word)
    requires |b| == 64 && t < 16 && WordOf(b[4 * t], b[4 * t + 1], b[4 * t + 2], b[4 * t + 3]) == w
    ensures W(b, t) == w
  {
  }

  lemma NextWord(b: seq<octet>, t: nat, w: word)
    requires |b| == 64 && 16 <= t < 80
    requires S(1, Xor4(W(b, t - 3), W(b, t - 8), W(b, t - 14), W(b, t - 16))) == w
    ensures W(b, t) == w
  {
  }

  lemma SecondWordsAre(b: seq<octet>)
    requires |b| == 64 && FirstWords(b)
    ensures SecondWords(b)
  {
    hide W;
    NextWord(b, 16, 0xC2C4C700);
    NextWord(b, 17, 0x00000000);
    NextWord(b, 18, 0x00000030);
    NextWord(b, 19, 0x85898E01);
    NextWord(b, 20, 0x00000000);
    NextWord(b, 21, 0x00000060);
    NextWord(b, 22, 0x0B131C03);
    NextWord(b, 23, 0x00000030);
    NextWord(b, 24, 0x85898EC1);
    NextWord(b, 25, 0x16263806);
    NextWord(b, 26, 0x00000000);
    NextWord(b, 27, 0x00000180);
    NextWord(b, 28, 0x2C4C700C);
    NextWord(b, 29, 0x000000F0);
    NextWord(b, 30, 0x93AFB507);
    NextWord(b, 31, 0x5898E048);
  }

  lemma ThirdWordsAre(b: seq<octet>)
    requires |b| == 64 && SecondWords(b)
    ensures ThirdWords(b)
  {
    hide W;
    NextWord(b, 32, 0x8E9A9202);
    NextWord(b, 33, 0x00000600);
    NextWord(b, 34, 0xB131C0F0);
    NextWord(b, 35, 0x16263BC6);
    NextWord(b, 36, 0x4EBED41E);
    NextWord(b, 37, 0x626380A1);
    NextWord(b, 38, 0x16263806);
    NextWord(b, 39, 0x000018C0);
    NextWord(b, 40, 0xD2E138C4);
    NextWord(b, 41, 0x00000F00);
    NextWord(b, 42, 0x3AFB5079);
    NextWord(b, 43, 0x898E04E5);
    NextWord(b, 44, 0xE2BA3C2B);
    NextWord(b, 45, 0x000060C0);
    NextWord(b, 46, 0x053A37CD);
    NextWord(b, 47, 0x74458547);
  }

  lemma FourthWordsAre(b: seq<octet>)
    requires |b| == 64 && ThirdWords(b)
    ensures FourthWords(b)
  {
    hide W;
    NextWord(b, 48, 0xDA9415ED);
    NextWord(b, 49, 0x26380A16);
    NextWord(b, 50, 0x626383A1);
    NextWord(b, 51, 0x4EBF54DE);
    NextWord(b, 52, 0x3835B44B);
    NextWord(b, 53, 0x0000F600);
    NextWord(b, 54, 0x1E84C7A3);
    NextWord(b, 55, 0x98E04D98);
    NextWord(b, 56, 0x651D16A0);
    NextWord(b, 57, 0x62658CA1);
    NextWord(b, 58, 0x458544D6);
    NextWord(b, 59, 0x44584CB7);
    NextWord(b, 60, 0x7BA06619);
    NextWord(b, 61, 0x6380AEA2);
    NextWord(b, 62, 0x0AE55269);
    NextWord(b, 63, 0x627B49A1);
  }

  lemma FifthWordsAre(b: seq<octet>)
    requires |b| == 64 && FourthWords(b)
    ensures FifthWords(b)
  {
    hide W;
    NextWord(b, 64, 0x7CD45C9D);
    NextWord(b, 65, 0x000F0000);
    NextWord(b, 66, 0xFB50753A);
    NextWord(b, 67, 0xEC6765E8);
    NextWord(b, 68, 0xBA3C2BE2);
    NextWord(b, 69, 0x0060C000);
    NextWord(b, 70, 0x3A37CD05);
    NextWord(b, 71, 0x458546F4);
    NextWord(b, 72, 0xB8599DD6);
    NextWord(b, 73, 0x380A1A26);
    NextWord(b, 74, 0x01E02203);
    NextWord(b, 75, 0xE7CC3456);
    NextWord(b, 76, 0xE6E60B69);
    NextWord(b, 77, 0x00F60A00);
    NextWord(b, 78, 0x5795EF4F);
    NextWord(b, 79, 0x822E0879);
  }

  // The rounds

  lemma NextRegisters(b: seq<octet>, t: nat, r: Registers)
    requires |b| == 64 && t < 80 && Round(Rounds(H0, b, t), t, W(b, t)) == r
    ensures Rounds(H0, b, t + 1) == r
  {
    hide Round;
    hide W;
  }

  lemma Rounds0To10(b: seq<octet>)
    requires |b| == 64 && FirstWords(b)
    requires Rounds(H0, b, 0) == Registers(0x67452301, 0xEFCDAB89, 0x98BADCFE, 0x10325476, 0xC3D2E1F0)
    ensures Rounds(H0, b, 10) == Registers(0x8351F929, 0x4B6AE328, 0x27A301F5, 0x664F8C30, 0x0FF1F290)
  {
    hide W;
    hide Rounds;
    NextRegisters(b, 0, Registers(0x0116FC33, 0x67452301, 0x7BF36AE2, 0x98BADCFE, 0x10325476));
    NextRegisters(b, 1, Registers(0x8990536D, 0x0116FC33, 0x59D148C0, 0x7BF36AE2, 0x98BADCFE));
    NextRegisters(b, 2, Registers(0xA1390F08, 0x8990536D, 0xC045BF0C, 0x59D148C0, 0x7BF36AE2));
    NextRegisters(b, 3, Registers(0xCDD8E11B, 0xA1390F08, 0x626414DB, 0xC045BF0C, 0x59D148C0));
    NextRegisters(b, 4, Registers(0xCFD499DE, 0xCDD8E11B, 0x284E43C2, 0x626414DB, 0xC045BF0C));
    NextRegisters(b, 5, Registers(0x3FC7CA40, 0xCFD499DE, 0xF3763846, 0x284E43C2, 0x626414DB));
    NextRegisters(b, 6, Registers(0x993E30C1, 0x3FC7CA40, 0xB3F52677, 0xF3763846, 0x284E43C2));
    NextRegisters(b, 7, Registers(0x9E8C07D4, 0x993E30C1, 0x0FF1F290, 0xB3F52677, 0xF3763846));
    NextRegisters(b, 8, Registers(0x4B6AE328, 0x9E8C07D4, 0x664F8C30, 0x0FF1F290, 0xB3F52677));
    NextRegisters(b, 9, Registers(0x8351F929, 0x4B6AE328, 0x27A301F5, 0x664F8C30, 0x0FF1F290));
  }

  lemma Rounds10To20(b: seq<octet>)
    requires |b| == 64 && FirstWords(b) && SecondWords(b)
    requires Rounds(H0, b, 10) == Registers(0x8351F929, 0x4B6AE328, 0x27A301F5, 0x664F8C30, 0x0FF1F290)
    ensures Rounds(H0, b, 20) == Registers(0xFD9E1D7D, 0xDC64901D, 0x20AA99CA, 0xD3A49608, 0xC82F758B)
  {
    hide W;
    hide Rounds;
    NextRegisters(b, 10, Registers(0xFBDA9E89, 0x8351F929, 0x12DAB8CA, 0x27A301F5, 0x664F8C30));
    NextRegisters(b, 11, Registers(0x63188FE4, 0xFBDA9E89, 0x60D47E4A, 0x12DAB8CA, 0x27A301F5));
    NextRegisters(b, 12, Registers(0x4607B664, 0x63188FE4, 0x7EF6A7A2, 0x60D47E4A, 0x12DAB8CA));
    NextRegisters(b, 13, Registers(0x9128F695, 0x4607B664, 0x18C623F9, 0x7EF6A7A2, 0x60D47E4A));
    NextRegisters(b, 14, Registers(0x196BEE77, 0x9128F695, 0x1181ED99, 0x18C623F9, 0x7EF6A7A2));
    NextRegisters(b, 15, Registers(0x20BDD62F, 0x196BEE77, 0x644A3DA5, 0x1181ED99, 0x18C623F9));
    NextRegisters(b, 16, Registers(0x4E925823, 0x20BDD62F, 0xC65AFB9D, 0x644A3DA5, 0x1181ED99));
    NextRegisters(b, 17, Registers(0x82AA6728, 0x4E925823, 0xC82F758B, 0xC65AFB9D, 0x644A3DA5));
    NextRegisters(b, 18, Registers(0xDC64901D, 0x82AA6728, 0xD3A49608, 0xC82F758B, 0xC65AFB9D));
    NextRegisters(b, 19, Registers(0xFD9E1D7D, 0xDC64901D, 0x20AA99CA, 0xD3A49608, 0xC82F758B));
  }

  lemma Rounds20To30(b: seq<octet>)
    requires |b| == 64 && SecondWords(b)
    requires Rounds(H0, b, 20) == Registers(0xFD9E1D7D, 0xDC64901D, 0x20AA99CA, 0xD3A49608, 0xC82F758B)
    ensures Rounds(H0, b, 30) == Registers(0xC5FBAF5D, 0x8370B52E, 0xD2AA1365, 0x6F8D7EF5, 0x12104EE9)
  {
    hide W;
    hide Rounds;
    NextRegisters(b, 20, Registers(0x1A37B0CA, 0xFD9E1D7D, 0x77192407, 0x20AA99CA, 0xD3A49608));
    NextRegisters(b, 21, Registers(0x33A23BFC, 0x1A37B0CA, 0x7F67875F, 0x77192407, 0x20AA99CA));
    NextRegisters(b, 22, Registers(0x21283486, 0x33A23BFC, 0x868DEC32, 0x7F67875F, 0x77192407));
    NextRegisters(b, 23, Registers(0xD541F12D, 0x21283486, 0x0CE88EFF, 0x868DEC32, 0x7F67875F));
    NextRegisters(b, 24, Registers(0xC7567DC6, 0xD541F12D, 0x884A0D21, 0x0CE88EFF, 0x868DEC32));
    NextRegisters(b, 25, Registers(0x48413BA4, 0xC7567DC6, 0x75507C4B, 0x884A0D21, 0x0CE88EFF));
    NextRegisters(b, 26, Registers(0xBE35FBD5, 0x48413BA4, 0xB1D59F71, 0x75507C4B, 0x884A0D21));
    NextRegisters(b, 27, Registers(0x4AA84D97, 0xBE35FBD5, 0x12104EE9, 0xB1D59F71, 0x75507C4B));
    NextRegisters(b, 28, Registers(0x8370B52E, 0x4AA84D97, 0x6F8D7EF5, 0x12104EE9, 0xB1D59F71));
    NextRegisters(b, 29, Registers(0xC5FBAF5D, 0x8370B52E, 0xD2AA1365, 0x6F8D7EF5, 0x12104EE9));
  }

  lemma Rounds30To40(b: seq<octet>)
    requires |b| == 64 && SecondWords(b) && ThirdWords(b)
    requires Rounds(H0, b, 30) == Registers(0xC5FBAF5D, 0x8370B52E, 0xD2AA1365, 0x6F8D7EF5, 0x12104EE9)
    ensures Rounds(H0, b, 40) == Registers(0x32DE1CBA, 0x4C986405, 0xF718E5CF, 0x03D447F6, 0xF72EEC32)
  {
    hide W;
    hide Rounds;
    NextRegisters(b, 30, Registers(0x1267B407, 0xC5FBAF5D, 0xA0DC2D4B, 0xD2AA1365, 0x6F8D7EF5));
    NextRegisters(b, 31, Registers(0x3B845D33, 0x1267B407, 0x717EEBD7, 0xA0DC2D4B, 0xD2AA1365));
    NextRegisters(b, 32, Registers(0x046FAA0A, 0x3B845D33, 0xC499ED01, 0x717EEBD7, 0xA0DC2D4B));
    NextRegisters(b, 33, Registers(0x2C0EBC11, 0x046FAA0A, 0xCEE1174C, 0xC499ED01, 0x717EEBD7));
    NextRegisters(b, 34, Registers(0x21796AD4, 0x2C0EBC11, 0x811BEA82, 0xCEE1174C, 0xC499ED01));
    NextRegisters(b, 35, Registers(0xDCBBB0CB, 0x21796AD4, 0x4B03AF04, 0x811BEA82, 0xCEE1174C));
    NextRegisters(b, 36, Registers(0x0F511FD8, 0xDCBBB0CB, 0x085E5AB5, 0x4B03AF04, 0x811BEA82));
    NextRegisters(b, 37, Registers(0xDC63973F, 0x0F511FD8, 0xF72EEC32, 0x085E5AB5, 0x4B03AF04));
    NextRegisters(b, 38, Registers(0x4C986405, 0xDC63973F, 0x03D447F6, 0xF72EEC32, 0x085E5AB5));
    NextRegisters(b, 39, Registers(0x32DE1CBA, 0x4C986405, 0xF718E5CF, 0x03D447F6, 0xF72EEC32));
  }

  lemma Rounds40To50(b: seq<octet>)
    requires |b| == 64 && ThirdWords(b) && FourthWords(b)
    requires Rounds(H0, b, 40) == Registers(0x32DE1CBA, 0x4C986405, 0xF718E5CF, 0x03D447F6, 0xF72EEC32)
    ensures Rounds(H0, b, 50) == Registers(0x120731C5, 0xBAF39337, 0xAFAB40B2, 0x2806E11B, 0x8714787C)
  {
    hide W;
    hide Rounds;
    NextRegisters(b, 40, Registers(0xFC87DEDF, 0x32DE1CBA, 0x53261901, 0xF718E5CF, 0x03D447F6));
    NextRegisters(b, 41, Registers(0x970A0D5C, 0xFC87DEDF, 0x8CB7872E, 0x53261901, 0xF718E5CF));
    NextRegisters(b, 42, Registers(0x7F193DC5, 0x970A0D5C, 0xFF21F7B7, 0x8CB7872E, 0x53261901));
    NextRegisters(b, 43, Registers(0xEE1B1AAF, 0x7F193DC5, 0x25C28357, 0xFF21F7B7, 0x8CB7872E));
    NextRegisters(b, 44, Registers(0x40F28E09, 0xEE1B1AAF, 0x5FC64F71, 0x25C28357, 0xFF21F7B7));
    NextRegisters(b, 45, Registers(0x1C51E1F2, 0x40F28E09, 0xFB86C6AB, 0x5FC64F71, 0x25C28357));
    NextRegisters(b, 46, Registers(0xA01B846C, 0x1C51E1F2, 0x503CA382, 0xFB86C6AB, 0x5FC64F71));
    NextRegisters(b, 47, Registers(0xBEAD02CA, 0xA01B846C, 0x8714787C, 0x503CA382, 0xFB86C6AB));
    NextRegisters(b, 48, Registers(0xBAF39337, 0xBEAD02CA, 0x2806E11B, 0x8714787C, 0x503CA382));
    NextRegisters(b, 49, Registers(0x120731C5, 0xBAF39337, 0xAFAB40B2, 0x2806E11B, 0x8714787C));
  }

  lemma Rounds50To60(b: seq<octet>)
    requires |b| == 64 && FourthWords(b)
    requires Rounds(H0, b, 50) == Registers(0x120731C5, 0xBAF39337, 0xAFAB40B2, 0x2806E11B, 0x8714787C)
    ensures Rounds(H0, b, 60) == Registers(0x3F52DE5A, 0x09D785FD, 0x3498BFD4, 0xF211824F, 0xD79915AB)
  {
    hide W;
    hide Rounds;
    NextRegisters(b, 50, Registers(0x641DB2CE, 0x120731C5, 0xEEBCE4CD, 0xAFAB40B2, 0x2806E11B));
    NextRegisters(b, 51, Registers(0x3847AD66, 0x641DB2CE, 0x4481CC71, 0xEEBCE4CD, 0xAFAB40B2));
    NextRegisters(b, 52, Registers(0xE490436D, 0x3847AD66, 0x99076CB3, 0x4481CC71, 0xEEBCE4CD));
    NextRegisters(b, 53, Registers(0x27E9F1D8, 0xE490436D, 0x8E11EB59, 0x99076CB3, 0x4481CC71));
    NextRegisters(b, 54, Registers(0x7B71F76D, 0x27E9F1D8, 0x792410DB, 0x8E11EB59, 0x99076CB3));
    NextRegisters(b, 55, Registers(0x5E6456AF, 0x7B71F76D, 0x09FA7C76, 0x792410DB, 0x8E11EB59));
    NextRegisters(b, 56, Registers(0xC846093F, 0x5E6456AF, 0x5EDC7DDB, 0x09FA7C76, 0x792410DB));
    NextRegisters(b, 57, Registers(0xD262FF50, 0xC846093F, 0xD79915AB, 0x5EDC7DDB, 0x09FA7C76));
    NextRegisters(b, 58, Registers(0x09D785FD, 0xD262FF50, 0xF211824F, 0xD79915AB, 0x5EDC7DDB));
    NextRegisters(b, 59, Registers(0x3F52DE5A, 0x09D785FD, 0x3498BFD4, 0xF211824F, 0xD79915AB));
  }

  lemma Rounds60To70(b: seq<octet>)
    requires |b| == 64 && FourthWords(b) && FifthWords(b)
    requires Rounds(H0, b, 60) == Registers(0x3F52DE5A, 0x09D785FD, 0x3498BFD4, 0xF211824F, 0xD79915AB)
    ensures Rounds(H0, b, 70) == Registers(0x3F2588C2, 0x497093C0, 0xDE37534A, 0x030F7CAD, 0x4405957E)
  {
    hide W;
    hide Rounds;
    NextRegisters(b, 60, Registers(0xD756C147, 0x3F52DE5A, 0x4275E17F, 0x3498BFD4, 0xF211824F));
    NextRegisters(b, 61, Registers(0x548C9CB2, 0xD756C147, 0x8FD4B796, 0x4275E17F, 0x3498BFD4));
    NextRegisters(b, 62, Registers(0xB66C020B, 0x548C9CB2, 0xF5D5B051, 0x8FD4B796, 0x4275E17F));
    NextRegisters(b, 63, Registers(0x6B61C9E1, 0xB66C020B, 0x9523272C, 0xF5D5B051, 0x8FD4B796));
    NextRegisters(b, 64, Registers(0x19DFA7AC, 0x6B61C9E1, 0xED9B0082, 0x9523272C, 0xF5D5B051));
    NextRegisters(b, 65, Registers(0x101655F9, 0x19DFA7AC, 0x5AD87278, 0xED9B0082, 0x9523272C));
    NextRegisters(b, 66, Registers(0x0C3DF2B4, 0x101655F9, 0x0677E9EB, 0x5AD87278, 0xED9B0082));
    NextRegisters(b, 67, Registers(0x78DD4D2B, 0x0C3DF2B4, 0x4405957E, 0x0677E9EB, 0x5AD87278));
    NextRegisters(b, 68, Registers(0x497093C0, 0x78DD4D2B, 0x030F7CAD, 0x4405957E, 0x0677E9EB));
    NextRegisters(b, 69, Registers(0x3F2588C2, 0x497093C0, 0xDE37534A, 0x030F7CAD, 0x4405957E));
  }

  lemma Rounds70To80(b: seq<octet>)
    requires |b| == 64 && FifthWords(b)
    requires Rounds(H0, b, 70) == Registers(0x3F2588C2, 0x497093C0, 0xDE37534A, 0x030F7CAD, 0x4405957E)
    ensures Rounds(H0, b, 80) == Registers(0x42541B35, 0x5738D5E1, 0x21834873, 0x681E6DF6, 0xD8FDF6AD)
  {
    hide W;
    hide Rounds;
    NextRegisters(b, 70, Registers(0xC199F8C7, 0x3F2588C2, 0x125C24F0, 0xDE37534A, 0x030F7CAD));
    NextRegisters(b, 71, Registers(0x39859DE7, 0xC199F8C7, 0x8FC96230, 0x125C24F0, 0xDE37534A));
    NextRegisters(b, 72, Registers(0xEDB42DE4, 0x39859DE7, 0xF0667E31, 0x8FC96230, 0x125C24F0));
    NextRegisters(b, 73, Registers(0x11793F6F, 0xEDB42DE4, 0xCE616779, 0xF0667E31, 0x8FC96230));
    NextRegisters(b, 74, Registers(0x5EE76897, 0x11793F6F, 0x3B6D0B79, 0xCE616779, 0xF0667E31));
    NextRegisters(b, 75, Registers(0x63F7DAB7, 0x5EE76897, 0xC45E4FDB, 0x3B6D0B79, 0xCE616779));
    NextRegisters(b, 76, Registers(0xA079B7D9, 0x63F7DAB7, 0xD7B9DA25, 0xC45E4FDB, 0x3B6D0B79));
    NextRegisters(b, 77, Registers(0x860D21CC, 0xA079B7D9, 0xD8FDF6AD, 0xD7B9DA25, 0xC45E4FDB));
    NextRegisters(b, 78, Registers(0x5738D5E1, 0x860D21CC, 0x681E6DF6, 0xD8FDF6AD, 0xD7B9DA25));
    NextRegisters(b, 79, Registers(0x42541B35, 0x5738D5E1, 0x21834873, 0x681E6DF6, 0xD8FDF6AD));
  }

  lemma CompressBlock(b: seq<octet>)
    requires IsBlock(b)
    ensures Compress(H0, b) == Registers(0xA9993E36, 0x4706816A, 0xBA3E2571, 0x7850C26C, 0x9CD0D89D)
  {
    hide W;
    hide Rounds;
    hide FirstWords;
    hide SecondWords;
    hide ThirdWords;
    hide FourthWords;
    hide FifthWords;
    FirstWordsAre(b);
    SecondWordsAre(b);
    ThirdWordsAre(b);
    FourthWordsAre(b);
    FifthWordsAre(b);
    NoRounds(b);
    Rounds0To10(b);
    Rounds10To20(b);
    Rounds20To30(b);
    Rounds30To40(b);
    Rounds40To50(b);
    Rounds50To60(b);
    Rounds60To70(b);
    Rounds70To80(b);
  }

  lemma NoRounds(b: seq<octet>)
    requires |b| == 64
    ensures Rounds(H0, b, 0) == H0
  {
  }

  /** A9993E36 4706816A BA3E2571 7850C26C 9CD0D89D. */
  lemma DigestOfAbc()
    ensures Digest(ABC) == Registers(0xA9993E36, 0x4706816A, 0xBA3E2571, 0x7850C26C, 0x9CD0D89D)
  {
    hide Padded;
    hide Compress;
    var b := Padded(ABC);
    PaddedAbc();
    CompressBlock(b);
    OneBlock(H0, [], b);
    assert [] + b == b && Blocks(H0, []) == H0;
  }
}
