/**
 The exponents of the 272 powers of the bit step that the bits of a frame have as syndromes, looked up by the low 31 bits of
 the power. That the table is right for all of them shows that no two agree in those bits.
 */
module PowerTable {
  import opened Crc32
  import opened BitErrors

  // ----- The exponent of a power, from its low 31 bits

  function Low31(x: bv32): bv32 {
    x & 0x7FFF_FFFF
  }

  function Exponent0(y: bv32): nat {
    if y == 0x0000_0000 then 0 else if y == 0x0000_0001 then 31 else if y == 0x0000_0002 then 30 else
    if y == 0x0000_0004 then 29 else if y == 0x0000_0008 then 28 else if y == 0x0000_0010 then 27 else
    if y == 0x0000_0020 then 26 else if y == 0x0000_0040 then 25 else if y == 0x0000_0080 then 24 else
    if y == 0x0000_0100 then 23 else if y == 0x0000_0200 then 22 else if y == 0x0000_0400 then 21 else
    if y == 0x0000_0800 then 20 else if y == 0x0000_1000 then 19 else if y == 0x0000_2000 then 18 else
    if y == 0x0000_4000 then 17 else if y == 0x0000_8000 then 16 else
    272
  }

  function Exponent1(y: bv32): nat {
    if y == 0x0001_0000 then 15 else if y == 0x0002_0000 then 14 else if y == 0x0004_0000 then 13 else
    if y == 0x0008_0000 then 12 else if y == 0x0010_0000 then 11 else if y == 0x0020_0000 then 10 else
    if y == 0x0040_0000 then 9 else if y == 0x005C_A193 then 213 else if y == 0x0080_0000 then 8 else
    if y == 0x00B9_4326 then 212 else if y == 0x0100_0000 then 7 else if y == 0x0125_6527 then 223 else
    if y == 0x0172_864C then 211 else if y == 0x01B5_FD1D then 255 else if y == 0x01C2_6A37 then 55 else
    if y == 0x0200_0000 then 6 else if y == 0x02E5_0C98 then 210 else
    272
  }

  function Exponent2(y: bv32): nat {
    if y == 0x02F1_82A3 then 98 else if y == 0x0306_3B7F then 125 else if y == 0x036B_FA3A then 254 else
    if y == 0x0373_EFE2 then 136 else if y == 0x0384_D46E then 54 else if y == 0x03D6_029B then 75 else
    if y == 0x0400_0000 then 5 else if y == 0x044A_0EFA then 93 else if y == 0x04F5_D03D then 110 else
    if y == 0x05CA_1930 then 209 else if y == 0x05D4_6B83 then 174 else if y == 0x060C_76FE then 124 else
    if y == 0x069C_8FD7 then 114 else if y == 0x06C8_8D05 then 259 else if y == 0x06D7_F474 then 253 else
    if y == 0x0709_A8DC then 53 else if y == 0x076D_C419 then 37 else
    272
  }

  function Exponent3(y: bv32): nat {
    if y == 0x07A0_2563 then 158 else if y == 0x07A6_CB43 then 167 else if y == 0x07AC_0536 then 74 else
    if y == 0x0800_0000 then 4 else if y == 0x0816_EAF2 then 80 else if y == 0x089F_92C3 then 202 else
    if y == 0x08C5_3E9E then 146 else if y == 0x09A1_1D85 then 180 else if y == 0x09EB_A07A then 109 else
    if y == 0x0A7C_6563 then 149 else if y == 0x0B94_3260 then 208 else if y == 0x0BA8_D706 then 173 else
    if y == 0x0C18_EDFC then 123 else if y == 0x0DAF_E8E8 then 252 else if y == 0x0E13_51B8 then 52 else
    if y == 0x0EDB_8832 then 36 else if y == 0x0F58_0A6C then 73 else
    272
  }

  function Exponent4(y: bv32): nat {
    if y == 0x0F62_9757 then 61 else if y == 0x0FD5_B0B1 then 234 else if y == 0x1000_0000 then 3 else
    if y == 0x1066_265D then 230 else if y == 0x12F9_04BB then 197 else if y == 0x1342_3B0A then 179 else
    if y == 0x13D7_40F4 then 108 else if y == 0x154A_4B6F then 238 else if y == 0x1584_24A2 then 42 else
    if y == 0x1728_64C0 then 207 else if y == 0x173F_7B7D then 154 else if y == 0x1751_997D then 163 else
    if y == 0x1751_AE0C then 172 else if y == 0x177B_1443 then 103 else if y == 0x179F_1129 then 86 else
    if y == 0x17C8_25D8 then 194 else if y == 0x1831_DBF8 then 122 else
    272
  }

  function Exponent5(y: bv32): nat {
    if y == 0x18C1_F649 then 265 else if y == 0x191B_3141 then 47 else if y == 0x19AC_8F1B then 141 else
    if y == 0x1A11_D850 then 176 else if y == 0x1AFC_500B then 186 else if y == 0x1B14_583D then 57 else
    if y == 0x1B5F_D1D0 then 251 else if y == 0x1B73_EAD4 then 215 else if y == 0x1B91_4216 then 77 else
    if y == 0x1BA5_4C6F then 127 else if y == 0x1C26_A370 then 51 else if y == 0x1D0F_E176 then 143 else
    if y == 0x1DB7_1064 then 35 else if y == 0x1DDB_D6B2 then 188 else if y == 0x1E36_506B then 240 else
    if y == 0x1EB0_14D8 then 72 else if y == 0x1EBA_07A0 then 105 else
    272
  }

  function Exponent6(y: bv32): nat {
    if y == 0x1FDA_839E then 199 else if y == 0x2000_0000 then 2 else if y == 0x2032_AF3E then 58 else
    if y == 0x206A_2517 then 128 else if y == 0x22A3_AB15 then 241 else if y == 0x258B_900E then 231 else
    if y == 0x25F2_0976 then 196 else if y == 0x2677_0BB4 then 87 else if y == 0x2684_7614 then 178 else
    if y == 0x26DC_FAB5 then 217 else if y == 0x27AE_81E8 then 107 else if y == 0x2886_B191 then 150 else
    if y == 0x299D_C2ED then 89 else if y == 0x29F7_4A41 then 203 else if y == 0x2A09_C88B then 62 else
    if y == 0x2A52_5B78 then 235 else if y == 0x2A94_96DE then 237 else
    272
  }

  function Exponent7(y: bv32): nat {
    if y == 0x2C0B_93B7 then 228 else if y == 0x2CC0_4271 then 99 else if y == 0x2D2A_31B3 then 224 else
    if y == 0x2E50_C980 then 206 else if y == 0x2E68_9191 then 159 else if y == 0x2E6B_E681 then 168 else
    if y == 0x2E7E_F6FA then 153 else if y == 0x2EA3_32FA then 162 else if y == 0x2EA3_5C18 then 171 else
    if y == 0x2EDC_C5A2 then 260 else if y == 0x2EF6_2886 then 102 else if y == 0x2EF6_C4CB then 115 else
    if y == 0x302E_4EDC then 226 else if y == 0x3063_B7F0 then 121 else if y == 0x3070_4BC1 then 68 else
    if y == 0x30D9_7382 then 117 else if y == 0x3183_EC92 then 264 else
    272
  }

  function Exponent8(y: bv32): nat {
    if y == 0x31E6_B092 then 64 else if y == 0x3236_6282 then 46 else if y == 0x32B3_9DA3 then 192 else
    if y == 0x3359_1E36 then 140 else if y == 0x337E_4BF5 then 130 else if y == 0x33EF_4E67 then 84 else
    if y == 0x3407_A6DA then 131 else if y == 0x35F8_A016 then 185 else if y == 0x36BF_A3A0 then 250 else
    if y == 0x384D_46E0 then 50 else if y == 0x3876_1E01 then 268 else if y == 0x38BC_6765 then 63 else
    if y == 0x3943_2600 then 204 else if y == 0x39FB_DBE8 then 151 else if y == 0x3A8C_CBE8 then 160 else
    if y == 0x3A8D_7060 then 169 else if y == 0x3AC3_E145 then 116 else
    272
  }

  function Exponent9(y: bv32): nat {
    if y == 0x3B2D_9BF9 then 225 else if y == 0x3B6E_20C8 then 34 else if y == 0x3B83_984B then 40 else
    if y == 0x3BD8_A218 then 100 else if y == 0x3C60_E308 then 271 else if y == 0x3CE9_56AA then 242 else
    if y == 0x3D60_29B0 then 71 else if y == 0x3D8D_91AB then 129 else if y == 0x4000_0000 then 1 else
    if y == 0x40B9_6A96 then 133 else if y == 0x418E_DFC0 then 119 else if y == 0x41B9_F7F1 then 137 else
    if y == 0x41C1_2F04 then 66 else if y == 0x4225_077D then 94 else if y == 0x4282_D68A then 244 else
    if y == 0x440B_7579 then 81 else if y == 0x4462_9F4F then 147 else
    272
  }

  function ExponentA(y: bv32): nat {
    if y == 0x44DA_6723 then 233 else if y == 0x45B4_28EF then 60 else if y == 0x460F_B248 then 262 else
    if y == 0x48D9_8A08 then 44 else if y == 0x4A4E_23C7 then 201 else if y == 0x4AC2_1251 then 43 else
    if y == 0x4ACE_768C then 190 else if y == 0x4AFB_7B7D then 145 else if y == 0x4B5C_D3A5 then 79 else
    if y == 0x4BE4_12EC then 195 else if y == 0x4CAA_009E then 95 else if y == 0x4D08_EC28 then 177 else
    if y == 0x4D64_78D8 then 138 else if y == 0x4DB9_F56A then 216 else if y == 0x4DC8_A10B then 78 else
    if y == 0x4E87_F0BB then 144 else if y == 0x4EED_EB59 then 189 else
    272
  }

  function ExponentB(y: bv32): nat {
    if y == 0x4F5D_03D0 then 106 else if y == 0x4F89_CC87 then 148 else if y == 0x4FBD_399C then 82 else
    if y == 0x4FED_41CF then 200 else if y == 0x5019_579F then 59 else if y == 0x520D_3CBE then 220 else
    if y == 0x52C5_C807 then 232 else if y == 0x533B_85DA then 88 else if y == 0x53E5_1BB5 then 92 else
    if y == 0x5431_4C87 then 157 else if y == 0x543C_90C7 then 166 else if y == 0x5529_2DBC then 236 else
    if y == 0x5648_19EF then 113 else if y == 0x56E0_1C4B then 258 else if y == 0x576E_62D1 then 261 else
    if y == 0x57E2_8058 then 183 else if y == 0x5817_276E then 227 else
    272
  }

  function ExponentC(y: bv32): nat {
    if y == 0x586C_B9C1 then 118 else if y == 0x58F3_5849 then 65 else if y == 0x593B_CC0F then 222 else
    if y == 0x5A03_D36D then 132 else if y == 0x5AFE_8E80 then 248 else if y == 0x5CA1_9300 then 205 else
    if y == 0x5CFD_EDF4 then 152 else if y == 0x5D18_3682 then 246 else if y == 0x5D46_65F4 then 161 else
    if y == 0x5D46_B830 then 170 else if y == 0x5D96_D985 then 135 else if y == 0x5DEC_510C then 101 else
    if y == 0x5E74_AB55 then 243 else if y == 0x5E92_0307 then 97 else if y == 0x605C_B54B then 134 else
    if y == 0x60C6_AB25 then 187 else if y == 0x60C7_6FE0 then 120 else
    272
  }

  function ExponentD(y: bv32): nat {
    if y == 0x60E0_9782 then 67 else if y == 0x6135_1B80 then 48 else if y == 0x6141_6B45 then 245 else
    if y == 0x616E_C4AD then 142 else if y == 0x61D8_7804 then 266 else if y == 0x6307_D924 then 263 else
    if y == 0x646C_C504 then 45 else if y == 0x64C4_017D then 198 else if y == 0x6567_3B46 then 191 else
    if y == 0x6605_0901 then 104 else if y == 0x6610_4F9E then 164 else if y == 0x6627_3E9E then 155 else
    if y == 0x6655_004F then 96 else if y == 0x66B2_3C6C then 139 else if y == 0x671D_A697 then 239 else
    if y == 0x67DE_9CCE then 83 else if y == 0x6906_9E5F then 221 else
    272
  }

  function ExponentE(y: bv32): nat {
    if y == 0x6968_0DE2 then 181 else if y == 0x6BF1_402C then 184 else if y == 0x6C3B_9E9F then 126 else
    if y == 0x6C53_826D then 76 else if y == 0x6D59_B63B then 56 else if y == 0x6D62_7DAE then 256 else
    if y == 0x6D7F_4740 then 249 else if y == 0x6D96_D3E9 then 214 else if y == 0x6DB8_8320 then 32 else
    if y == 0x6E0E_612C then 38 else if y == 0x6E8C_1B41 then 247 else if y == 0x6F52_B6E1 then 175 else
    if y == 0x6FC2_6B3E then 111 else if y == 0x7079_4F05 then 41 else if y == 0x709A_8DC0 then 49 else
    if y == 0x70EC_3C02 then 267 else if y == 0x7183_8C20 then 269 else
    272
  }

  function ExponentF(y: bv32): nat {
    if y == 0x7308_27CF then 165 else if y == 0x7313_9F4F then 156 else if y == 0x744F_2413 then 85 else
    if y == 0x74B4_06F1 then 182 else if y == 0x74E1_4DF1 then 193 else if y == 0x7580_A6C0 then 69 else
    if y == 0x76B1_3ED7 then 257 else if y == 0x76DC_4190 then 33 else if y == 0x7707_3096 then 39 else
    if y == 0x77E1_359F then 112 else if y == 0x78C1_C610 then 270 else if y == 0x7976_6256 then 90 else
    if y == 0x7AC0_5360 then 70 else if y == 0x7BBD_4AFB then 229 else if y == 0x7CBB_312B then 91 else
    if y == 0x7ED6_FE7A then 218 else if y == 0x7F6B_7F3D then 219 else
    272
  }

  /** The exponent below 272 of the power with low bits `y`, or 272. */
  function ExponentOf(y: bv32): nat {
    if y < 0x31E6_B092 then
      if y < 0x0F62_9757 then
        if y < 0x02F1_82A3 then
          if y < 0x0001_0000 then Exponent0(y) else Exponent1(y)
        else
          if y < 0x07A0_2563 then Exponent2(y) else Exponent3(y)
      else
        if y < 0x1FDA_839E then
          if y < 0x18C1_F649 then Exponent4(y) else Exponent5(y)
        else
          if y < 0x2C0B_93B7 then Exponent6(y) else Exponent7(y)
    else
      if y < 0x586C_B9C1 then
        if y < 0x44DA_6723 then
          if y < 0x3B2D_9BF9 then Exponent8(y) else Exponent9(y)
        else
          if y < 0x4F5D_03D0 then ExponentA(y) else ExponentB(y)
      else
        if y < 0x6968_0DE2 then
          if y < 0x60E0_9782 then ExponentC(y) else ExponentD(y)
        else
          if y < 0x7308_27CF then ExponentE(y) else ExponentF(y)
  }

  /** The table is right for the power `x` with exponent `n` and the seven after it. */
  predicate EightFound(x: bv32, n: nat) {
    var a := BitStep(x);
    var b := BitStep(a);
    var c := BitStep(b);
    var d := BitStep(c);
    var e := BitStep(d);
    var f := BitStep(e);
    var g := BitStep(f);
    ExponentOf(Low31(x)) == n && ExponentOf(Low31(a)) == n + 1 &&
    ExponentOf(Low31(b)) == n + 2 && ExponentOf(Low31(c)) == n + 3 &&
    ExponentOf(Low31(d)) == n + 4 && ExponentOf(Low31(e)) == n + 5 &&
    ExponentOf(Low31(f)) == n + 6 && ExponentOf(Low31(g)) == n + 7
  }

  lemma FoundA0()
    ensures EightFound(ORBIT_A[0], 0)
  {
  }

  lemma FoundA1()
    ensures EightFound(ORBIT_A[1], 8)
  {
  }

  lemma FoundA2()
    ensures EightFound(ORBIT_A[2], 16)
  {
  }

  lemma FoundA3()
    ensures EightFound(ORBIT_A[3], 24)
  {
  }

  lemma FoundB0()
    ensures EightFound(ORBIT_B[0], 32)
  {
  }

  lemma FoundB1()
    ensures EightFound(ORBIT_B[1], 40)
  {
  }

  lemma FoundB2()
    ensures EightFound(ORBIT_B[2], 48)
  {
  }

  lemma FoundB3()
    ensures EightFound(ORBIT_B[3], 56)
  {
  }

  lemma FoundC0()
    ensures EightFound(ORBIT_C[0], 64)
  {
  }

  lemma FoundC1()
    ensures EightFound(ORBIT_C[1], 72)
  {
  }

  lemma FoundC2()
    ensures EightFound(ORBIT_C[2], 80)
  {
  }

  lemma FoundC3()
    ensures EightFound(ORBIT_C[3], 88)
  {
  }

  lemma FoundD0()
    ensures EightFound(ORBIT_D[0], 96)
  {
  }

  lemma FoundD1()
    ensures EightFound(ORBIT_D[1], 104)
  {
  }

  lemma FoundD2()
    ensures EightFound(ORBIT_D[2], 112)
  {
  }

  lemma FoundD3()
    ensures EightFound(ORBIT_D[3], 120)
  {
  }

  lemma FoundE0()
    ensures EightFound(ORBIT_E[0], 128)
  {
  }

  lemma FoundE1()
    ensures EightFound(ORBIT_E[1], 136)
  {
  }

  lemma FoundE2()
    ensures EightFound(ORBIT_E[2], 144)
  {
  }

  lemma FoundE3()
    ensures EightFound(ORBIT_E[3], 152)
  {
  }

  lemma FoundF0()
    ensures EightFound(ORBIT_F[0], 160)
  {
  }

  lemma FoundF1()
    ensures EightFound(ORBIT_F[1], 168)
  {
  }

  lemma FoundF2()
    ensures EightFound(ORBIT_F[2], 176)
  {
  }

  lemma FoundF3()
    ensures EightFound(ORBIT_F[3], 184)
  {
  }

  lemma FoundG0()
    ensures EightFound(ORBIT_G[0], 192)
  {
  }

  lemma FoundG1()
    ensures EightFound(ORBIT_G[1], 200)
  {
  }

  lemma FoundG2()
    ensures EightFound(ORBIT_G[2], 208)
  {
  }

  lemma FoundG3()
    ensures EightFound(ORBIT_G[3], 216)
  {
  }

  lemma FoundH0()
    ensures EightFound(ORBIT_H[0], 224)
  {
  }

  lemma FoundH1()
    ensures EightFound(ORBIT_H[1], 232)
  {
  }

  lemma FoundH2()
    ensures EightFound(ORBIT_H[2], 240)
  {
  }

  lemma FoundH3()
    ensures EightFound(ORBIT_H[3], 248)
  {
  }

  lemma FoundI0()
    ensures EightFound(ORBIT_I[0], 256)
  {
  }

  lemma FoundI1()
    ensures EightFound(ORBIT_I[1], 264)
  {
  }

  predicate TrailFound(k: seq<bv32>, n: nat) {
    forall i :: 0 <= i < |k| - 1 ==> EightFound(k[i], n + 8 * i)
  }

  lemma FoundA()
    ensures TrailFound(ORBIT_A, 0)
  {
    hide EightFound;
    forall i | 0 <= i < 4
      ensures EightFound(ORBIT_A[i], 0 + 8 * i)
    {
      if i == 0 {
        FoundA0();
      } else if i == 1 {
        FoundA1();
      } else if i == 2 {
        FoundA2();
      } else {
        FoundA3();
      }
    }
  }

  lemma FoundB()
    ensures TrailFound(ORBIT_B, 32)
  {
    hide EightFound;
    forall i | 0 <= i < 4
      ensures EightFound(ORBIT_B[i], 32 + 8 * i)
    {
      if i == 0 {
        FoundB0();
      } else if i == 1 {
        FoundB1();
      } else if i == 2 {
        FoundB2();
      } else {
        FoundB3();
      }
    }
  }

  lemma FoundC()
    ensures TrailFound(ORBIT_C, 64)
  {
    hide EightFound;
    forall i | 0 <= i < 4
      ensures EightFound(ORBIT_C[i], 64 + 8 * i)
    {
      if i == 0 {
        FoundC0();
      } else if i == 1 {
        FoundC1();
      } else if i == 2 {
        FoundC2();
      } else {
        FoundC3();
      }
    }
  }

  lemma FoundD()
    ensures TrailFound(ORBIT_D, 96)
  {
    hide EightFound;
    forall i | 0 <= i < 4
      ensures EightFound(ORBIT_D[i], 96 + 8 * i)
    {
      if i == 0 {
        FoundD0();
      } else if i == 1 {
        FoundD1();
      } else if i == 2 {
        FoundD2();
      } else {
        FoundD3();
      }
    }
  }

  lemma FoundE()
    ensures TrailFound(ORBIT_E, 128)
  {
    hide EightFound;
    forall i | 0 <= i < 4
      ensures EightFound(ORBIT_E[i], 128 + 8 * i)
    {
      if i == 0 {
        FoundE0();
      } else if i == 1 {
        FoundE1();
      } else if i == 2 {
        FoundE2();
      } else {
        FoundE3();
      }
    }
  }

  lemma FoundF()
    ensures TrailFound(ORBIT_F, 160)
  {
    hide EightFound;
    forall i | 0 <= i < 4
      ensures EightFound(ORBIT_F[i], 160 + 8 * i)
    {
      if i == 0 {
        FoundF0();
      } else if i == 1 {
        FoundF1();
      } else if i == 2 {
        FoundF2();
      } else {
        FoundF3();
      }
    }
  }

  lemma FoundG()
    ensures TrailFound(ORBIT_G, 192)
  {
    hide EightFound;
    forall i | 0 <= i < 4
      ensures EightFound(ORBIT_G[i], 192 + 8 * i)
    {
      if i == 0 {
        FoundG0();
      } else if i == 1 {
        FoundG1();
      } else if i == 2 {
        FoundG2();
      } else {
        FoundG3();
      }
    }
  }

  lemma FoundH()
    ensures TrailFound(ORBIT_H, 224)
  {
    hide EightFound;
    forall i | 0 <= i < 4
      ensures EightFound(ORBIT_H[i], 224 + 8 * i)
    {
      if i == 0 {
        FoundH0();
      } else if i == 1 {
        FoundH1();
      } else if i == 2 {
        FoundH2();
      } else {
        FoundH3();
      }
    }
  }

  lemma FoundI()
    ensures TrailFound(ORBIT_I, 256)
  {
    hide EightFound;
    forall i | 0 <= i < 2
      ensures EightFound(ORBIT_I[i], 256 + 8 * i)
    {
      if i == 0 {
        FoundI0();
      } else {
        FoundI1();
      }
    }
  }
}
