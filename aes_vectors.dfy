/** The worked example of FIPS-197: the cipher example of Appendix B and the key
    expansion of Appendix A.1, for the plaintext and key that AES.py:417-418 encrypts.
    The tables of the standard list each state as a 4x4 array; here every state is a
    `Matrix`, column by column, as encryptAES keeps it. The lemmas check the steps that
    involve no XOR: how the 16 bytes are laid out in the state and read back,
    SubBytes and ShiftRows in each of the ten rounds, and SubWord(RotWord(w)) in the
    key expansion. */
module AesKnownAnswer {
  import opened Bytes
  import opened Aes

  const Plaintext: seq<byte> := [0x32, 0x43, 0xf6, 0xa8, 0x88, 0x5a, 0x30, 0x8d, 0x31, 0x31, 0x98, 0xa2, 0xe0, 0x37, 0x07, 0x34]
  const CipherKey: seq<byte> := [0x2b, 0x7e, 0x15, 0x16, 0x28, 0xae, 0xd2, 0xa6, 0xab, 0xf7, 0x15, 0x88, 0x09, 0xcf, 0x4f, 0x3c]
  const Ciphertext: seq<byte> := [0x39, 0x25, 0x84, 0x1d, 0x02, 0xdc, 0x09, 0xfb, 0xdc, 0x11, 0x85, 0x97, 0x19, 0x6a, 0x0b, 0x32]

  /** Appendix B, "Input": the plaintext as a state. */
  const Input: Matrix := [[0x32, 0x43, 0xf6, 0xa8], [0x88, 0x5a, 0x30, 0x8d], [0x31, 0x31, 0x98, 0xa2], [0xe0, 0x37, 0x07, 0x34]]

  /** Appendix B, round key 0: the cipher key as a state. */
  const KeyState: Matrix := [[0x2b, 0x7e, 0x15, 0x16], [0x28, 0xae, 0xd2, 0xa6], [0xab, 0xf7, 0x15, 0x88], [0x09, 0xcf, 0x4f, 0x3c]]

  /** Appendix B, "Output": the state after the last AddRoundKey. */
  const Output: Matrix := [[0x39, 0x25, 0x84, 0x1d], [0x02, 0xdc, 0x09, 0xfb], [0xdc, 0x11, 0x85, 0x97], [0x19, 0x6a, 0x0b, 0x32]]

  /** Appendix B, "Start of Round" of rounds 1 to 10. */
  const Start1: Matrix := [[0x19, 0x3d, 0xe3, 0xbe], [0xa0, 0xf4, 0xe2, 0x2b], [0x9a, 0xc6, 0x8d, 0x2a], [0xe9, 0xf8, 0x48, 0x08]]
  const Start2: Matrix := [[0xa4, 0x9c, 0x7f, 0xf2], [0x68, 0x9f, 0x35, 0x2b], [0x6b, 0x5b, 0xea, 0x43], [0x02, 0x6a, 0x50, 0x49]]
  const Start3: Matrix := [[0xaa, 0x8f, 0x5f, 0x03], [0x61, 0xdd, 0xe3, 0xef], [0x82, 0xd2, 0x4a, 0xd2], [0x68, 0x32, 0x46, 0x9a]]
  const Start4: Matrix := [[0x48, 0x6c, 0x4e, 0xee], [0x67, 0x1d, 0x9d, 0x0d], [0x4d, 0xe3, 0xb1, 0x38], [0xd6, 0x5f, 0x58, 0xe7]]
  const Start5: Matrix := [[0xe0, 0x92, 0x7f, 0xe8], [0xc8, 0x63, 0x63, 0xc0], [0xd9, 0xb1, 0x35, 0x50], [0x85, 0xb8, 0xbe, 0x01]]
  const Start6: Matrix := [[0xf1, 0x00, 0x6f, 0x55], [0xc1, 0x92, 0x4c, 0xef], [0x7c, 0xc8, 0x8b, 0x32], [0x5d, 0xb5, 0xd5, 0x0c]]
  const Start7: Matrix := [[0x26, 0x0e, 0x2e, 0x17], [0x3d, 0x41, 0xb7, 0x7d], [0xe8, 0x64, 0x72, 0xa9], [0xfd, 0xd2, 0x8b, 0x25]]
  const Start8: Matrix := [[0x5a, 0x41, 0x42, 0xb1], [0x19, 0x49, 0xdc, 0x1f], [0xa3, 0xe0, 0x19, 0x65], [0x7a, 0x8c, 0x04, 0x0c]]
  const Start9: Matrix := [[0xea, 0x83, 0x5c, 0xf0], [0x04, 0x45, 0x33, 0x2d], [0x65, 0x5d, 0x98, 0xad], [0x85, 0x96, 0xb0, 0xc5]]
  const Start10: Matrix := [[0xeb, 0x40, 0xf2, 0x1e], [0x59, 0x2e, 0x38, 0x84], [0x8b, 0xa1, 0x13, 0xe7], [0x1b, 0xc3, 0x42, 0xd2]]

  /** Appendix B, "After SubBytes" of rounds 1 to 10. */
  const Sub1: Matrix := [[0xd4, 0x27, 0x11, 0xae], [0xe0, 0xbf, 0x98, 0xf1], [0xb8, 0xb4, 0x5d, 0xe5], [0x1e, 0x41, 0x52, 0x30]]
  const Sub2: Matrix := [[0x49, 0xde, 0xd2, 0x89], [0x45, 0xdb, 0x96, 0xf1], [0x7f, 0x39, 0x87, 0x1a], [0x77, 0x02, 0x53, 0x3b]]
  const Sub3: Matrix := [[0xac, 0x73, 0xcf, 0x7b], [0xef, 0xc1, 0x11, 0xdf], [0x13, 0xb5, 0xd6, 0xb5], [0x45, 0x23, 0x5a, 0xb8]]
  const Sub4: Matrix := [[0x52, 0x50, 0x2f, 0x28], [0x85, 0xa4, 0x5e, 0xd7], [0xe3, 0x11, 0xc8, 0x07], [0xf6, 0xcf, 0x6a, 0x94]]
  const Sub5: Matrix := [[0xe1, 0x4f, 0xd2, 0x9b], [0xe8, 0xfb, 0xfb, 0xba], [0x35, 0xc8, 0x96, 0x53], [0x97, 0x6c, 0xae, 0x7c]]
  const Sub6: Matrix := [[0xa1, 0x63, 0xa8, 0xfc], [0x78, 0x4f, 0x29, 0xdf], [0x10, 0xe8, 0x3d, 0x23], [0x4c, 0xd5, 0x03, 0xfe]]
  const Sub7: Matrix := [[0xf7, 0xab, 0x31, 0xf0], [0x27, 0x83, 0xa9, 0xff], [0x9b, 0x43, 0x40, 0xd3], [0x54, 0xb5, 0x3d, 0x3f]]
  const Sub8: Matrix := [[0xbe, 0x83, 0x2c, 0xc8], [0xd4, 0x3b, 0x86, 0xc0], [0x0a, 0xe1, 0xd4, 0x4d], [0xda, 0x64, 0xf2, 0xfe]]
  const Sub9: Matrix := [[0x87, 0xec, 0x4a, 0x8c], [0xf2, 0x6e, 0xc3, 0xd8], [0x4d, 0x4c, 0x46, 0x95], [0x97, 0x90, 0xe7, 0xa6]]
  const Sub10: Matrix := [[0xe9, 0x09, 0x89, 0x72], [0xcb, 0x31, 0x07, 0x5f], [0x3d, 0x32, 0x7d, 0x94], [0xaf, 0x2e, 0x2c, 0xb5]]

  /** Appendix B, "After ShiftRows" of rounds 1 to 10. */
  const Shift1: Matrix := [[0xd4, 0xbf, 0x5d, 0x30], [0xe0, 0xb4, 0x52, 0xae], [0xb8, 0x41, 0x11, 0xf1], [0x1e, 0x27, 0x98, 0xe5]]
  const Shift2: Matrix := [[0x49, 0xdb, 0x87, 0x3b], [0x45, 0x39, 0x53, 0x89], [0x7f, 0x02, 0xd2, 0xf1], [0x77, 0xde, 0x96, 0x1a]]
  const Shift3: Matrix := [[0xac, 0xc1, 0xd6, 0xb8], [0xef, 0xb5, 0x5a, 0x7b], [0x13, 0x23, 0xcf, 0xdf], [0x45, 0x73, 0x11, 0xb5]]
  const Shift4: Matrix := [[0x52, 0xa4, 0xc8, 0x94], [0x85, 0x11, 0x6a, 0x28], [0xe3, 0xcf, 0x2f, 0xd7], [0xf6, 0x50, 0x5e, 0x07]]
  const Shift5: Matrix := [[0xe1, 0xfb, 0x96, 0x7c], [0xe8, 0xc8, 0xae, 0x9b], [0x35, 0x6c, 0xd2, 0xba], [0x97, 0x4f, 0xfb, 0x53]]
  const Shift6: Matrix := [[0xa1, 0x4f, 0x3d, 0xfe], [0x78, 0xe8, 0x03, 0xfc], [0x10, 0xd5, 0xa8, 0xdf], [0x4c, 0x63, 0x29, 0x23]]
  const Shift7: Matrix := [[0xf7, 0x83, 0x40, 0x3f], [0x27, 0x43, 0x3d, 0xf0], [0x9b, 0xb5, 0x31, 0xff], [0x54, 0xab, 0xa9, 0xd3]]
  const Shift8: Matrix := [[0xbe, 0x3b, 0xd4, 0xfe], [0xd4, 0xe1, 0xf2, 0xc8], [0x0a, 0x64, 0x2c, 0xc0], [0xda, 0x83, 0x86, 0x4d]]
  const Shift9: Matrix := [[0x87, 0x6e, 0x46, 0xa6], [0xf2, 0x4c, 0xe7, 0x8c], [0x4d, 0x90, 0x4a, 0xd8], [0x97, 0xec, 0xc3, 0x95]]
  const Shift10: Matrix := [[0xe9, 0x31, 0x7d, 0xb5], [0xcb, 0x32, 0x2c, 0x72], [0x3d, 0x2e, 0x89, 0x5f], [0xaf, 0x09, 0x07, 0x94]]

  /** Appendix B, "Start of Round" of the given round. */
  function StartOfRound(round: nat): Matrix
    requires 1 <= round <= N_ROUNDS
  {
    match round
      case 1 => Start1
      case 2 => Start2
      case 3 => Start3
      case 4 => Start4
      case 5 => Start5
      case 6 => Start6
      case 7 => Start7
      case 8 => Start8
      case 9 => Start9
      case _ => Start10
  }

  /** Appendix B, "After SubBytes" of the given round. */
  function AfterSubBytes(round: nat): Matrix
    requires 1 <= round <= N_ROUNDS
  {
    match round
      case 1 => Sub1
      case 2 => Sub2
      case 3 => Sub3
      case 4 => Sub4
      case 5 => Sub5
      case 6 => Sub6
      case 7 => Sub7
      case 8 => Sub8
      case 9 => Sub9
      case _ => Sub10
  }

  /** Appendix B, "After ShiftRows" of the given round. */
  function AfterShiftRows(round: nat): Matrix
    requires 1 <= round <= N_ROUNDS
  {
    match round
      case 1 => Shift1
      case 2 => Shift2
      case 3 => Shift3
      case 4 => Shift4
      case 5 => Shift5
      case 6 => Shift6
      case 7 => Shift7
      case 8 => Shift8
      case 9 => Shift9
      case _ => Shift10
  }

  /** Appendix A.1: temp = w[i-1] for i = 4, 8, ..., 40, the last column of the
      previous round key. */
  const Temp: seq<seq<byte>> := [
    [0x09, 0xcf, 0x4f, 0x3c],
    [0x2a, 0x6c, 0x76, 0x05],
    [0x73, 0x59, 0xf6, 0x7f],
    [0x6d, 0x7a, 0x88, 0x3b],
    [0xdb, 0x0b, 0xad, 0x00],
    [0x11, 0xf9, 0x15, 0xbc],
    [0xca, 0x00, 0x93, 0xfd],
    [0x4e, 0xa6, 0xdc, 0x4f],
    [0x7f, 0x8d, 0x29, 0x2f],
    [0x57, 0x5c, 0x00, 0x6e]
  ]

  /** Appendix A.1, "After SubWord": SubWord(RotWord(temp)) for the same i. */
  const AfterSubWord: seq<seq<byte>> := [
    [0x8a, 0x84, 0xeb, 0x01],
    [0x50, 0x38, 0x6b, 0xe5],
    [0xcb, 0x42, 0xd2, 0x8f],
    [0xda, 0xc4, 0xe2, 0x3c],
    [0x2b, 0x95, 0x63, 0xb9],
    [0x99, 0x59, 0x65, 0x82],
    [0x63, 0xdc, 0x54, 0x74],
    [0x24, 0x86, 0x84, 0x2f],
    [0x5d, 0xa5, 0x15, 0xd2],
    [0x4a, 0x63, 0x9f, 0x5b]
  ]

  /** Two four-byte words with the same bytes are equal. */
  lemma SameWord(u: seq<byte>, v: seq<byte>)
    requires |u| == 4 && |v| == 4
    requires u[0] == v[0] && u[1] == v[1] && u[2] == v[2] && u[3] == v[3]
    ensures u == v
  {
  }

  /** The plaintext fills the state column by column (FIPS-197 section 3.4). */
  lemma AppendixBInput()
    ensures ListToMatrix(Plaintext, false) == Input
  {
    assert ListToMatrix(Plaintext, false)[0] == Input[0];
    assert ListToMatrix(Plaintext, false)[1] == Input[1];
    assert ListToMatrix(Plaintext, false)[2] == Input[2];
    assert ListToMatrix(Plaintext, false)[3] == Input[3];
    MatrixExt(ListToMatrix(Plaintext, false), Input);
  }

  /** The cipher key fills the first round key column by column. */
  lemma AppendixBKey()
    ensures ListToMatrix(CipherKey, false) == KeyState
  {
    assert ListToMatrix(CipherKey, false)[0] == KeyState[0];
    assert ListToMatrix(CipherKey, false)[1] == KeyState[1];
    assert ListToMatrix(CipherKey, false)[2] == KeyState[2];
    assert ListToMatrix(CipherKey, false)[3] == KeyState[3];
    MatrixExt(ListToMatrix(CipherKey, false), KeyState);
  }

  /** The output state is read back column by column as the ciphertext. */
  lemma AppendixBOutput()
    ensures MatrixToList(Output, false) == Ciphertext
  {
  }

  // One lemma per round and step of Appendix B, each checked column by column.

  lemma SubBytesRound1()
    ensures Substituted(Start1) == Sub1
  {
    assert Substituted(Start1)[0] == Sub1[0];
    assert Substituted(Start1)[1] == Sub1[1];
    assert Substituted(Start1)[2] == Sub1[2];
    assert Substituted(Start1)[3] == Sub1[3];
    MatrixExt(Substituted(Start1), Sub1);
  }

  lemma ShiftRowsRound1()
    ensures Shifted(Sub1) == Shift1
  {
    assert Shifted(Sub1)[0] == Shift1[0];
    assert Shifted(Sub1)[1] == Shift1[1];
    assert Shifted(Sub1)[2] == Shift1[2];
    assert Shifted(Sub1)[3] == Shift1[3];
    MatrixExt(Shifted(Sub1), Shift1);
  }

  lemma SubBytesRound2()
    ensures Substituted(Start2) == Sub2
  {
    assert Substituted(Start2)[0] == Sub2[0];
    assert Substituted(Start2)[1] == Sub2[1];
    assert Substituted(Start2)[2] == Sub2[2];
    assert Substituted(Start2)[3] == Sub2[3];
    MatrixExt(Substituted(Start2), Sub2);
  }

  lemma ShiftRowsRound2()
    ensures Shifted(Sub2) == Shift2
  {
    assert Shifted(Sub2)[0] == Shift2[0];
    assert Shifted(Sub2)[1] == Shift2[1];
    assert Shifted(Sub2)[2] == Shift2[2];
    assert Shifted(Sub2)[3] == Shift2[3];
    MatrixExt(Shifted(Sub2), Shift2);
  }

  lemma SubBytesRound3()
    ensures Substituted(Start3) == Sub3
  {
    assert Substituted(Start3)[0] == Sub3[0];
    assert Substituted(Start3)[1] == Sub3[1];
    assert Substituted(Start3)[2] == Sub3[2];
    assert Substituted(Start3)[3] == Sub3[3];
    MatrixExt(Substituted(Start3), Sub3);
  }

  lemma ShiftRowsRound3()
    ensures Shifted(Sub3) == Shift3
  {
    assert Shifted(Sub3)[0] == Shift3[0];
    assert Shifted(Sub3)[1] == Shift3[1];
    assert Shifted(Sub3)[2] == Shift3[2];
    assert Shifted(Sub3)[3] == Shift3[3];
    MatrixExt(Shifted(Sub3), Shift3);
  }

  lemma SubBytesRound4()
    ensures Substituted(Start4) == Sub4
  {
    assert Substituted(Start4)[0] == Sub4[0];
    assert Substituted(Start4)[1] == Sub4[1];
    assert Substituted(Start4)[2] == Sub4[2];
    assert Substituted(Start4)[3] == Sub4[3];
    MatrixExt(Substituted(Start4), Sub4);
  }

  lemma ShiftRowsRound4()
    ensures Shifted(Sub4) == Shift4
  {
    assert Shifted(Sub4)[0] == Shift4[0];
    assert Shifted(Sub4)[1] == Shift4[1];
    assert Shifted(Sub4)[2] == Shift4[2];
    assert Shifted(Sub4)[3] == Shift4[3];
    MatrixExt(Shifted(Sub4), Shift4);
  }

  lemma SubBytesRound5()
    ensures Substituted(Start5) == Sub5
  {
    assert Substituted(Start5)[0] == Sub5[0];
    assert Substituted(Start5)[1] == Sub5[1];
    assert Substituted(Start5)[2] == Sub5[2];
    assert Substituted(Start5)[3] == Sub5[3];
    MatrixExt(Substituted(Start5), Sub5);
  }

  lemma ShiftRowsRound5()
    ensures Shifted(Sub5) == Shift5
  {
    assert Shifted(Sub5)[0] == Shift5[0];
    assert Shifted(Sub5)[1] == Shift5[1];
    assert Shifted(Sub5)[2] == Shift5[2];
    assert Shifted(Sub5)[3] == Shift5[3];
    MatrixExt(Shifted(Sub5), Shift5);
  }

  lemma SubBytesRound6()
    ensures Substituted(Start6) == Sub6
  {
    assert Substituted(Start6)[0] == Sub6[0];
    assert Substituted(Start6)[1] == Sub6[1];
    assert Substituted(Start6)[2] == Sub6[2];
    assert Substituted(Start6)[3] == Sub6[3];
    MatrixExt(Substituted(Start6), Sub6);
  }

  lemma ShiftRowsRound6()
    ensures Shifted(Sub6) == Shift6
  {
    assert Shifted(Sub6)[0] == Shift6[0];
    assert Shifted(Sub6)[1] == Shift6[1];
    assert Shifted(Sub6)[2] == Shift6[2];
    assert Shifted(Sub6)[3] == Shift6[3];
    MatrixExt(Shifted(Sub6), Shift6);
  }

  lemma SubBytesRound7()
    ensures Substituted(Start7) == Sub7
  {
    assert Substituted(Start7)[0] == Sub7[0];
    assert Substituted(Start7)[1] == Sub7[1];
    assert Substituted(Start7)[2] == Sub7[2];
    assert Substituted(Start7)[3] == Sub7[3];
    MatrixExt(Substituted(Start7), Sub7);
  }

  lemma ShiftRowsRound7()
    ensures Shifted(Sub7) == Shift7
  {
    assert Shifted(Sub7)[0] == Shift7[0];
    assert Shifted(Sub7)[1] == Shift7[1];
    assert Shifted(Sub7)[2] == Shift7[2];
    assert Shifted(Sub7)[3] == Shift7[3];
    MatrixExt(Shifted(Sub7), Shift7);
  }

  lemma SubBytesRound8()
    ensures Substituted(Start8) == Sub8
  {
    assert Substituted(Start8)[0] == Sub8[0];
    assert Substituted(Start8)[1] == Sub8[1];
    assert Substituted(Start8)[2] == Sub8[2];
    assert Substituted(Start8)[3] == Sub8[3];
    MatrixExt(Substituted(Start8), Sub8);
  }

  lemma ShiftRowsRound8()
    ensures Shifted(Sub8) == Shift8
  {
    assert Shifted(Sub8)[0] == Shift8[0];
    assert Shifted(Sub8)[1] == Shift8[1];
    assert Shifted(Sub8)[2] == Shift8[2];
    assert Shifted(Sub8)[3] == Shift8[3];
    MatrixExt(Shifted(Sub8), Shift8);
  }

  lemma SubBytesRound9()
    ensures Substituted(Start9) == Sub9
  {
    assert Substituted(Start9)[0] == Sub9[0];
    assert Substituted(Start9)[1] == Sub9[1];
    assert Substituted(Start9)[2] == Sub9[2];
    assert Substituted(Start9)[3] == Sub9[3];
    MatrixExt(Substituted(Start9), Sub9);
  }

  lemma ShiftRowsRound9()
    ensures Shifted(Sub9) == Shift9
  {
    assert Shifted(Sub9)[0] == Shift9[0];
    assert Shifted(Sub9)[1] == Shift9[1];
    assert Shifted(Sub9)[2] == Shift9[2];
    assert Shifted(Sub9)[3] == Shift9[3];
    MatrixExt(Shifted(Sub9), Shift9);
  }

  lemma SubBytesRound10()
    ensures Substituted(Start10) == Sub10
  {
    assert Substituted(Start10)[0] == Sub10[0];
    assert Substituted(Start10)[1] == Sub10[1];
    assert Substituted(Start10)[2] == Sub10[2];
    assert Substituted(Start10)[3] == Sub10[3];
    MatrixExt(Substituted(Start10), Sub10);
  }

  lemma ShiftRowsRound10()
    ensures Shifted(Sub10) == Shift10
  {
    assert Shifted(Sub10)[0] == Shift10[0];
    assert Shifted(Sub10)[1] == Shift10[1];
    assert Shifted(Sub10)[2] == Shift10[2];
    assert Shifted(Sub10)[3] == Shift10[3];
    MatrixExt(Shifted(Sub10), Shift10);
  }

  /** In every round of Appendix B, subByte and shiftRows turn the state at the start
      of the round into the states the standard lists after SubBytes and after
      ShiftRows. */
  lemma AppendixBSubBytesShiftRows()
    ensures forall round | 1 <= round <= N_ROUNDS ::
      Substituted(StartOfRound(round)) == AfterSubBytes(round) && Shifted(AfterSubBytes(round)) == AfterShiftRows(round)
  {
    SubBytesRound1();
    ShiftRowsRound1();
    SubBytesRound2();
    ShiftRowsRound2();
    SubBytesRound3();
    ShiftRowsRound3();
    SubBytesRound4();
    ShiftRowsRound4();
    SubBytesRound5();
    ShiftRowsRound5();
    SubBytesRound6();
    ShiftRowsRound6();
    SubBytesRound7();
    ShiftRowsRound7();
    SubBytesRound8();
    ShiftRowsRound8();
    SubBytesRound9();
    ShiftRowsRound9();
    SubBytesRound10();
    ShiftRowsRound10();
  }

  // One lemma per word temp of Appendix A.1, for i = 4, 8, ..., 40.

  lemma SubWordRound1()
    ensures RotWord(Temp[0]) == AfterSubWord[0]
  {
    SameWord(RotWord(Temp[0]), AfterSubWord[0]);
  }

  lemma SubWordRound2()
    ensures RotWord(Temp[1]) == AfterSubWord[1]
  {
    SameWord(RotWord(Temp[1]), AfterSubWord[1]);
  }

  lemma SubWordRound3()
    ensures RotWord(Temp[2]) == AfterSubWord[2]
  {
    SameWord(RotWord(Temp[2]), AfterSubWord[2]);
  }

  lemma SubWordRound4()
    ensures RotWord(Temp[3]) == AfterSubWord[3]
  {
    SameWord(RotWord(Temp[3]), AfterSubWord[3]);
  }

  lemma SubWordRound5()
    ensures RotWord(Temp[4]) == AfterSubWord[4]
  {
    SameWord(RotWord(Temp[4]), AfterSubWord[4]);
  }

  lemma SubWordRound6()
    ensures RotWord(Temp[5]) == AfterSubWord[5]
  {
    SameWord(RotWord(Temp[5]), AfterSubWord[5]);
  }

  lemma SubWordRound7()
    ensures RotWord(Temp[6]) == AfterSubWord[6]
  {
    SameWord(RotWord(Temp[6]), AfterSubWord[6]);
  }

  lemma SubWordRound8()
    ensures RotWord(Temp[7]) == AfterSubWord[7]
  {
    SameWord(RotWord(Temp[7]), AfterSubWord[7]);
  }

  lemma SubWordRound9()
    ensures RotWord(Temp[8]) == AfterSubWord[8]
  {
    SameWord(RotWord(Temp[8]), AfterSubWord[8]);
  }

  lemma SubWordRound10()
    ensures RotWord(Temp[9]) == AfterSubWord[9]
  {
    SameWord(RotWord(Temp[9]), AfterSubWord[9]);
  }

  /** rotWord turns the last column of each round key of Appendix A.1 into the word
      the standard lists after SubWord(RotWord(temp)). */
  lemma AppendixASubWord()
    ensures forall i | 0 <= i < N_ROUNDS :: RotWord(Temp[i]) == AfterSubWord[i]
  {
    SubWordRound1();
    SubWordRound2();
    SubWordRound3();
    SubWordRound4();
    SubWordRound5();
    SubWordRound6();
    SubWordRound7();
    SubWordRound8();
    SubWordRound9();
    SubWordRound10();
  }
}
