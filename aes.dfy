/** The AES-128 forward cipher of AES.py:1-261 (FIPS-197 section 5.1, with the key
    expansion of section 5.2). The state is a column-major 4x4 matrix: a list of
    four columns of four bytes. The transforms the Python code applies in place
    (`addRoundKey`, `subByte`) are methods on an `array2`; the ones that build a
    new matrix (`shiftRows`, `mixColumns`) return a fresh `array2`. Each method is
    specified by a function on matrix values, and `Cipher` composes those functions. */
module Aes {
  import opened Bytes

  /** Number of rounds for a 128-bit key. */
  const N_ROUNDS: nat := 10

  /** The substitution box S_BOX of AES.py:8-25 (FIPS-197 section 5.1.1, Figure 7),
      laid out as its 16 rows: the high nibble of b picks the row, the low nibble the
      entry. */
  function SBox(b: byte): byte
  {
    var hi, lo := b / 16, b % 16;
    match hi
      case 0x0 =>
        match lo {
        case 0x0 => 0x63 case 0x1 => 0x7C case 0x2 => 0x77 case 0x3 => 0x7B case 0x4 => 0xF2 case 0x5 => 0x6B case 0x6 => 0x6F case 0x7 => 0xC5
        case 0x8 => 0x30 case 0x9 => 0x01 case 0xA => 0x67 case 0xB => 0x2B case 0xC => 0xFE case 0xD => 0xD7 case 0xE => 0xAB case 0xF => 0x76
        case _ => 0
        }
      case 0x1 =>
        match lo {
        case 0x0 => 0xCA case 0x1 => 0x82 case 0x2 => 0xC9 case 0x3 => 0x7D case 0x4 => 0xFA case 0x5 => 0x59 case 0x6 => 0x47 case 0x7 => 0xF0
        case 0x8 => 0xAD case 0x9 => 0xD4 case 0xA => 0xA2 case 0xB => 0xAF case 0xC => 0x9C case 0xD => 0xA4 case 0xE => 0x72 case 0xF => 0xC0
        case _ => 0
        }
      case 0x2 =>
        match lo {
        case 0x0 => 0xB7 case 0x1 => 0xFD case 0x2 => 0x93 case 0x3 => 0x26 case 0x4 => 0x36 case 0x5 => 0x3F case 0x6 => 0xF7 case 0x7 => 0xCC
        case 0x8 => 0x34 case 0x9 => 0xA5 case 0xA => 0xE5 case 0xB => 0xF1 case 0xC => 0x71 case 0xD => 0xD8 case 0xE => 0x31 case 0xF => 0x15
        case _ => 0
        }
      case 0x3 =>
        match lo {
        case 0x0 => 0x04 case 0x1 => 0xC7 case 0x2 => 0x23 case 0x3 => 0xC3 case 0x4 => 0x18 case 0x5 => 0x96 case 0x6 => 0x05 case 0x7 => 0x9A
        case 0x8 => 0x07 case 0x9 => 0x12 case 0xA => 0x80 case 0xB => 0xE2 case 0xC => 0xEB case 0xD => 0x27 case 0xE => 0xB2 case 0xF => 0x75
        case _ => 0
        }
      case 0x4 =>
        match lo {
        case 0x0 => 0x09 case 0x1 => 0x83 case 0x2 => 0x2C case 0x3 => 0x1A case 0x4 => 0x1B case 0x5 => 0x6E case 0x6 => 0x5A case 0x7 => 0xA0
        case 0x8 => 0x52 case 0x9 => 0x3B case 0xA => 0xD6 case 0xB => 0xB3 case 0xC => 0x29 case 0xD => 0xE3 case 0xE => 0x2F case 0xF => 0x84
        case _ => 0
        }
      case 0x5 =>
        match lo {
        case 0x0 => 0x53 case 0x1 => 0xD1 case 0x2 => 0x00 case 0x3 => 0xED case 0x4 => 0x20 case 0x5 => 0xFC case 0x6 => 0xB1 case 0x7 => 0x5B
        case 0x8 => 0x6A case 0x9 => 0xCB case 0xA => 0xBE case 0xB => 0x39 case 0xC => 0x4A case 0xD => 0x4C case 0xE => 0x58 case 0xF => 0xCF
        case _ => 0
        }
      case 0x6 =>
        match lo {
        case 0x0 => 0xD0 case 0x1 => 0xEF case 0x2 => 0xAA case 0x3 => 0xFB case 0x4 => 0x43 case 0x5 => 0x4D case 0x6 => 0x33 case 0x7 => 0x85
        case 0x8 => 0x45 case 0x9 => 0xF9 case 0xA => 0x02 case 0xB => 0x7F case 0xC => 0x50 case 0xD => 0x3C case 0xE => 0x9F case 0xF => 0xA8
        case _ => 0
        }
      case 0x7 =>
        match lo {
        case 0x0 => 0x51 case 0x1 => 0xA3 case 0x2 => 0x40 case 0x3 => 0x8F case 0x4 => 0x92 case 0x5 => 0x9D case 0x6 => 0x38 case 0x7 => 0xF5
        case 0x8 => 0xBC case 0x9 => 0xB6 case 0xA => 0xDA case 0xB => 0x21 case 0xC => 0x10 case 0xD => 0xFF case 0xE => 0xF3 case 0xF => 0xD2
        case _ => 0
        }
      case 0x8 =>
        match lo {
        case 0x0 => 0xCD case 0x1 => 0x0C case 0x2 => 0x13 case 0x3 => 0xEC case 0x4 => 0x5F case 0x5 => 0x97 case 0x6 => 0x44 case 0x7 => 0x17
        case 0x8 => 0xC4 case 0x9 => 0xA7 case 0xA => 0x7E case 0xB => 0x3D case 0xC => 0x64 case 0xD => 0x5D case 0xE => 0x19 case 0xF => 0x73
        case _ => 0
        }
      case 0x9 =>
        match lo {
        case 0x0 => 0x60 case 0x1 => 0x81 case 0x2 => 0x4F case 0x3 => 0xDC case 0x4 => 0x22 case 0x5 => 0x2A case 0x6 => 0x90 case 0x7 => 0x88
        case 0x8 => 0x46 case 0x9 => 0xEE case 0xA => 0xB8 case 0xB => 0x14 case 0xC => 0xDE case 0xD => 0x5E case 0xE => 0x0B case 0xF => 0xDB
        case _ => 0
        }
      case 0xA =>
        match lo {
        case 0x0 => 0xE0 case 0x1 => 0x32 case 0x2 => 0x3A case 0x3 => 0x0A case 0x4 => 0x49 case 0x5 => 0x06 case 0x6 => 0x24 case 0x7 => 0x5C
        case 0x8 => 0xC2 case 0x9 => 0xD3 case 0xA => 0xAC case 0xB => 0x62 case 0xC => 0x91 case 0xD => 0x95 case 0xE => 0xE4 case 0xF => 0x79
        case _ => 0
        }
      case 0xB =>
        match lo {
        case 0x0 => 0xE7 case 0x1 => 0xC8 case 0x2 => 0x37 case 0x3 => 0x6D case 0x4 => 0x8D case 0x5 => 0xD5 case 0x6 => 0x4E case 0x7 => 0xA9
        case 0x8 => 0x6C case 0x9 => 0x56 case 0xA => 0xF4 case 0xB => 0xEA case 0xC => 0x65 case 0xD => 0x7A case 0xE => 0xAE case 0xF => 0x08
        case _ => 0
        }
      case 0xC =>
        match lo {
        case 0x0 => 0xBA case 0x1 => 0x78 case 0x2 => 0x25 case 0x3 => 0x2E case 0x4 => 0x1C case 0x5 => 0xA6 case 0x6 => 0xB4 case 0x7 => 0xC6
        case 0x8 => 0xE8 case 0x9 => 0xDD case 0xA => 0x74 case 0xB => 0x1F case 0xC => 0x4B case 0xD => 0xBD case 0xE => 0x8B case 0xF => 0x8A
        case _ => 0
        }
      case 0xD =>
        match lo {
        case 0x0 => 0x70 case 0x1 => 0x3E case 0x2 => 0xB5 case 0x3 => 0x66 case 0x4 => 0x48 case 0x5 => 0x03 case 0x6 => 0xF6 case 0x7 => 0x0E
        case 0x8 => 0x61 case 0x9 => 0x35 case 0xA => 0x57 case 0xB => 0xB9 case 0xC => 0x86 case 0xD => 0xC1 case 0xE => 0x1D case 0xF => 0x9E
        case _ => 0
        }
      case 0xE =>
        match lo {
        case 0x0 => 0xE1 case 0x1 => 0xF8 case 0x2 => 0x98 case 0x3 => 0x11 case 0x4 => 0x69 case 0x5 => 0xD9 case 0x6 => 0x8E case 0x7 => 0x94
        case 0x8 => 0x9B case 0x9 => 0x1E case 0xA => 0x87 case 0xB => 0xE9 case 0xC => 0xCE case 0xD => 0x55 case 0xE => 0x28 case 0xF => 0xDF
        case _ => 0
        }
      case 0xF =>
        match lo {
        case 0x0 => 0x8C case 0x1 => 0xA1 case 0x2 => 0x89 case 0x3 => 0x0D case 0x4 => 0xBF case 0x5 => 0xE6 case 0x6 => 0x42 case 0x7 => 0x68
        case 0x8 => 0x41 case 0x9 => 0x99 case 0xA => 0x2D case 0xB => 0x0F case 0xC => 0xB0 case 0xD => 0x54 case 0xE => 0xBB case 0xF => 0x16
        case _ => 0
        }
      case _ => 0
  }

  /** The round constants: word i is [x^i, 0, 0, 0] in GF(2^8). */
  const Rcon: seq<seq<byte>> := [
    [0x01, 0x00, 0x00, 0x00], [0x02, 0x00, 0x00, 0x00],
    [0x04, 0x00, 0x00, 0x00], [0x08, 0x00, 0x00, 0x00],
    [0x10, 0x00, 0x00, 0x00], [0x20, 0x00, 0x00, 0x00],
    [0x40, 0x00, 0x00, 0x00], [0x80, 0x00, 0x00, 0x00],
    [0x1B, 0x00, 0x00, 0x00], [0x36, 0x00, 0x00, 0x00]
  ]

  /** The coefficients galoisMul is called with. */
  type Coefficient = b: int | 1 <= b <= 3 witness 1

  /** A 4x4 table of coefficients. */
  type CoefficientTable = m: seq<seq<Coefficient>> | |m| == 4 && forall j | 0 <= j < 4 :: |m[j]| == 4
    witness [[1, 1, 1, 1], [1, 1, 1, 1], [1, 1, 1, 1], [1, 1, 1, 1]]

  /** The fixed MixColumns matrix over GF(2^8); row j holds the coefficients of output byte j. */
  const GfMatrix: CoefficientTable := [
    [2, 3, 1, 1],
    [1, 2, 3, 1],
    [1, 1, 2, 3],
    [3, 1, 1, 2]
  ]

  /** A state or a round key: four columns of four bytes. */
  type Matrix = m: seq<seq<byte>> | |m| == 4 && forall c | 0 <= c < 4 :: |m[c]| == 4
    witness [[0, 0, 0, 0], [0, 0, 0, 0], [0, 0, 0, 0], [0, 0, 0, 0]]

  // ---------------------------------------------------------------------------
  // Arithmetic in GF(2^8)

  /** Multiplication by x modulo x^8 + x^4 + x^3 + x + 1 (FIPS-197 section 4.2.1). */
  function XTime(a: byte): byte
  {
    Xor((2 * a) % 256, if a >= 128 then 0x1B else 0)
  }

  /** The full product in GF(2^8), by shift-and-add over the bits of b (FIPS-197 section 4.2). */
  function GfMul(a: byte, b: byte): byte
    decreases b
  {
    if b == 0 then 0
    else Xor(if b % 2 == 1 then a else 0, GfMul(XTime(a), b / 2))
  }

  /** galoisMul: multiplication by the coefficients 1, 2 and 3 of the MixColumns matrix,
      the only ones it is called with. `(a << 1) & 0xFF` is `(2 * a) % 256`. The
      result is the field product. */
  function GaloisMul(a: byte, b: int): (r: byte)
    requires 1 <= b <= 3
    ensures r == GfMul(a, b)
    decreases b
  {
    GfMulSmall(a);
    if b == 1 then a
    else
      var tmp := (2 * a) % 256;
      if b == 2 then
        XorIntZero(tmp);
        if a < 128 then tmp else Xor(tmp, 0x1B)
      else
        XorIntComm(GaloisMul(a, 2), a);
        Xor(GaloisMul(a, 2), a)
  }

  /** The field product by 1, x and x + 1. */
  lemma GfMulSmall(a: byte)
    ensures GfMul(a, 1) == a
    ensures GfMul(a, 2) == XTime(a)
    ensures GfMul(a, 3) == Xor(a, XTime(a))
  {
    assert GfMul(XTime(a), 0) == 0;
    XorIntZero(a);
    XorIntZero(XTime(a));
    assert GfMul(XTime(a), 1) == XTime(a);
    assert GfMul(a, 2) == Xor(0, XTime(a));
    XorIntComm(0, XTime(a));
  }

  // ---------------------------------------------------------------------------
  // Words and matrices

  /** xorBytes: byte-wise XOR over the length of the first string. */
  function XorBytes(s: seq<byte>, t: seq<byte>): (r: seq<byte>)
    requires |t| >= |s|
    ensures |r| == |s|
  {
    seq(|s|, i requires 0 <= i < |s| => Xor(s[i], t[i]))
  }

  /** rotWord: rotate a column up by one byte and substitute each byte through the S-box. */
  function RotWord(column: seq<byte>): (r: seq<byte>)
    requires |column| >= 1
    ensures |r| == |column|
  {
    seq(|column| - 1, i requires 0 <= i < |column| - 1 => SBox(column[i + 1])) + [SBox(column[0])]
  }

  /** listToMatrix(list, 4, mode): groups of four consecutive bytes become the columns
      (byRows false, mode 0) or the rows (byRows true, mode 1) of the matrix. */
  function ListToMatrix(l: seq<byte>, byRows: bool): Matrix
    requires |l| >= 16
  {
    seq(4, j requires 0 <= j < 4 =>
      seq(4, i requires 0 <= i < 4 => if byRows then l[4 * i + j] else l[i + 4 * j]))
  }

  /** matrixToList(matrix, 4, mode): the 16 bytes, read column by column (mode 0) or
      row by row (mode 1). */
  function MatrixToList(m: Matrix, byRows: bool): (l: seq<byte>)
    ensures |l| == 16
  {
    seq(16, k requires 0 <= k < 16 => if byRows then m[k % 4][k / 4] else m[k / 4][k % 4])
  }

  /** Two matrices with the same cells are equal. */
  lemma MatrixExt(a: Matrix, b: Matrix)
    requires forall c, r | 0 <= c < 4 && 0 <= r < 4 :: a[c][r] == b[c][r]
    ensures a == b
  {
    forall c | 0 <= c < 4
      ensures a[c] == b[c]
    {
    }
  }

  /** Reading a matrix back out in the order it was built from gives the first 16 bytes. */
  lemma ListMatrixRoundTrip(l: seq<byte>, byRows: bool)
    requires |l| >= 16
    ensures MatrixToList(ListToMatrix(l, byRows), byRows) == l[..16]
  {
  }

  /** Building a matrix from its own list gives the matrix back. */
  lemma MatrixListRoundTrip(m: Matrix, byRows: bool)
    ensures ListToMatrix(MatrixToList(m, byRows), byRows) == m
  {
    MatrixExt(ListToMatrix(MatrixToList(m, byRows), byRows), m);
  }

  // ---------------------------------------------------------------------------
  // The round transforms as functions on matrices

  /** addRoundKey: cell-wise XOR with the round key. */
  function WithRoundKey(s: Matrix, k: Matrix): Matrix
  {
    seq(4, c requires 0 <= c < 4 => XorBytes(s[c], k[c]))
  }

  /** subByte: every cell through the S-box. */
  function Substituted(s: Matrix): Matrix
  {
    seq(4, c requires 0 <= c < 4 => seq(4, r requires 0 <= r < 4 => SBox(s[c][r])))
  }

  /** shiftRows: row r rotated left by r places (FIPS-197 section 5.1.2). */
  function Shifted(s: Matrix): Matrix
  {
    seq(4, c requires 0 <= c < 4 => seq(4, r requires 0 <= r < 4 => s[(c + r) % 4][r]))
  }

  /** The first k terms of the XOR that gives byte j of a mixed column. */
  function MixSum(column: seq<byte>, j: nat, k: nat): byte
    requires |column| == 4 && j < 4 && k <= 4
  {
    if k == 0 then 0
    else Xor(MixSum(column, j, k - 1), GaloisMul(column[k - 1], GfMatrix[j][k - 1]))
  }

  /** mixColumns: every column multiplied by GF_MATRIX over GF(2^8). */
  function Mixed(s: Matrix): Matrix
  {
    seq(4, c requires 0 <= c < 4 => seq(4, j requires 0 <= j < 4 => MixSum(s[c], j, 4)))
  }

  /** One of rounds 1..9: sub, shift, mix, add the round key. */
  function Round(s: Matrix, k: Matrix): Matrix
  {
    WithRoundKey(Mixed(Shifted(Substituted(s))), k)
  }

  /** The first n full rounds, with round keys keys[0..n). */
  function Rounds(s: Matrix, keys: seq<Matrix>, n: nat): Matrix
    requires n <= |keys|
  {
    if n == 0 then s else Round(Rounds(s, keys, n - 1), keys[n - 1])
  }

  // ---------------------------------------------------------------------------
  // The key schedule as functions

  /** Column j of round key i (0-based), built from the previous round key. */
  function NewColumn(prev: Matrix, i: nat, j: nat): (col: seq<byte>)
    requires i < N_ROUNDS && j < 4
    ensures |col| == 4
  {
    if j == 0 then XorBytes(XorBytes(prev[0], RotWord(prev[3])), Rcon[i])
    else XorBytes(prev[j], NewColumn(prev, i, j - 1))
  }

  function NextKey(prev: Matrix, i: nat): Matrix
    requires i < N_ROUNDS
  {
    seq(4, j requires 0 <= j < 4 => NewColumn(prev, i, j))
  }

  /** Round key i (0-based) derived from the master key matrix. */
  function RoundKey(master: Matrix, i: nat): Matrix
    requires i < N_ROUNDS
  {
    NextKey(if i == 0 then master else RoundKey(master, i - 1), i)
  }

  /** The ten round keys of keyExpansion. */
  function ExpandKey(masterKey: seq<byte>): (keys: seq<Matrix>)
    requires |masterKey| >= 16
    ensures |keys| == N_ROUNDS
  {
    seq(N_ROUNDS, i requires 0 <= i < N_ROUNDS => RoundKey(ListToMatrix(masterKey, false), i))
  }

  /** encryptAES: whitening with the master key, nine full rounds, and a last round
      without mixColumns. Only the first 16 bytes of block and key are read. */
  function Cipher(plaintext: seq<byte>, masterKey: seq<byte>): (r: seq<byte>)
    requires |plaintext| >= 16 && |masterKey| >= 16
    ensures |r| == 16
  {
    var keys := ExpandKey(masterKey);
    var s := Rounds(WithRoundKey(ListToMatrix(plaintext, false), ListToMatrix(masterKey, false)), keys, N_ROUNDS - 1);
    MatrixToList(WithRoundKey(Shifted(Substituted(s)), keys[N_ROUNDS - 1]), false)
  }

  // ---------------------------------------------------------------------------
  // The state in place: the Python list of columns as a 4x4 array

  predicate IsState(a: array2<byte>)
  {
    a.Length0 == 4 && a.Length1 == 4
  }

  /** The matrix a state array holds: a[c, r] is row r of column c. */
  function Cells(a: array2<byte>): Matrix
    reads a
    requires IsState(a)
  {
    seq(4, c requires 0 <= c < 4 reads a => seq(4, r requires 0 <= r < 4 reads a => a[c, r]))
  }

  /** A state array whose cells agree with m holds m. */
  lemma CellsAre(a: array2<byte>, m: Matrix)
    requires IsState(a)
    requires forall c, r | 0 <= c < 4 && 0 <= r < 4 :: a[c, r] == m[c][r]
    ensures Cells(a) == m
  {
    MatrixExt(Cells(a), m);
  }

  /** A fresh state array holding m. */
  method NewState(m: Matrix) returns (a: array2<byte>)
    ensures fresh(a) && IsState(a) && Cells(a) == m
  {
    a := new byte[4, 4]((c, r) requires 0 <= c < 4 && 0 <= r < 4 => m[c][r]);
    MatrixExt(Cells(a), m);
  }

  /** addRoundKey: XOR the round key into the state, cell by cell. */
  method AddRoundKey(state: array2<byte>, roundKey: Matrix)
    requires IsState(state)
    modifies state
    ensures Cells(state) == WithRoundKey(old(Cells(state)), roundKey)
  {
    ghost var before := Cells(state);
    for i := 0 to 4
      invariant forall c, r | 0 <= c < 4 && 0 <= r < 4 ::
        state[c, r] == if c < i then Xor(before[c][r], roundKey[c][r]) else before[c][r]
    {
      for j := 0 to 4
        invariant forall c, r | 0 <= c < 4 && 0 <= r < 4 ::
          state[c, r] == if c < i || (c == i && r < j) then Xor(before[c][r], roundKey[c][r]) else before[c][r]
      {
        state[i, j] := Xor(state[i, j], roundKey[i][j]);
      }
    }
    MatrixExt(Cells(state), WithRoundKey(before, roundKey));
  }

  /** subByte: replace every cell by its S-box image. */
  method SubByte(state: array2<byte>)
    requires IsState(state)
    modifies state
    ensures Cells(state) == Substituted(old(Cells(state)))
  {
    ghost var before := Cells(state);
    for i := 0 to 4
      invariant forall c, r | 0 <= c < 4 && 0 <= r < 4 ::
        state[c, r] == if c < i then SBox(before[c][r]) else before[c][r]
    {
      for j := 0 to 4
        invariant forall c, r | 0 <= c < 4 && 0 <= r < 4 ::
          state[c, r] == if c < i || (c == i && r < j) then SBox(before[c][r]) else before[c][r]
      {
        state[i, j] := SBox(state[i, j]);
      }
    }
    MatrixExt(Cells(state), Substituted(before));
  }

  /** Reading the columns out and back by rows swaps rows and columns. */
  lemma TransposeCells(m: Matrix, byRows: bool)
    ensures forall i, j | 0 <= i < 4 && 0 <= j < 4 ::
      ListToMatrix(MatrixToList(m, byRows), !byRows)[i][j] == m[j][i]
  {
  }

  /** A row of four rotated left by i: cell (c + i) % 4 moves to position c. */
  function RotateLeft(x: seq<byte>, i: nat): (y: seq<byte>)
    requires |x| == 4 && i < 4
    ensures |y| == 4
    ensures forall c | 0 <= c < 4 :: y[c] == x[(c + i) % 4]
  {
    x[i..] + x[..i]
  }

  /** Rows rotated left by their own index hold cell (c + r) % 4 of row r at position c. */
  lemma RotatedRows(original: Matrix, rows: Matrix)
    requires forall r | 0 <= r < 4 :: rows[r] == if 1 <= r < 4 then RotateLeft(original[r], r) else original[r]
    ensures forall r, c | 0 <= r < 4 && 0 <= c < 4 :: rows[r][c] == original[r][(c + r) % 4]
  {
    forall r, c | 0 <= r < 4 && 0 <= c < 4
      ensures rows[r][c] == original[r][(c + r) % 4]
    {
      if r == 0 {
        assert (c + r) % 4 == c;
      }
    }
  }

  lemma ShiftedCells(s: Matrix, original: Matrix, rows: Matrix, m: Matrix)
    requires forall i, j | 0 <= i < 4 && 0 <= j < 4 :: original[i][j] == s[j][i]
    requires forall r, c | 0 <= r < 4 && 0 <= c < 4 :: rows[r][c] == original[r][(c + r) % 4]
    requires forall i, j | 0 <= i < 4 && 0 <= j < 4 :: m[i][j] == rows[j][i]
    ensures m == Shifted(s)
  {
    forall c, r | 0 <= c < 4 && 0 <= r < 4
      ensures m[c][r] == Shifted(s)[c][r]
    {
      var k := (c + r) % 4;
      assert m[c][r] == rows[r][c] == original[r][k] == s[k][r];
    }
    MatrixExt(m, Shifted(s));
  }

  /** shiftRows: turn the columns into rows, rotate row i left by i, turn back. */
  method ShiftRows(state: array2<byte>) returns (shifted: array2<byte>)
    requires IsState(state)
    ensures fresh(shifted) && IsState(shifted)
    ensures Cells(shifted) == Shifted(Cells(state))
  {
    var s := Cells(state);
    var rows: Matrix := ListToMatrix(MatrixToList(s, false), true);
    TransposeCells(s, false);
    ghost var original := rows;
    for i := 1 to 4
      invariant forall r | 0 <= r < 4 :: rows[r] == if 1 <= r < i then RotateLeft(original[r], r) else original[r]
    {
      rows := rows[i := RotateLeft(rows[i], i)];
    }
    var m := ListToMatrix(MatrixToList(rows, true), false);
    TransposeCells(rows, true);
    RotatedRows(original, rows);
    ShiftedCells(s, original, rows, m);
    shifted := NewState(m);
  }

  /** What mixColumns' result holds at cell (c, r) once the loops reach (i, j, k): the
      full sum for cells already done, k terms for the current one, 0 for the rest. */
  ghost function MixProgress(s: Matrix, c: nat, r: nat, i: nat, j: nat, k: nat): byte
    requires c < 4 && r < 4 && k <= 4
  {
    if c < i || (c == i && r < j) then MixSum(s[c], r, 4)
    else if c == i && r == j then MixSum(s[c], r, k)
    else 0
  }

  /** mixColumns: result[i][j] accumulates galoisMul(state[i][k], GF_MATRIX[j][k]) over k. */
  method MixColumns(state: array2<byte>) returns (result: array2<byte>)
    requires IsState(state)
    ensures fresh(result) && IsState(result)
    ensures Cells(result) == Mixed(Cells(state))
  {
    result := new byte[4, 4]((c, r) => 0);
    ghost var s := Cells(state);
    for i := 0 to 4
      invariant forall c, r | 0 <= c < 4 && 0 <= r < 4 :: result[c, r] == MixProgress(s, c, r, i, 0, 0)
    {
      for j := 0 to 4
        invariant forall c, r | 0 <= c < 4 && 0 <= r < 4 :: result[c, r] == MixProgress(s, c, r, i, j, 0)
      {
        for k := 0 to 4
          invariant forall c, r | 0 <= c < 4 && 0 <= r < 4 :: result[c, r] == MixProgress(s, c, r, i, j, k)
        {
          result[i, j] := Xor(result[i, j], GaloisMul(state[i, k], GfMatrix[j][k]));
        }
      }
    }
    CellsAre(result, Mixed(s));
  }

  /** The body of keyExpansion's outer loop: round key i from the previous key, column
      by column. Column 0 is rotWord of the last column XOR column 0 XOR RCON[i]; each
      later column is the same column of the previous key XOR the column just built. */
  method NextRoundKey(prev: Matrix, i: nat) returns (aux: Matrix)
    requires i < N_ROUNDS
    ensures aux == NextKey(prev, i)
  {
    var cols: seq<seq<byte>> := [];
    for j := 0 to 4
      invariant |cols| == j
      invariant forall t | 0 <= t < j :: cols[t] == NewColumn(prev, i, t)
    {
      if j == 0 {
        var fst := RotWord(prev[3]);
        ghost var rot := fst;
        for k := 0 to 4
          invariant |fst| == 4
          invariant forall t | 0 <= t < 4 :: fst[t] == if t < k then NewColumn(prev, i, 0)[t] else rot[t]
        {
          fst := fst[k := Xor(Xor(prev[0][k], fst[k]), Rcon[i][k])];
        }
        cols := cols + [fst];
      } else {
        var column: seq<byte> := [];
        for k := 0 to 4
          invariant column == NewColumn(prev, i, j)[..k]
        {
          column := column + [Xor(prev[j][k], cols[j - 1][k])];
        }
        cols := cols + [column];
      }
    }
    aux := cols;
  }

  /** keyExpansion: starting from the master key, each round key is built from the
      previous one; the master key itself is dropped at the end. */
  method KeyExpansion(masterKey: seq<byte>) returns (roundKeys: seq<Matrix>)
    requires |masterKey| >= 16
    ensures roundKeys == ExpandKey(masterKey)
  {
    var master := ListToMatrix(masterKey, false);
    var keys: seq<Matrix> := [master];
    for i := 0 to N_ROUNDS
      invariant |keys| == i + 1 && keys[0] == master
      invariant forall t | 0 <= t < i :: keys[t + 1] == RoundKey(master, t)
    {
      var aux := NextRoundKey(keys[|keys| - 1], i);
      keys := keys + [aux];
    }
    roundKeys := keys[1..];
  }

  /** encryptAES: the state is a fresh array that the rounds update or replace. */
  method EncryptAES(plaintext: seq<byte>, masterKey: seq<byte>) returns (ciphertext: seq<byte>)
    requires |plaintext| >= 16 && |masterKey| >= 16
    ensures ciphertext == Cipher(plaintext, masterKey)
  {
    var roundKeys := KeyExpansion(masterKey);
    var state := NewState(ListToMatrix(plaintext, false));
    AddRoundKey(state, ListToMatrix(masterKey, false));
    ghost var start := Cells(state);
    for i := 0 to N_ROUNDS - 1
      invariant fresh(state) && IsState(state)
      invariant Cells(state) == Rounds(start, roundKeys, i)
    {
      SubByte(state);
      state := ShiftRows(state);
      state := MixColumns(state);
      AddRoundKey(state, roundKeys[i]);
    }
    SubByte(state);
    state := ShiftRows(state);
    AddRoundKey(state, roundKeys[N_ROUNDS - 1]);
    ciphertext := MatrixToList(Cells(state), false);
  }

  // ---------------------------------------------------------------------------
  // Properties of the round transforms

  /** XOR with the same string twice restores the original. */
  lemma XorBytesTwice(s: seq<byte>, t: seq<byte>)
    requires |t| >= |s|
    ensures XorBytes(XorBytes(s, t), t) == s
  {
    forall i | 0 <= i < |s|
      ensures XorBytes(XorBytes(s, t), t)[i] == s[i]
    {
      XorIntInvolution(s[i], t[i]);
    }
  }

  /** Byte-wise XOR is associative. */
  lemma XorBytesAssoc(a: seq<byte>, b: seq<byte>, c: seq<byte>)
    requires |a| == |b| == |c|
    ensures XorBytes(XorBytes(a, b), c) == XorBytes(a, XorBytes(b, c))
  {
    forall i | 0 <= i < |a|
      ensures XorBytes(XorBytes(a, b), c)[i] == XorBytes(a, XorBytes(b, c))[i]
    {
      XorIntAssoc(a[i], b[i], c[i]);
    }
  }

  /** addRoundKey with the same key twice gives the original state back. */
  lemma RoundKeyTwice(s: Matrix, k: Matrix)
    ensures WithRoundKey(WithRoundKey(s, k), k) == s
  {
    forall c | 0 <= c < 4
      ensures WithRoundKey(WithRoundKey(s, k), k)[c] == s[c]
    {
      XorBytesTwice(s[c], k[c]);
    }
  }

  /** shiftRows leaves row 0 where it is and moves every byte within its own row. */
  lemma ShiftedRows(s: Matrix)
    ensures forall c | 0 <= c < 4 :: Shifted(s)[c][0] == s[c][0]
    ensures forall c, r | 0 <= c < 4 && 0 <= r < 4 :: Shifted(s)[c][r] == s[(c + r) % 4][r]
  {
  }

  /** Rotating each row r right by r: the inverse of shiftRows (FIPS-197 section 5.3.1). */
  function UnShifted(s: Matrix): Matrix
  {
    seq(4, c requires 0 <= c < 4 => seq(4, r requires 0 <= r < 4 => s[(c - r + 4) % 4][r]))
  }

  lemma {:induction false} ShiftedInverse(s: Matrix)
    ensures UnShifted(Shifted(s)) == s
    ensures Shifted(UnShifted(s)) == s
  {
    forall c, r | 0 <= c < 4 && 0 <= r < 4
      ensures UnShifted(Shifted(s))[c][r] == s[c][r] && Shifted(UnShifted(s))[c][r] == s[c][r]
    {
      assert ((c - r + 4) % 4 + r) % 4 == c;
      assert ((c + r) % 4 - r + 4) % 4 == c;
    }
    MatrixExt(UnShifted(Shifted(s)), s);
    MatrixExt(Shifted(UnShifted(s)), s);
  }

  // ---------------------------------------------------------------------------
  // The key schedule in the word form of FIPS-197 section 5.2

  /** SubWord: the S-box applied to each byte of a word. */
  function SubWord(w: seq<byte>): (r: seq<byte>)
    ensures |r| == |w|
  {
    seq(|w|, i requires 0 <= i < |w| => SBox(w[i]))
  }

  /** RotWord of FIPS-197: [a0, a1, a2, a3] becomes [a1, a2, a3, a0]. */
  function RotateWord(w: seq<byte>): (r: seq<byte>)
    requires |w| >= 1
    ensures |r| == |w|
  {
    w[1..] + w[..1]
  }

  /** The Python rotWord substitutes while it rotates: it is SubWord after RotWord. */
  lemma RotWordIsSubRot(column: seq<byte>)
    requires |column| >= 1
    ensures RotWord(column) == SubWord(RotateWord(column))
  {
  }

  /** x^i in GF(2^8), by repeated xtime. */
  function XPow(i: nat): byte
  {
    if i == 0 then 1 else XTime(XPow(i - 1))
  }

  /** The round constant word [x^i, 0, 0, 0] (Rcon[i + 1] of FIPS-197). */
  function RconWord(i: nat): seq<byte>
  {
    [XPow(i), 0, 0, 0]
  }

  /** Below 128, xtime is doubling. */
  lemma XTimeDoubles(a: byte)
    requires a < 128
    ensures XTime(a) == 2 * a
  {
    var d := (2 * a) % 256;
    assert d == 2 * a;
    XorIntZero(d);
    assert XTime(a) == Xor(d, 0);
  }

  /** The powers of x up to x^9. */
  lemma {:induction false} XPowValues()
    ensures XPow(0) == 1 && XPow(1) == 2 && XPow(2) == 4 && XPow(3) == 8 && XPow(4) == 16
    ensures XPow(5) == 32 && XPow(6) == 64 && XPow(7) == 128 && XPow(8) == 0x1B && XPow(9) == 0x36
  {
    XTimeDoubles(1); XTimeDoubles(2); XTimeDoubles(4); XTimeDoubles(8);
    XTimeDoubles(16); XTimeDoubles(32); XTimeDoubles(64);
    assert XTime(128) == Xor(0, 0x1B);
    XorIntComm(0, 0x1B);
    XorIntZero(0x1B);
    XTimeDoubles(0x1B);
  }

  /** The RCON table holds the powers of x. */
  lemma RconIsPower(i: nat)
    requires i < N_ROUNDS
    ensures Rcon[i] == RconWord(i)
  {
    XPowValues();
    if i < 5 {
      assert i == 0 || i == 1 || i == 2 || i == 3 || i == 4;
    } else {
      assert i == 5 || i == 6 || i == 7 || i == 8 || i == 9;
    }
  }

  /** One step of the FIPS-197 schedule: w[i] from w[i - 4] and w[i - 1]. temp is
      SubWord(RotWord(w[i - 1])) XOR Rcon when i is a multiple of 4, else w[i - 1]. */
  function NextWord(back4: seq<byte>, back1: seq<byte>, i: nat): (w: seq<byte>)
    requires |back4| == 4 && |back1| == 4 && i >= 4
    ensures |w| == 4
  {
    var temp := if i % 4 == 0 then XorBytes(SubWord(RotateWord(back1)), RconWord(i / 4 - 1)) else back1;
    XorBytes(back4, temp)
  }

  /** Word w[i] of the expanded key: the first four are the key's columns. */
  function KeyWord(key: Matrix, i: nat): (w: seq<byte>)
    requires i < 4 * (N_ROUNDS + 1)
    ensures |w| == 4
  {
    if i < 4 then key[i] else NextWord(KeyWord(key, i - 4), KeyWord(key, i - 1), i)
  }

  /** Column c of round key r (0-based) is word 4 (r + 1) + c of the FIPS-197 schedule. */
  lemma {:induction false} KeyScheduleWords(key: Matrix, r: nat, c: nat)
    requires r < N_ROUNDS && c < 4
    ensures RoundKey(key, r)[c] == KeyWord(key, 4 * (r + 1) + c)
  {
    var prev := if r == 0 then key else RoundKey(key, r - 1);
    forall j | 0 <= j < 4
      ensures prev[j] == KeyWord(key, 4 * r + j)
    {
      if r > 0 {
        KeyScheduleWords(key, r - 1, j);
      }
    }
    NewColumnWords(key, prev, r, c);
  }

  lemma {:induction false} NewColumnWords(key: Matrix, prev: Matrix, r: nat, c: nat)
    requires r < N_ROUNDS && c < 4
    requires forall j | 0 <= j < 4 :: prev[j] == KeyWord(key, 4 * r + j)
    ensures NewColumn(prev, r, c) == KeyWord(key, 4 * (r + 1) + c)
  {
    if c == 0 {
      FirstColumnWord(key, prev, r);
    } else {
      NewColumnWords(key, prev, r, c - 1);
      var i := 4 * r + 4 + c;
      WordIndex(r + 1, c);
      assert KeyWord(key, i) == NextWord(prev[c], NewColumn(prev, r, c - 1), i);
    }
  }

  /** Word 4 q + c is column c of round q. */
  lemma WordIndex(q: nat, c: nat)
    requires c < 4
    ensures (4 * q + c) % 4 == c && (4 * q + c) / 4 == q
  {
  }

  /** Column 0: (prev[0] XOR rotWord(prev[3])) XOR RCON[r] regroups into the FIPS-197 form. */
  lemma FirstColumnWord(key: Matrix, prev: Matrix, r: nat)
    requires r < N_ROUNDS
    requires forall j | 0 <= j < 4 :: prev[j] == KeyWord(key, 4 * r + j)
    ensures NewColumn(prev, r, 0) == KeyWord(key, 4 * (r + 1))
  {
    var i := 4 * r + 4;
    WordIndex(r + 1, 0);
    assert KeyWord(key, i) == NextWord(prev[0], prev[3], i);
    RconIsPower(r);
    RotWordIsSubRot(prev[3]);
    XorBytesAssoc(prev[0], RotWord(prev[3]), Rcon[r]);
  }
}
