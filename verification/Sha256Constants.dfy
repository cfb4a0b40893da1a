/** The constants of SHA-256 are what sections 4.2.2 and 5.3.2 of FIPS 180-2 say: the first 32 bits of the fractional
    parts of the cube roots of the first sixty-four primes, and of the square roots of the first eight. */
module Sha256Constants {
  import opened Prelude
  import opened Sha256Spec

  /** The first sixty-four primes, in rows of eight. */
  const PRIMES: seq<seq<nat>> := [
    [2, 3, 5, 7, 11, 13, 17, 19],
    [23, 29, 31, 37, 41, 43, 47, 53],
    [59, 61, 67, 71, 73, 79, 83, 89],
    [97, 101, 103, 107, 109, 113, 127, 131],
    [137, 139, 149, 151, 157, 163, 167, 173],
    [179, 181, 191, 193, 197, 199, 211, 223],
    [227, 229, 233, 239, 241, 251, 257, 263],
    [269, 271, 277, 281, 283, 293, 307, 311]]

  ghost predicate Prime(n: nat) { n >= 2 && forall d :: 2 <= d < n ==> n % d != 0 }

  /** What is left when the multiples of the primes up to 17 are crossed out, which is enough below 18 * 18. */
  predicate Left(n: nat) {
    && n >= 2 && (n == 2 || n % 2 != 0) && (n == 3 || n % 3 != 0) && (n == 5 || n % 5 != 0) && (n == 7 || n % 7 != 0)
    && (n == 11 || n % 11 != 0) && (n == 13 || n % 13 != 0) && (n == 17 || n % 17 != 0)
  }

  /** A multiple of a number up to 17 is a multiple of one of these primes. */
  lemma SmallDivisor(n: nat, d: nat, e: nat)
    requires 2 <= d <= 17 && n == d * e
    ensures n % 2 == 0 || n % 3 == 0 || n % 5 == 0 || n % 7 == 0 || n % 11 == 0 || n % 13 == 0 || n % 17 == 0
  {
    match d
    case 2 => Multiple(n, 2, e);
    case 3 => Multiple(n, 3, e);
    case 4 => Multiple(n, 2, 2 * e);
    case 5 => Multiple(n, 5, e);
    case 6 => Multiple(n, 2, 3 * e);
    case 7 => Multiple(n, 7, e);
    case 8 => Multiple(n, 2, 4 * e);
    case 9 => Multiple(n, 3, 3 * e);
    case 10 => Multiple(n, 2, 5 * e);
    case 11 => Multiple(n, 11, e);
    case 12 => Multiple(n, 2, 6 * e);
    case 13 => Multiple(n, 13, e);
    case 14 => Multiple(n, 2, 7 * e);
    case 15 => Multiple(n, 3, 5 * e);
    case 16 => Multiple(n, 2, 8 * e);
    case 17 => Multiple(n, 17, e);
  }

  lemma Multiple(n: nat, q: nat, m: nat)
    requires (q == 2 || q == 3 || q == 5 || q == 7 || q == 11 || q == 13 || q == 17) && n == q * m
    ensures n % q == 0
  {
  }

  lemma LeftIsPrime(n: nat)
    requires n < 324
    ensures Left(n) <==> Prime(n)
  {
    forall d | 2 <= d < n && n % d == 0 ensures !Left(n) {
      Quotient(n, d);
      Composite(n, d, n / d);
    }
  }

  lemma Quotient(n: nat, d: nat)
    requires 2 <= d < n && n % d == 0
    ensures n == d * (n / d) && n / d >= 2
  {
  }

  /** The smaller factor of a number below 18 * 18 is at most 17. */
  lemma Composite(n: nat, d: nat, e: nat)
    requires n == d * e && d >= 2 && e >= 2 && n < 324
    ensures !Left(n)
  {
    if d >= 18 {
      assert d * e >= 18 * e;
      SmallDivisor(n, e, d);
      Factor(n, e, d);
    } else {
      SmallDivisor(n, d, e);
      Factor(n, d, e);
    }
  }

  /** None of the seven primes has another factor. */
  lemma Factor(n: nat, d: nat, e: nat)
    requires n == d * e && 2 <= d <= 17 && e >= 2
    ensures n != 2 && n != 3 && n != 5 && n != 7 && n != 11 && n != 13 && n != 17
  {
    match d
    case 2 => assert n == 2 * e;
    case 3 => assert n == 3 * e;
    case 4 => assert n == 4 * e;
    case 5 => assert n == 5 * e;
    case 6 => assert n == 6 * e;
    case 7 => assert n == 7 * e;
    case 8 => assert n == 8 * e;
    case 9 => assert n == 9 * e;
    case 10 => assert n == 10 * e;
    case 11 => assert n == 11 * e;
    case 12 => assert n == 12 * e;
    case 13 => assert n == 13 * e;
    case 14 => assert n == 14 * e;
    case 15 => assert n == 15 * e;
    case 16 => assert n == 16 * e;
    case 17 => assert n == 17 * e;
  }

  lemma Row0(n: nat)
    requires 0 <= n < 23
    ensures Left(n) <==> n in PRIMES[0]
  {
    assert n in PRIMES[0] <==> n == 2 || n == 3 || n == 5 || n == 7 || n == 11 || n == 13 || n == 17 || n == 19;
  }

  lemma Row1(n: nat)
    requires 23 <= n < 59
    ensures Left(n) <==> n in PRIMES[1]
  {
    hide Left;
    assert n in PRIMES[1] <==> n == 23 || n == 29 || n == 31 || n == 37 || n == 41 || n == 43 || n == 47 || n == 53;
    if n < 41 {
      Between23(n);
    } else {
      Between41(n);
    }
  }

  lemma Between23(n: nat)
    requires 23 <= n < 41
    ensures Left(n) <==> n == 23 || n == 29 || n == 31 || n == 37
  {
    assert n == 23 || n == 24 || n == 25 || n == 26 || n == 27 || n == 28 || n == 29 || n == 30 || n == 31 ||
           n == 32 || n == 33 || n == 34 || n == 35 || n == 36 || n == 37 || n == 38 || n == 39 || n == 40;
  }

  lemma Between41(n: nat)
    requires 41 <= n < 59
    ensures Left(n) <==> n == 41 || n == 43 || n == 47 || n == 53
  {
    assert n == 41 || n == 42 || n == 43 || n == 44 || n == 45 || n == 46 || n == 47 || n == 48 || n == 49 ||
           n == 50 || n == 51 || n == 52 || n == 53 || n == 54 || n == 55 || n == 56 || n == 57 || n == 58;
  }

  lemma Row2(n: nat)
    requires 59 <= n < 97
    ensures Left(n) <==> n in PRIMES[2]
  {
    hide Left;
    assert n in PRIMES[2] <==> n == 59 || n == 61 || n == 67 || n == 71 || n == 73 || n == 79 || n == 83 || n == 89;
    if n < 73 {
      Between59(n);
    } else {
      Between73(n);
    }
  }

  lemma Between59(n: nat)
    requires 59 <= n < 73
    ensures Left(n) <==> n == 59 || n == 61 || n == 67 || n == 71
  {
    assert n == 59 || n == 60 || n == 61 || n == 62 || n == 63 || n == 64 || n == 65 || n == 66 || n == 67 ||
           n == 68 || n == 69 || n == 70 || n == 71 || n == 72;
  }

  lemma Between73(n: nat)
    requires 73 <= n < 97
    ensures Left(n) <==> n == 73 || n == 79 || n == 83 || n == 89
  {
    assert n == 73 || n == 74 || n == 75 || n == 76 || n == 77 || n == 78 || n == 79 || n == 80 || n == 81 ||
           n == 82 || n == 83 || n == 84 || n == 85 || n == 86 || n == 87 || n == 88 || n == 89 || n == 90 ||
           n == 91 || n == 92 || n == 93 || n == 94 || n == 95 || n == 96;
  }

  lemma Row3(n: nat)
    requires 97 <= n < 137
    ensures Left(n) <==> n in PRIMES[3]
  {
    hide Left;
    assert n in PRIMES[3] <==>
           n == 97 || n == 101 || n == 103 || n == 107
           || n == 109 || n == 113 || n == 127 || n == 131;
    if n < 109 {
      Between97(n);
    } else {
      Between109(n);
    }
  }

  lemma Between97(n: nat)
    requires 97 <= n < 109
    ensures Left(n) <==> n == 97 || n == 101 || n == 103 || n == 107
  {
    assert n == 97 || n == 98 || n == 99 || n == 100 || n == 101 || n == 102 || n == 103 || n == 104 || n == 105 ||
           n == 106 || n == 107 || n == 108;
  }

  lemma Between109(n: nat)
    requires 109 <= n < 137
    ensures Left(n) <==> n == 109 || n == 113 || n == 127 || n == 131
  {
    assert n == 109 || n == 110 || n == 111 || n == 112 || n == 113 || n == 114 || n == 115 || n == 116 ||
           n == 117 || n == 118 || n == 119 || n == 120 || n == 121 || n == 122 || n == 123 || n == 124 ||
           n == 125 || n == 126 || n == 127 || n == 128 || n == 129 || n == 130 || n == 131 || n == 132 ||
           n == 133 || n == 134 || n == 135 || n == 136;
  }

  lemma Row4(n: nat)
    requires 137 <= n < 179
    ensures Left(n) <==> n in PRIMES[4]
  {
    hide Left;
    assert n in PRIMES[4] <==>
           n == 137 || n == 139 || n == 149 || n == 151
           || n == 157 || n == 163 || n == 167 || n == 173;
    if n < 157 {
      Between137(n);
    } else {
      Between157(n);
    }
  }

  lemma Between137(n: nat)
    requires 137 <= n < 157
    ensures Left(n) <==> n == 137 || n == 139 || n == 149 || n == 151
  {
    assert n == 137 || n == 138 || n == 139 || n == 140 || n == 141 || n == 142 || n == 143 || n == 144 ||
           n == 145 || n == 146 || n == 147 || n == 148 || n == 149 || n == 150 || n == 151 || n == 152 ||
           n == 153 || n == 154 || n == 155 || n == 156;
  }

  lemma Between157(n: nat)
    requires 157 <= n < 179
    ensures Left(n) <==> n == 157 || n == 163 || n == 167 || n == 173
  {
    assert n == 157 || n == 158 || n == 159 || n == 160 || n == 161 || n == 162 || n == 163 || n == 164 ||
           n == 165 || n == 166 || n == 167 || n == 168 || n == 169 || n == 170 || n == 171 || n == 172 ||
           n == 173 || n == 174 || n == 175 || n == 176 || n == 177 || n == 178;
  }

  lemma Row5(n: nat)
    requires 179 <= n < 227
    ensures Left(n) <==> n in PRIMES[5]
  {
    hide Left;
    assert n in PRIMES[5] <==>
           n == 179 || n == 181 || n == 191 || n == 193
           || n == 197 || n == 199 || n == 211 || n == 223;
    if n < 197 {
      Between179(n);
    } else {
      Between197(n);
    }
  }

  lemma Between179(n: nat)
    requires 179 <= n < 197
    ensures Left(n) <==> n == 179 || n == 181 || n == 191 || n == 193
  {
    assert n == 179 || n == 180 || n == 181 || n == 182 || n == 183 || n == 184 || n == 185 || n == 186 ||
           n == 187 || n == 188 || n == 189 || n == 190 || n == 191 || n == 192 || n == 193 || n == 194 ||
           n == 195 || n == 196;
  }

  lemma Between197(n: nat)
    requires 197 <= n < 227
    ensures Left(n) <==> n == 197 || n == 199 || n == 211 || n == 223
  {
    assert n == 197 || n == 198 || n == 199 || n == 200 || n == 201 || n == 202 || n == 203 || n == 204 ||
           n == 205 || n == 206 || n == 207 || n == 208 || n == 209 || n == 210 || n == 211 || n == 212 ||
           n == 213 || n == 214 || n == 215 || n == 216 || n == 217 || n == 218 || n == 219 || n == 220 ||
           n == 221 || n == 222 || n == 223 || n == 224 || n == 225 || n == 226;
  }

  lemma Row6(n: nat)
    requires 227 <= n < 269
    ensures Left(n) <==> n in PRIMES[6]
  {
    hide Left;
    assert n in PRIMES[6] <==>
           n == 227 || n == 229 || n == 233 || n == 239
           || n == 241 || n == 251 || n == 257 || n == 263;
    if n < 241 {
      Between227(n);
    } else {
      Between241(n);
    }
  }

  lemma Between227(n: nat)
    requires 227 <= n < 241
    ensures Left(n) <==> n == 227 || n == 229 || n == 233 || n == 239
  {
    assert n == 227 || n == 228 || n == 229 || n == 230 || n == 231 || n == 232 || n == 233 || n == 234 ||
           n == 235 || n == 236 || n == 237 || n == 238 || n == 239 || n == 240;
  }

  lemma Between241(n: nat)
    requires 241 <= n < 269
    ensures Left(n) <==> n == 241 || n == 251 || n == 257 || n == 263
  {
    assert n == 241 || n == 242 || n == 243 || n == 244 || n == 245 || n == 246 || n == 247 || n == 248 ||
           n == 249 || n == 250 || n == 251 || n == 252 || n == 253 || n == 254 || n == 255 || n == 256 ||
           n == 257 || n == 258 || n == 259 || n == 260 || n == 261 || n == 262 || n == 263 || n == 264 ||
           n == 265 || n == 266 || n == 267 || n == 268;
  }

  lemma Row7(n: nat)
    requires 269 <= n < 312
    ensures Left(n) <==> n in PRIMES[7]
  {
    hide Left;
    assert n in PRIMES[7] <==>
           n == 269 || n == 271 || n == 277 || n == 281
           || n == 283 || n == 293 || n == 307 || n == 311;
    if n < 283 {
      Between269(n);
    } else {
      Between283(n);
    }
  }

  lemma Between269(n: nat)
    requires 269 <= n < 283
    ensures Left(n) <==> n == 269 || n == 271 || n == 277 || n == 281
  {
    assert n == 269 || n == 270 || n == 271 || n == 272 || n == 273 || n == 274 || n == 275 || n == 276 ||
           n == 277 || n == 278 || n == 279 || n == 280 || n == 281 || n == 282;
  }

  lemma Between283(n: nat)
    requires 283 <= n < 312
    ensures Left(n) <==> n == 283 || n == 293 || n == 307 || n == 311
  {
    assert n == 283 || n == 284 || n == 285 || n == 286 || n == 287 || n == 288 || n == 289 || n == 290 ||
           n == 291 || n == 292 || n == 293 || n == 294 || n == 295 || n == 296 || n == 297 || n == 298 ||
           n == 299 || n == 300 || n == 301 || n == 302 || n == 303 || n == 304 || n == 305 || n == 306 ||
           n == 307 || n == 308 || n == 309 || n == 310 || n == 311;
  }

  /** The table lists the primes below 312, in order. */
  lemma PrimesListed(n: nat)
    requires n < 312
    ensures Prime(n) <==> exists r :: 0 <= r < 8 && n in PRIMES[r]
  {
    hide Left, Prime;
    LeftIsPrime(n);
    RowOf(n);
  }

  lemma RowOf(n: nat)
    requires n < 312
    ensures Left(n) <==> exists r :: 0 <= r < 8 && n in PRIMES[r]
  {
    hide Left;
    var r := if n < 23 then 0 else if n < 59 then 1 else if n < 97 then 2 else if n < 137 then 3 else if n < 179 then 4
             else if n < 227 then 5 else if n < 269 then 6 else 7;
    RowBounds(n, r);
    if r == 0 {
      Row0(n);
    } else if r == 1 {
      Row1(n);
    } else if r == 2 {
      Row2(n);
    } else if r == 3 {
      Row3(n);
    } else if r == 4 {
      Row4(n);
    } else if r == 5 {
      Row5(n);
    } else if r == 6 {
      Row6(n);
    } else {
      Row7(n);
    }
  }

  /** A number is in no row but the one for its range. */
  lemma RowBounds(n: nat, r: nat)
    requires n < 312 && r < 8
    requires r == 0 ==> 0 <= n < 23
    requires r == 1 ==> 23 <= n < 59
    requires r == 2 ==> 59 <= n < 97
    requires r == 3 ==> 97 <= n < 137
    requires r == 4 ==> 137 <= n < 179
    requires r == 5 ==> 179 <= n < 227
    requires r == 6 ==> 227 <= n < 269
    requires r == 7 ==> 269 <= n < 312
    ensures forall k :: 0 <= k < 8 && n in PRIMES[k] ==> k == r
  {
    InRow0(n);
    InRow1(n);
    InRow2(n);
    InRow3(n);
    InRow4(n);
    InRow5(n);
    InRow6(n);
    InRow7(n);
  }

  lemma InRow0(n: nat)
    ensures n in PRIMES[0] ==> 0 <= n < 23
  {
    assert n in PRIMES[0] <==> n == 2 || n == 3 || n == 5 || n == 7 || n == 11 || n == 13 || n == 17 || n == 19;
  }

  lemma InRow1(n: nat)
    ensures n in PRIMES[1] ==> 23 <= n < 59
  {
    assert n in PRIMES[1] <==> n == 23 || n == 29 || n == 31 || n == 37 || n == 41 || n == 43 || n == 47 || n == 53;
  }

  lemma InRow2(n: nat)
    ensures n in PRIMES[2] ==> 59 <= n < 97
  {
    assert n in PRIMES[2] <==> n == 59 || n == 61 || n == 67 || n == 71 || n == 73 || n == 79 || n == 83 || n == 89;
  }

  lemma InRow3(n: nat)
    ensures n in PRIMES[3] ==> 97 <= n < 137
  {
    assert n in PRIMES[3] <==>
           n == 97 || n == 101 || n == 103 || n == 107
           || n == 109 || n == 113 || n == 127 || n == 131;
  }

  lemma InRow4(n: nat)
    ensures n in PRIMES[4] ==> 137 <= n < 179
  {
    assert n in PRIMES[4] <==>
           n == 137 || n == 139 || n == 149 || n == 151
           || n == 157 || n == 163 || n == 167 || n == 173;
  }

  lemma InRow5(n: nat)
    ensures n in PRIMES[5] ==> 179 <= n < 227
  {
    assert n in PRIMES[5] <==>
           n == 179 || n == 181 || n == 191 || n == 193
           || n == 197 || n == 199 || n == 211 || n == 223;
  }

  lemma InRow6(n: nat)
    ensures n in PRIMES[6] ==> 227 <= n < 269
  {
    assert n in PRIMES[6] <==>
           n == 227 || n == 229 || n == 233 || n == 239
           || n == 241 || n == 251 || n == 257 || n == 263;
  }

  lemma InRow7(n: nat)
    ensures n in PRIMES[7] ==> 269 <= n < 312
  {
    assert n in PRIMES[7] <==>
           n == 269 || n == 271 || n == 277 || n == 281
           || n == 283 || n == 293 || n == 307 || n == 311;
  }

  lemma PrimesInOrder(t: nat)
    requires t < 63
    ensures |PRIMES| == 8 && |PRIMES[t / 8]| == |PRIMES[(t + 1) / 8]| == 8
    ensures PRIMES[t / 8][t % 8] < PRIMES[(t + 1) / 8][(t + 1) % 8]
  {
  }

  // ---------------------------------------------------------------- the roots

  /** `k` holds the first 32 bits of the fractional part of the cube root of `p`. */
  ghost predicate CubeRoot(k: bv32, p: nat) {
    exists r: nat :: CubeRootWith(k, p, r)
  }

  ghost predicate CubeRootWith(k: bv32, p: nat, r: nat) {
    var c := 0x1_0000_0000 * r + k as int;
    && r * r * r <= p < (r + 1) * (r + 1) * (r + 1)
    && c * c * c <= p * 0x1_0000_0000_0000_0000_0000_0000 < (c + 1) * (c + 1) * (c + 1)
  }

  /** The same with square roots. */
  ghost predicate SquareRoot(k: bv32, p: nat) {
    exists r: nat :: SquareRootWith(k, p, r)
  }

  ghost predicate SquareRootWith(k: bv32, p: nat, r: nat) {
    var c := 0x1_0000_0000 * r + k as int;
    && r * r <= p < (r + 1) * (r + 1)
    && c * c <= p * 0x1_0000_0000_0000_0000 < (c + 1) * (c + 1)
  }

  lemma CubeRootIs(k: bv32, p: nat, r: nat)
    requires CubeRootWith(k, p, r)
    ensures CubeRoot(k, p)
  {
  }

  lemma SquareRootIs(k: bv32, p: nat, r: nat)
    requires SquareRootWith(k, p, r)
    ensures SquareRoot(k, p)
  {
  }

  lemma Roots0()
    ensures forall t :: 0 <= t < 8 ==> CubeRoot(KAt(t), PRIMES[t / 8][t % 8])
  {
    hide CubeRoot, CubeRootWith;
    Entries0();
    CubeRootIs(0x428a2f98, 2, 1);
    CubeRootIs(0x71374491, 3, 1);
    CubeRootIs(0xb5c0fbcf, 5, 1);
    CubeRootIs(0xe9b5dba5, 7, 1);
    CubeRootIs(0x3956c25b, 11, 2);
    CubeRootIs(0x59f111f1, 13, 2);
    CubeRootIs(0x923f82a4, 17, 2);
    CubeRootIs(0xab1c5ed5, 19, 2);
  }

  lemma Entries0()
    ensures KAt(0) == 0x428a2f98 && PRIMES[0][0] == 2
    ensures KAt(1) == 0x71374491 && PRIMES[0][1] == 3
    ensures KAt(2) == 0xb5c0fbcf && PRIMES[0][2] == 5
    ensures KAt(3) == 0xe9b5dba5 && PRIMES[0][3] == 7
    ensures KAt(4) == 0x3956c25b && PRIMES[0][4] == 11
    ensures KAt(5) == 0x59f111f1 && PRIMES[0][5] == 13
    ensures KAt(6) == 0x923f82a4 && PRIMES[0][6] == 17
    ensures KAt(7) == 0xab1c5ed5 && PRIMES[0][7] == 19
  {
  }

  lemma Roots8()
    ensures forall t :: 8 <= t < 16 ==> CubeRoot(KAt(t), PRIMES[t / 8][t % 8])
  {
    hide CubeRoot, CubeRootWith;
    Entries8();
    CubeRootIs(0xd807aa98, 23, 2);
    CubeRootIs(0x12835b01, 29, 3);
    CubeRootIs(0x243185be, 31, 3);
    CubeRootIs(0x550c7dc3, 37, 3);
    CubeRootIs(0x72be5d74, 41, 3);
    CubeRootIs(0x80deb1fe, 43, 3);
    CubeRootIs(0x9bdc06a7, 47, 3);
    CubeRootIs(0xc19bf174, 53, 3);
  }

  lemma Entries8()
    ensures KAt(8) == 0xd807aa98 && PRIMES[1][0] == 23
    ensures KAt(9) == 0x12835b01 && PRIMES[1][1] == 29
    ensures KAt(10) == 0x243185be && PRIMES[1][2] == 31
    ensures KAt(11) == 0x550c7dc3 && PRIMES[1][3] == 37
    ensures KAt(12) == 0x72be5d74 && PRIMES[1][4] == 41
    ensures KAt(13) == 0x80deb1fe && PRIMES[1][5] == 43
    ensures KAt(14) == 0x9bdc06a7 && PRIMES[1][6] == 47
    ensures KAt(15) == 0xc19bf174 && PRIMES[1][7] == 53
  {
  }

  lemma Roots16()
    ensures forall t :: 16 <= t < 24 ==> CubeRoot(KAt(t), PRIMES[t / 8][t % 8])
  {
    hide CubeRoot, CubeRootWith;
    Entries16();
    CubeRootIs(0xe49b69c1, 59, 3);
    CubeRootIs(0xefbe4786, 61, 3);
    CubeRootIs(0x0fc19dc6, 67, 4);
    CubeRootIs(0x240ca1cc, 71, 4);
    CubeRootIs(0x2de92c6f, 73, 4);
    CubeRootIs(0x4a7484aa, 79, 4);
    CubeRootIs(0x5cb0a9dc, 83, 4);
    CubeRootIs(0x76f988da, 89, 4);
  }

  lemma Entries16()
    ensures KAt(16) == 0xe49b69c1 && PRIMES[2][0] == 59
    ensures KAt(17) == 0xefbe4786 && PRIMES[2][1] == 61
    ensures KAt(18) == 0x0fc19dc6 && PRIMES[2][2] == 67
    ensures KAt(19) == 0x240ca1cc && PRIMES[2][3] == 71
    ensures KAt(20) == 0x2de92c6f && PRIMES[2][4] == 73
    ensures KAt(21) == 0x4a7484aa && PRIMES[2][5] == 79
    ensures KAt(22) == 0x5cb0a9dc && PRIMES[2][6] == 83
    ensures KAt(23) == 0x76f988da && PRIMES[2][7] == 89
  {
  }

  lemma Roots24()
    ensures forall t :: 24 <= t < 32 ==> CubeRoot(KAt(t), PRIMES[t / 8][t % 8])
  {
    hide CubeRoot, CubeRootWith;
    Entries24();
    CubeRootIs(0x983e5152, 97, 4);
    CubeRootIs(0xa831c66d, 101, 4);
    CubeRootIs(0xb00327c8, 103, 4);
    CubeRootIs(0xbf597fc7, 107, 4);
    CubeRootIs(0xc6e00bf3, 109, 4);
    CubeRootIs(0xd5a79147, 113, 4);
    CubeRootIs(0x06ca6351, 127, 5);
    CubeRootIs(0x14292967, 131, 5);
  }

  lemma Entries24()
    ensures KAt(24) == 0x983e5152 && PRIMES[3][0] == 97
    ensures KAt(25) == 0xa831c66d && PRIMES[3][1] == 101
    ensures KAt(26) == 0xb00327c8 && PRIMES[3][2] == 103
    ensures KAt(27) == 0xbf597fc7 && PRIMES[3][3] == 107
    ensures KAt(28) == 0xc6e00bf3 && PRIMES[3][4] == 109
    ensures KAt(29) == 0xd5a79147 && PRIMES[3][5] == 113
    ensures KAt(30) == 0x06ca6351 && PRIMES[3][6] == 127
    ensures KAt(31) == 0x14292967 && PRIMES[3][7] == 131
  {
  }

  lemma Roots32()
    ensures forall t :: 32 <= t < 40 ==> CubeRoot(KAt(t), PRIMES[t / 8][t % 8])
  {
    hide CubeRoot, CubeRootWith;
    Entries32();
    CubeRootIs(0x27b70a85, 137, 5);
    CubeRootIs(0x2e1b2138, 139, 5);
    CubeRootIs(0x4d2c6dfc, 149, 5);
    CubeRootIs(0x53380d13, 151, 5);
    CubeRootIs(0x650a7354, 157, 5);
    CubeRootIs(0x766a0abb, 163, 5);
    CubeRootIs(0x81c2c92e, 167, 5);
    CubeRootIs(0x92722c85, 173, 5);
  }

  lemma Entries32()
    ensures KAt(32) == 0x27b70a85 && PRIMES[4][0] == 137
    ensures KAt(33) == 0x2e1b2138 && PRIMES[4][1] == 139
    ensures KAt(34) == 0x4d2c6dfc && PRIMES[4][2] == 149
    ensures KAt(35) == 0x53380d13 && PRIMES[4][3] == 151
    ensures KAt(36) == 0x650a7354 && PRIMES[4][4] == 157
    ensures KAt(37) == 0x766a0abb && PRIMES[4][5] == 163
    ensures KAt(38) == 0x81c2c92e && PRIMES[4][6] == 167
    ensures KAt(39) == 0x92722c85 && PRIMES[4][7] == 173
  {
  }

  lemma Roots40()
    ensures forall t :: 40 <= t < 48 ==> CubeRoot(KAt(t), PRIMES[t / 8][t % 8])
  {
    hide CubeRoot, CubeRootWith;
    Entries40();
    CubeRootIs(0xa2bfe8a1, 179, 5);
    CubeRootIs(0xa81a664b, 181, 5);
    CubeRootIs(0xc24b8b70, 191, 5);
    CubeRootIs(0xc76c51a3, 193, 5);
    CubeRootIs(0xd192e819, 197, 5);
    CubeRootIs(0xd6990624, 199, 5);
    CubeRootIs(0xf40e3585, 211, 5);
    CubeRootIs(0x106aa070, 223, 6);
  }

  lemma Entries40()
    ensures KAt(40) == 0xa2bfe8a1 && PRIMES[5][0] == 179
    ensures KAt(41) == 0xa81a664b && PRIMES[5][1] == 181
    ensures KAt(42) == 0xc24b8b70 && PRIMES[5][2] == 191
    ensures KAt(43) == 0xc76c51a3 && PRIMES[5][3] == 193
    ensures KAt(44) == 0xd192e819 && PRIMES[5][4] == 197
    ensures KAt(45) == 0xd6990624 && PRIMES[5][5] == 199
    ensures KAt(46) == 0xf40e3585 && PRIMES[5][6] == 211
    ensures KAt(47) == 0x106aa070 && PRIMES[5][7] == 223
  {
  }

  lemma Roots48()
    ensures forall t :: 48 <= t < 56 ==> CubeRoot(KAt(t), PRIMES[t / 8][t % 8])
  {
    hide CubeRoot, CubeRootWith;
    Entries48();
    CubeRootIs(0x19a4c116, 227, 6);
    CubeRootIs(0x1e376c08, 229, 6);
    CubeRootIs(0x2748774c, 233, 6);
    CubeRootIs(0x34b0bcb5, 239, 6);
    CubeRootIs(0x391c0cb3, 241, 6);
    CubeRootIs(0x4ed8aa4a, 251, 6);
    CubeRootIs(0x5b9cca4f, 257, 6);
    CubeRootIs(0x682e6ff3, 263, 6);
  }

  lemma Entries48()
    ensures KAt(48) == 0x19a4c116 && PRIMES[6][0] == 227
    ensures KAt(49) == 0x1e376c08 && PRIMES[6][1] == 229
    ensures KAt(50) == 0x2748774c && PRIMES[6][2] == 233
    ensures KAt(51) == 0x34b0bcb5 && PRIMES[6][3] == 239
    ensures KAt(52) == 0x391c0cb3 && PRIMES[6][4] == 241
    ensures KAt(53) == 0x4ed8aa4a && PRIMES[6][5] == 251
    ensures KAt(54) == 0x5b9cca4f && PRIMES[6][6] == 257
    ensures KAt(55) == 0x682e6ff3 && PRIMES[6][7] == 263
  {
  }

  lemma Roots56()
    ensures forall t :: 56 <= t < 64 ==> CubeRoot(KAt(t), PRIMES[t / 8][t % 8])
  {
    hide CubeRoot, CubeRootWith;
    Entries56();
    CubeRootIs(0x748f82ee, 269, 6);
    CubeRootIs(0x78a5636f, 271, 6);
    CubeRootIs(0x84c87814, 277, 6);
    CubeRootIs(0x8cc70208, 281, 6);
    CubeRootIs(0x90befffa, 283, 6);
    CubeRootIs(0xa4506ceb, 293, 6);
    CubeRootIs(0xbef9a3f7, 307, 6);
    CubeRootIs(0xc67178f2, 311, 6);
  }

  lemma Entries56()
    ensures KAt(56) == 0x748f82ee && PRIMES[7][0] == 269
    ensures KAt(57) == 0x78a5636f && PRIMES[7][1] == 271
    ensures KAt(58) == 0x84c87814 && PRIMES[7][2] == 277
    ensures KAt(59) == 0x8cc70208 && PRIMES[7][3] == 281
    ensures KAt(60) == 0x90befffa && PRIMES[7][4] == 283
    ensures KAt(61) == 0xa4506ceb && PRIMES[7][5] == 293
    ensures KAt(62) == 0xbef9a3f7 && PRIMES[7][6] == 307
    ensures KAt(63) == 0xc67178f2 && PRIMES[7][7] == 311
  {
  }

  /** Section 4.2.2: every constant is the cube root of its prime. */
  lemma ConstantIsRoot(t: nat)
    requires t < 64
    ensures CubeRoot(KAt(t), PRIMES[t / 8][t % 8])
  {
    hide CubeRoot, KAt;
    if t < 8 {
      Roots0();
    } else if t < 16 {
      Roots8();
    } else if t < 24 {
      Roots16();
    } else if t < 32 {
      Roots24();
    } else if t < 40 {
      Roots32();
    } else if t < 48 {
      Roots40();
    } else if t < 56 {
      Roots48();
    } else {
      Roots56();
    }
  }

  /** Section 5.3.2: the words of the initial hash value are the square roots of the first eight primes. */
  lemma InitialIsRoot()
    ensures SquareRoot(H0.a, 2) && SquareRoot(H0.b, 3) && SquareRoot(H0.c, 5) && SquareRoot(H0.d, 7)
    ensures SquareRoot(H0.e, 11) && SquareRoot(H0.f, 13) && SquareRoot(H0.g, 17) && SquareRoot(H0.h, 19)
  {
    hide SquareRoot, SquareRootWith;
    SquareRootIs(0x6a09e667, 2, 1);
    SquareRootIs(0xbb67ae85, 3, 1);
    SquareRootIs(0x3c6ef372, 5, 2);
    SquareRootIs(0xa54ff53a, 7, 2);
    SquareRootIs(0x510e527f, 11, 3);
    SquareRootIs(0x9b05688c, 13, 3);
    SquareRootIs(0x1f83d9ab, 17, 4);
    SquareRootIs(0x5be0cd19, 19, 4);
  }
}
