/** The IDEA block cipher: its rounds, and why the inverse key undoes them (libsec/idea.c). */
module IdeaCipher {
  import opened CTypes
  import opened NumberTheory
  import opened Idea

  // ------------------------------------------------------------ exclusive or

  function Two(n: nat): (r: nat)
    ensures r > 0
  {
    if n == 0 then 1 else 2 * Two(n - 1)
  }

  /** The exclusive or of the low n bits. */
  function Xor(a: nat, b: nat, n: nat): (r: nat)
    ensures r < Two(n)
  {
    if n == 0 then 0 else 2 * Xor(a / 2, b / 2, n - 1) + (a + b) % 2
  }

  /** The two parts of a number. */
  lemma Halves(h: nat, t: nat)
    requires t < 2
    ensures (2 * h + t) / 2 == h && (2 * h + t) % 2 == t
  {
  }

  lemma XorParts(a: nat, b: nat, n: nat)
    requires n > 0
    ensures Xor(a, b, n) / 2 == Xor(a / 2, b / 2, n - 1) && Xor(a, b, n) % 2 == (a + b) % 2
  {
    Halves(Xor(a / 2, b / 2, n - 1), (a + b) % 2);
  }

  lemma XorStep(a: nat, b: nat, n: nat)
    requires n > 0
    ensures Xor(a, b, n) == 2 * Xor(a / 2, b / 2, n - 1) + (a + b) % 2
    ensures Two(n) == 2 * Two(n - 1)
  {
  }

  /** Adding the same number twice does not change a parity, nor does adding it to both sides. */
  lemma Parity(x: nat, a: nat, y: nat, b: nat, c: nat)
    requires x % 2 == (a + c) % 2 && y % 2 == (b + c) % 2
    ensures (x + c) % 2 == a % 2 && (x + y) % 2 == (a + b) % 2
  {
  }

  /** Twice with the same number is nothing. */
  lemma {:induction false} XorTwice(a: nat, b: nat, n: nat)
    requires a < Two(n)
    ensures Xor(Xor(a, b, n), b, n) == a
  {
    if n > 0 {
      var x := Xor(a, b, n);
      hide Xor, Two;
      XorParts(a, b, n);
      XorStep(x, b, n);
      XorTwice(a / 2, b / 2, n - 1);
      Parity(x, a, x, a, b);
    }
  }

  /** The same number in both sides cancels. */
  lemma {:induction false} XorBoth(a: nat, b: nat, y: nat, n: nat)
    ensures Xor(Xor(a, y, n), Xor(b, y, n), n) == Xor(a, b, n)
  {
    if n > 0 {
      var p, q := Xor(a, y, n), Xor(b, y, n);
      hide Xor, Two;
      XorParts(a, y, n);
      XorParts(b, y, n);
      XorStep(p, q, n);
      XorStep(a, b, n);
      XorBoth(a / 2, b / 2, y / 2, n - 1);
      Parity(p, a, q, b, y);
    }
  }

  lemma Sizes()
    ensures Two(8) == 256 && Two(16) == MODA
  {
    assert Two(8) == 256;
    assert Two(12) == 16 * Two(8);
    assert Two(16) == 16 * Two(12);
  }

  function XorWord(a: Word, b: Word): Word
  {
    Sizes();
    Xor(a, b, 16)
  }

  function XorByte(a: Byte, b: Byte): Byte
  {
    Sizes();
    Xor(a, b, 8)
  }

  // ------------------------------------------------------------------ rounds

  /** The four words of a block. */
  datatype Quad = Quad(a: Word, b: Word, c: Word, d: Word)

  /** An odd round: multiply, add, and exchange the middle words. */
  function Turn(q: Quad, k0: Word, k1: Word, k2: Word, k3: Word): Quad
  {
    Quad(mod(q.a, k0), Ushort(q.c + k2), Ushort(q.b + k1), mod(q.d, k3))
  }

  /** An even round: the words are mixed with two numbers made of their differences. */
  function Mix(q: Quad, k0: Word, k1: Word): Quad
  {
    var tmp := mod(k0, XorWord(q.a, q.b));
    var yout := mod(Ushort(tmp + XorWord(q.c, q.d)), k1);
    var zout := Ushort(tmp + yout);
    Quad(XorWord(q.a, yout), XorWord(q.b, yout), XorWord(q.c, zout), XorWord(q.d, zout))
  }

  function Round(k: seq<Word>, i: nat, q: Quad): Quad
    requires |k| == KEYLEN && i < 17
  {
    if i % 2 == 0 then Turn(q, k[3*i], k[3*i+1], k[3*i+2], k[3*i+3]) else Mix(q, k[3*i+1], k[3*i+2])
  }

  /** The first n rounds. */
  function Rounds(k: seq<Word>, n: nat, q: Quad): Quad
    requires |k| == KEYLEN && n <= 17
  {
    if n == 0 then q else Round(k, n - 1, Rounds(k, n - 1, q))
  }

  lemma ProductBack(x: int, k: int, k': int, y: int, z: int)
    requires Cong(y, x * k, P) && Cong(z, y * k', P) && Cong(k * k', 1, P)
    ensures Cong(z, x, P)
  {
    CongMul(y, x * k, k', k', P);
    CongMul(x, x, k * k', 1, P);
    assert x * k * k' == x * (k * k');
  }

  lemma ModBack(x: Word, k: Word, k': Word)
    requires Inverse(k, k')
    ensures mod(mod(x, k), k') == x
  {
    var y := mod(x, k);
    ModIsProduct(x, k);
    ModIsProduct(y, k');
    hide mod, V, Cong;
    ProductBack(V(x), V(k), V(k'), V(y), V(mod(y, k')));
    ResidueOf(mod(y, k'), x);
  }

  /** The word to add to take k away. */
  function Minus(k: Word): Word
  {
    var n: int := k;
    Ushort(-n)
  }

  lemma AddBack(x: Word, k: Word)
    ensures Ushort(Ushort(x + k) + Minus(k)) == x
  {
  }

  lemma TurnBack(q: Quad, k0: Word, k1: Word, k2: Word, k3: Word, l0: Word, l3: Word)
    requires Inverse(k0, l0) && Inverse(k3, l3)
    ensures Turn(Turn(q, k0, k1, k2, k3), l0, Minus(k2), Minus(k1), l3) == q
  {
    hide mod, Inverse, Ushort, Minus;
    ModBack(q.a, k0, l0);
    ModBack(q.d, k3, l3);
    AddBack(q.b, k1);
    AddBack(q.c, k2);
  }

  lemma MixBack(q: Quad, k0: Word, k1: Word)
    ensures Mix(Mix(q, k0, k1), k0, k1) == q
  {
    hide mod, Xor;
    Sizes();
    var tmp := mod(k0, XorWord(q.a, q.b));
    var yout := mod(Ushort(tmp + XorWord(q.c, q.d)), k1);
    var zout := Ushort(tmp + yout);
    XorBoth(q.a, q.b, yout, 16);
    XorBoth(q.c, q.d, zout, 16);
    XorTwice(q.a, yout, 16);
    XorTwice(q.b, yout, 16);
    XorTwice(q.c, zout, 16);
    XorTwice(q.d, zout, 16);
  }

  /** dk undoes what ek does: its six keys from t * 6 on belong to those of ek from 48 - t * 6 on. */
  ghost predicate Undoes(ek: seq<Word>, dk: seq<Word>, t: nat)
    requires |ek| == |dk| == KEYLEN && t <= 8
  {
    var i, j := 6 * t, 48 - 6 * t;
    && Inverse(ek[j], dk[i]) && dk[i+1] == Minus(ek[j+2]) && dk[i+2] == Minus(ek[j+1]) && Inverse(ek[j+3], dk[i+3])
    && (t < 8 ==> dk[i+4] == ek[j-2] && dk[i+5] == ek[j-1])
  }

  ghost predicate DecryptKey(ek: seq<Word>, dk: seq<Word>)
    requires |ek| == |dk| == KEYLEN
  {
    forall t :: 0 <= t <= 8 ==> Undoes(ek, dk, t)
  }

  lemma RoundBack(ek: seq<Word>, dk: seq<Word>, i: nat, q: Quad)
    requires |ek| == |dk| == KEYLEN && DecryptKey(ek, dk) && i < 17
    ensures Round(dk, i, Round(ek, 16 - i, q)) == q
  {
    hide Turn, Mix, Inverse;
    var t, j := i / 2, 16 - i;
    assert Undoes(ek, dk, t);
    if i % 2 == 0 {
      TurnBack(q, ek[3*j], ek[3*j+1], ek[3*j+2], ek[3*j+3], dk[3*i], dk[3*i+3]);
    } else {
      MixBack(q, ek[3*j+1], ek[3*j+2]);
    }
  }

  lemma {:induction false} RoundsBack(ek: seq<Word>, dk: seq<Word>, n: nat, q: Quad)
    requires |ek| == |dk| == KEYLEN && DecryptKey(ek, dk) && n <= 17
    ensures Rounds(dk, n, Rounds(ek, 17, q)) == Rounds(ek, 17 - n, q)
  {
    hide Round, DecryptKey;
    if n > 0 {
      RoundsBack(ek, dk, n - 1, q);
      RoundBack(ek, dk, n - 1, Rounds(ek, 17 - n, q));
    }
  }

  // ------------------------------------------------------------------ blocks

  function Big(x: Byte, y: Byte): Word
  {
    256 * x + y
  }

  function Pack(s: seq<Byte>): Quad
    requires |s| == 8
  {
    Quad(Big(s[0], s[1]), Big(s[2], s[3]), Big(s[4], s[5]), Big(s[6], s[7]))
  }

  function Unpack(q: Quad): (r: seq<Byte>)
    ensures |r| == 8
  {
    [q.a / 256, q.a % 256, q.b / 256, q.b % 256, q.c / 256, q.c % 256, q.d / 256, q.d % 256]
  }

  /** What the cipher makes of a block. */
  function Cipher(k: seq<Word>, s: seq<Byte>): (r: seq<Byte>)
    requires |k| == KEYLEN && |s| == 8
    ensures |r| == 8
  {
    Unpack(Rounds(k, 17, Pack(s)))
  }

  lemma PackUnpack(s: seq<Byte>, q: Quad)
    requires |s| == 8
    ensures Unpack(Pack(s)) == s && Pack(Unpack(q)) == q
  {
  }

  /** Decryption undoes encryption on every block. */
  lemma CipherBack(ek: seq<Word>, dk: seq<Word>, s: seq<Byte>)
    requires |ek| == |dk| == KEYLEN && DecryptKey(ek, dk) && |s| == 8
    ensures Cipher(dk, Cipher(ek, s)) == s
  {
    hide Rounds, Pack, Unpack;
    var q := Pack(s);
    PackUnpack(s, Rounds(ek, 17, q));
    RoundsBack(ek, dk, 17, q);
    assert Rounds(ek, 0, q) == q by { NoRounds(ek, q); }
  }

  lemma NoRounds(k: seq<Word>, q: Quad)
    requires |k| == KEYLEN
    ensures Rounds(k, 0, q) == q
  {
  }

  lemma XorBit(a: nat, b: nat, n: nat, s: nat, t: nat)
    requires s < 2 && t < 2
    ensures Xor(2 * a + s, 2 * b + t, n + 1) == 2 * Xor(a, b, n) + (if s == t then 0 else 1)
  {
    hide Xor, Two;
    Halves(a, s);
    Halves(b, t);
    XorStep(2 * a + s, 2 * b + t, n + 1);
  }

  lemma {:induction false} XorNone(b: nat, n: nat)
    requires b < Two(n)
    ensures Xor(0, b, n) == b
  {
    if n > 0 { XorNone(b / 2, n - 1); }
  }

  /** The exclusive ors of the first round of the published example. */
  lemma ExampleXors()
    ensures XorWord(0, 5) == 5 && XorWord(3, 12) == 15
    ensures XorWord(0, 240) == 240 && XorWord(5, 240) == 245 && XorWord(3, 265) == 266 && XorWord(12, 265) == 261
  {
    hide Xor;
    Sizes();
    XorNone(5, 16);
    XorNone(240, 16);
    XorNone(3, 14);
    XorBit(0, 3, 14, 1, 0);
    XorBit(1, 6, 15, 1, 0);
    XorNone(30, 13);
    XorBit(0, 30, 13, 1, 0);
    XorBit(1, 60, 14, 0, 0);
    XorBit(2, 120, 15, 1, 0);
    XorNone(66, 14);
    XorBit(0, 66, 14, 1, 0);
    XorBit(1, 132, 15, 1, 1);
    XorNone(16, 12);
    XorBit(0, 16, 12, 1, 1);
    XorBit(1, 33, 13, 1, 0);
    XorBit(3, 66, 14, 0, 0);
    XorBit(6, 132, 15, 0, 1);
  }

  /** The first round of the published example: the key words 1 to 6 take the words 0 to 3 to 00F0 00F5 010A 0105. */
  lemma FirstRoundOfExample(k: seq<Word>)
    requires |k| == KEYLEN && k[0] == 1 && k[1] == 2 && k[2] == 3 && k[3] == 4 && k[4] == 5 && k[5] == 6
    ensures Rounds(k, 2, Pack([0, 0, 0, 1, 0, 2, 0, 3])) == Quad(0x00F0, 0x00F5, 0x010A, 0x0105)
  {
    hide Rounds, Turn, Mix, Pack;
    var q := Quad(0, 1, 2, 3);
    ExamplePack();
    NoRounds(k, q);
    RoundsNext(k, 0, q);
    RoundsNext(k, 1, q);
    ExampleTurn();
    ExampleMix();
  }

  lemma ExamplePack()
    ensures Pack([0, 0, 0, 1, 0, 2, 0, 3]) == Quad(0, 1, 2, 3)
  {
    var s := [0, 0, 0, 1, 0, 2, 0, 3];
    assert Pack(s).a == 0 && Pack(s).b == 1 && Pack(s).c == 2 && Pack(s).d == 3;
  }

  lemma ExampleTurn()
    ensures Turn(Quad(0, 1, 2, 3), 1, 2, 3, 4) == Quad(0, 5, 3, 12)
  {
  }

  lemma ExampleMix()
    ensures Mix(Quad(0, 5, 3, 12), 5, 6) == Quad(240, 245, 266, 261)
  {
    hide XorWord, Xor;
    ExampleXors();
    assert mod(5, 5) == 25 && mod(40, 6) == 240;
  }

  /** The seventeen rounds, on the four words of x. */
  method rounds(k: seq<Word>, x: array<Word>)
    requires |k| == KEYLEN && x.Length == 4
    modifies x
    ensures Quad(x[0], x[1], x[2], x[3]) == Rounds(k, 17, old(Quad(x[0], x[1], x[2], x[3])))
  {
    hide Rounds, Xor, mod;
    ghost var q := Quad(x[0], x[1], x[2], x[3]);
    NoRounds(k, q);
    for i := 0 to 17
      invariant Quad(x[0], x[1], x[2], x[3]) == Rounds(k, i, q)
    {
      RoundsNext(k, i, q);
      if i % 2 == 0 {
        x[0] := mod(x[0], k[3*i]);
        var x1: int, x2: int := x[1], x[2];
        var tmp := Ushort(x2 + k[3*i+2]);
        x[2] := Ushort(x1 + k[3*i+1]);
        x[3] := mod(x[3], k[3*i+3]);
        x[1] := tmp;
      } else {
        var tmp := mod(k[3*i+1], XorWord(x[0], x[1]));
        var yout := mod(Ushort(tmp + XorWord(x[2], x[3])), k[3*i+2]);
        var zout := Ushort(tmp + yout);
        x[0] := XorWord(x[0], yout);
        x[1] := XorWord(x[1], yout);
        x[2] := XorWord(x[2], zout);
        x[3] := XorWord(x[3], zout);
      }
    }
  }

  /** The cipher on the eight bytes of text from p on, in place. */
  method idea_cipher(key: array<Word>, text: array<Byte>, p: nat, decrypting: bool)
    requires key.Length == 2 * KEYLEN && p + 8 <= text.Length
    requires key as object != text as object
    modifies text
    ensures text[..] == old(text[..p] + Cipher(if decrypting then key[KEYLEN..] else key[..KEYLEN], text[p..p+8]) + text[p+8..])
  {
    hide Rounds, Cipher, Pack, Unpack, Xor, mod;
    var k := if decrypting then key[KEYLEN..] else key[..KEYLEN];
    var x := new Word[4];
    ghost var s := text[p..p+8];
    loadWords(text, p, x);
    rounds(k, x);
    storeWords(x, text, p);
    CipherIs(k, s);
  }

  method loadWords(text: array<Byte>, p: nat, x: array<Word>)
    requires p + 8 <= text.Length && x.Length == 4 && x as object != text as object
    modifies x
    ensures Quad(x[0], x[1], x[2], x[3]) == Pack(text[p..p+8])
  {
    for i := 0 to 4
      modifies x
      invariant forall n :: 0 <= n < i ==> x[n] == Big(text[p+2*n], text[p+2*n+1])
    {
      x[i] := Big(text[p+2*i], text[p+2*i+1]);
    }
  }

  method storeWords(x: array<Word>, text: array<Byte>, p: nat)
    requires p + 8 <= text.Length && x.Length == 4 && x as object != text as object
    modifies text
    ensures text[..] == old(text[..p]) + Unpack(Quad(x[0], x[1], x[2], x[3])) + old(text[p+8..])
  {
    ghost var t0, r := text[..], Unpack(Quad(x[0], x[1], x[2], x[3]));
    for i := 0 to 4
      modifies text
      invariant forall n :: 0 <= n < 2 * i ==> text[p+n] == r[n]
      invariant forall n :: 0 <= n < text.Length && !(p <= n < p + 2 * i) ==> text[n] == t0[n]
    {
      text[p+2*i] := x[i] / 256;
      text[p+2*i+1] := x[i] % 256;
    }
    hide Unpack;
    assert text[..] == t0[..p] + r + t0[p+8..];
  }

  lemma RoundsNext(k: seq<Word>, i: nat, q: Quad)
    requires |k| == KEYLEN && i < 17
    ensures Rounds(k, i + 1, q) == Round(k, i, Rounds(k, i, q))
  {
  }

  lemma CipherIs(k: seq<Word>, s: seq<Byte>)
    requires |k| == KEYLEN && |s| == 8
    ensures Cipher(k, s) == Unpack(Rounds(k, 17, Pack(s)))
  {
  }
}
