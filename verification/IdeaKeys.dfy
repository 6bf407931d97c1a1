/** The IDEA key schedules (libsec/idea.c): windows on a turning key, and the inverse schedule. */
module IdeaKeys {
  import opened CTypes
  import opened Idea
  import opened IdeaCipher

  // ------------------------------------------------------- the bits of a key

  /** The bits of the key, most significant first, as a ring of 128. */
  function KeyBit(key: seq<Byte>, n: nat): (r: nat)
    requires |key| == 16
    ensures r < 2
  {
    var m := n % 128;
    key[m / 8] / Two(7 - m % 8) % 2
  }

  /** The number written by the n bits of the key from p on. */
  function Window(key: seq<Byte>, p: nat, n: nat): (r: nat)
    requires |key| == 16
    ensures r < Two(n)
  {
    if n == 0 then 0 else 2 * Window(key, p, n - 1) + KeyBit(key, p + n - 1)
  }

  lemma {:induction false} WindowJoin(key: seq<Byte>, p: nat, m: nat, n: nat)
    requires |key| == 16
    ensures Window(key, p, m + n) == Window(key, p, m) * Two(n) + Window(key, p + m, n)
  {
    hide KeyBit;
    if n > 0 {
      WindowJoin(key, p, m, n - 1);
      assert Window(key, p, m + n) == 2 * Window(key, p, m + (n - 1)) + KeyBit(key, p + m + n - 1);
      assert Window(key, p + m, n) == 2 * Window(key, p + m, n - 1) + KeyBit(key, p + m + n - 1);
      assert Two(n) == 2 * Two(n - 1);
      hide Window, Two;
      Doubling(Window(key, p, m), Two(n - 1));
    }
  }

  lemma Doubling(a: nat, t: nat)
    ensures a * (2 * t) == 2 * (a * t)
  {
  }

  lemma {:induction false} WindowTurns(key: seq<Byte>, p: nat, q: nat, n: nat)
    requires |key| == 16 && p % 128 == q % 128
    ensures Window(key, p, n) == Window(key, q, n)
  {
    if n > 0 {
      WindowTurns(key, p, q, n - 1);
      SameBit(key, p, q, n - 1);
      hide KeyBit;
      assert Window(key, p, n) == 2 * Window(key, p, n - 1) + KeyBit(key, p + n - 1);
    }
  }

  lemma SameBit(key: seq<Byte>, p: nat, q: nat, d: nat)
    requires |key| == 16 && p % 128 == q % 128
    ensures KeyBit(key, p + d) == KeyBit(key, q + d)
  {
    SameTurn(p, q, d);
  }

  lemma SameTurn(p: nat, q: nat, d: nat)
    requires p % 128 == q % 128
    ensures (p + d) % 128 == (q + d) % 128
  {
  }

  /** A byte is its eight bits. */
  lemma {:induction false} ByteBits(key: seq<Byte>, b: nat, n: nat)
    requires |key| == 16 && b < 16 && n <= 8
    ensures Window(key, 8 * b, n) == key[b] / Two(8 - n)
  {
    hide KeyBit, Two;
    if n == 0 {
      Sizes();
    } else {
      ByteBits(key, b, n - 1);
      BitAt(key, b, n - 1);
      HalveAgain(key[b], 8 - n);
    }
  }

  lemma BitAt(key: seq<Byte>, b: nat, n: nat)
    requires |key| == 16 && b < 16 && n < 8
    ensures KeyBit(key, 8 * b + n) == key[b] / Two(7 - n) % 2
  {
    var m := 8 * b + n;
    assert m % 128 == m && m / 8 == b && m % 8 == n;
  }

  lemma HalveAgain(x: nat, n: nat)
    requires n < 8
    ensures x / Two(n) == 2 * (x / Two(n + 1)) + x / Two(n) % 2
  {
    assert Two(1) == 2 && Two(2) == 4 && Two(3) == 8 && Two(4) == 16;
    assert Two(5) == 32 && Two(6) == 64 && Two(7) == 128 && Two(8) == 256;
    if n == 0 { } else if n == 1 { } else if n == 2 { } else if n == 3 { }
    else if n == 4 { } else if n == 5 { } else if n == 6 { } else { }
  }

  lemma FirstWords(key: seq<Byte>, i: nat)
    requires |key| == 16 && i < 8
    ensures Window(key, 16 * i, 16) == Big(key[2*i], key[2*i+1])
  {
    hide Window;
    assert Two(0) == 1;
    hide Two;
    WindowJoin(key, 16 * i, 8, 8);
    ByteBits(key, 2 * i, 8);
    ByteBits(key, 2 * i + 1, 8);
    Sizes();
  }

  // ----------------------------------------------------- encryption schedule

  /** Where word i of the schedule begins: the key turns by 25 bits after every eight words. */
  function Place(i: nat): nat
  {
    16 * (i % 8) + 25 * (i / 8)
  }

  function Turned(key: seq<Byte>, i: nat): Word
    requires |key| == 16
  {
    Sizes();
    Window(key, Place(i), 16)
  }

  /** The encryption key: 52 windows, with those at 49 and 50 exchanged. */
  function Schedule(key: seq<Byte>): (r: seq<Word>)
    requires |key| == 16
    ensures |r| == KEYLEN
  {
    seq<Word>(KEYLEN, (i: nat) => Turned(key, if i == 49 then 50 else if i == 50 then 49 else i))
  }

  /** The low 7 bits of one word and the high 9 of the one after it. */
  function Shifted(x: Word, y: Word): Word
  {
    x * 512 % MODA + y / 128
  }

  lemma ShiftedWindow(key: seq<Byte>, p: nat, q: nat, x: Word, y: Word)
    requires |key| == 16 && x == Window(key, p, 16) && y == Window(key, q, 16) && q % 128 == (p + 16) % 128
    ensures Shifted(x, y) == Window(key, p + 9, 16)
  {
    WindowTurns(key, q, p + 16, 16);
    WindowJoin(key, p, 9, 7);
    WindowJoin(key, p + 16, 9, 7);
    WindowJoin(key, p + 9, 7, 9);
    var a, b, c, d := Window(key, p, 9), Window(key, p + 9, 7), Window(key, p + 16, 9), Window(key, p + 25, 7);
    Powers();
    hide Window;
    Halved(a, b, c, d);
  }

  lemma Powers()
    ensures Two(7) == 128 && Two(9) == 512
  {
    assert Two(4) == 16;
    assert Two(7) == 128;
    assert Two(9) == 4 * Two(7);
  }

  lemma Halved(a: nat, b: nat, c: nat, d: nat)
    requires b < 128 && d < 128
    ensures (a * 128 + b) * 512 % MODA == b * 512 && (c * 128 + d) / 128 == c
  {
    assert (a * 128 + b) * 512 == a * MODA + b * 512;
  }

  /** The first word of the turn before that of word i. */
  function Back(i: nat): (r: int)
    ensures i >= 8 ==> r >= 0
  {
    i / 8 * 8 - 8
  }

  lemma BackNext(i: nat)
    ensures Back(i + 1) == Back(i) + (if (i + 1) % 8 == 0 then 8 else 0)
  {
    var r, c := i / 8, i % 8;
    assert i + 1 == 8 * r + (c + 1);
    if c == 7 {
      assert (i + 1) / 8 == r + 1 && (i + 1) % 8 == 0;
    } else {
      assert (i + 1) / 8 == r && (i + 1) % 8 == c + 1;
    }
  }

  lemma FirstBack()
    ensures Back(8) == 0
  {
  }

  /** The two words that word i is made of are those of its predecessors, one turn of the key back. */
  lemma NextPlace(i: nat)
    requires i >= 8
    ensures var e := Back(i);
      && (Place(e + (i - 7) % 8) + 9) % 128 == Place(i) % 128
      && Place(e + (i - 6) % 8) % 128 == (Place(e + (i - 7) % 8) + 16) % 128
      && e + (i - 7) % 8 < i && e + (i - 6) % 8 < i
  {
    hide Place, Back;
    var r, c := i / 8, i % 8;
    Neighbours(i, r, c);
    PlaceAt(r, c);
    PlaceAt(r - 1, Next(c));
    PlaceAt(r - 1, Next(Next(c)));
    if c == 7 {
      WholeTurn(Place(Back(i) + Next(c)) + 9);
    } else if c == 6 {
      WholeTurn(Place(Back(i) + Next(Next(c))));
    }
  }

  function Next(c: nat): nat
  {
    if c == 7 then 0 else c + 1
  }

  lemma Neighbours(i: nat, r: nat, c: nat)
    requires i >= 8 && r == i / 8 && c == i % 8
    ensures i == 8 * r + c && Back(i) == 8 * (r - 1) && (i - 7) % 8 == Next(c) && (i - 6) % 8 == Next(Next(c))
  {
  }

  lemma WholeTurn(p: nat)
    ensures (p + 128) % 128 == p % 128
  {
  }

  lemma PlaceAt(r: nat, c: nat)
    requires c < 8
    ensures Place(8 * r + c) == 16 * c + 25 * r
  {
    assert (8 * r + c) / 8 == r && (8 * r + c) % 8 == c;
  }

  lemma NextWord(key: seq<Byte>, i: nat, x: Word, y: Word)
    requires |key| == 16 && i >= 8
    requires var e := Back(i); x == Turned(key, e + (i - 7) % 8) && y == Turned(key, e + (i - 6) % 8)
    ensures Shifted(x, y) == Turned(key, i)
  {
    hide Shifted, Window, Place;
    NextPlace(i);
    var e := Back(i);
    var p := Place(e + (i - 7) % 8);
    ShiftedWindow(key, p, Place(e + (i - 6) % 8), x, y);
    WindowTurns(key, p + 9, Place(i), 16);
  }

  // ----------------------------------------------------- decryption schedule

  /** The six words from dk + 6 * t on are set. */
  ghost predicate Undone(e: seq<Word>, t: nat)
    requires |e| == 2 * KEYLEN && t <= 8
  {
    Undoes(e[..KEYLEN], e[KEYLEN..], t)
  }

  lemma UndoneSame(e: seq<Word>, f: seq<Word>, t: nat)
    requires |e| == |f| == 2 * KEYLEN && t <= 8 && Undone(e, t)
    requires e[..KEYLEN] == f[..KEYLEN]
    requires forall i :: KEYLEN <= i < KEYLEN + 6 * (t + 1) && i < 2 * KEYLEN ==> e[i] == f[i]
    ensures Undone(f, t)
  {
    hide Inverse, Minus;
    var d, g := e[KEYLEN..], f[KEYLEN..];
    assert forall i :: 6 * t <= i < 6 * (t + 1) && i < KEYLEN ==> d[i] == g[i];
  }

  /** Sets the second half of e to what undoes the first. */
  method idea_key_setup_decrypt(e: array<Word>)
    requires e.Length == 2 * KEYLEN
    modifies e
    ensures e[..KEYLEN] == old(e[..KEYLEN])
    ensures DecryptKey(e[..KEYLEN], e[KEYLEN..])
  {
    hide Inverse, Minus, Undone;
    var i := 0;
    while i < 54
      invariant 0 <= i <= 54 && i % 6 == 0
      invariant e[..KEYLEN] == old(e[..KEYLEN])
      invariant forall t :: 0 <= t < i / 6 ==> Undone(e[..], t)
    {
      ghost var before := e[..];
      ghost var n := i / 6;
      setSix(e, i);
      forall t | 0 <= t <= n ensures Undone(e[..], t) {
        if t < n { UndoneSame(before, e[..], t); }
      }
      i := i + 6;
    }
    Finished(e[..]);
  }

  lemma Finished(e: seq<Word>)
    requires |e| == 2 * KEYLEN && forall t :: 0 <= t < 9 ==> Undone(e, t)
    ensures DecryptKey(e[..KEYLEN], e[KEYLEN..])
  {
    hide Undoes;
    forall t | 0 <= t <= 8 ensures Undoes(e[..KEYLEN], e[KEYLEN..], t) {
      assert Undone(e, t);
    }
  }

  /** One turn of the loop: four words for an odd round, and two for an even one unless it was the last. */
  method setSix(e: array<Word>, i: nat)
    requires e.Length == 2 * KEYLEN && i < 54 && i % 6 == 0
    modifies e
    ensures e[..KEYLEN] == old(e[..KEYLEN])
    ensures forall n :: KEYLEN <= n < KEYLEN + i ==> e[n] == old(e[n])
    ensures Undone(e[..], i / 6)
  {
    hide Inverse, Minus;
    e[KEYLEN+i] := inv(e[48-i]);
    e[KEYLEN+i+1] := Minus(e[50-i]);
    e[KEYLEN+i+2] := Minus(e[49-i]);
    e[KEYLEN+i+3] := inv(e[51-i]);
    if i < 48 {
      e[KEYLEN+i+4] := e[46-i];
      e[KEYLEN+i+5] := e[47-i];
    }
    ghost var t := i / 6;
    assert i == 6 * t;
    ghost var d := e[KEYLEN..];
    assert d[i] == e[KEYLEN+i] && d[i+1] == e[KEYLEN+i+1] && d[i+2] == e[KEYLEN+i+2] && d[i+3] == e[KEYLEN+i+3];
    assert e[..][..KEYLEN] == e[..KEYLEN] && e[..][KEYLEN..] == d;
  }

  /** Both schedules of a key. */
  method idea_key_setup(key: array<Byte>, ek: array<Word>)
    requires key.Length == 16 && ek.Length == 2 * KEYLEN && key as object != ek as object
    modifies ek
    ensures ek[..KEYLEN] == Schedule(key[..])
    ensures DecryptKey(ek[..KEYLEN], ek[KEYLEN..])
  {
    hide DecryptKey, Turned, Big, Shifted, Back, Place;
    ghost var k := key[..];
    for i := 0 to 8
      invariant forall n :: 0 <= n < i ==> ek[n] == Turned(k, n)
    {
      WordIs(k, i);
      ek[i] := Big(key[2*i], key[2*i+1]);
    }
    var e, j := 0, 1;
    FirstBack();
    for i := 8 to KEYLEN
      invariant e == Back(i) && j == i - 7
      invariant forall n :: 0 <= n < i ==> ek[n] == Turned(k, n)
    {
      NextPlace(i);
      NextWord(k, i, ek[e + j % 8], ek[e + (j + 1) % 8]);
      ek[i] := Shifted(ek[e + j % 8], ek[e + (j + 1) % 8]);
      if (i + 1) % 8 == 0 {
        e := e + 8;
      }
      BackNext(i);
      j := j + 1;
    }
    var tmp := ek[49];
    ek[49] := ek[50];
    ek[50] := tmp;
    assert ek[..KEYLEN] == Schedule(k);
    idea_key_setup_decrypt(ek);
  }

  lemma WordIs(key: seq<Byte>, i: nat)
    requires |key| == 16 && i < 8
    ensures Turned(key, i) == Big(key[2*i], key[2*i+1])
  {
    FirstWords(key, i);
    assert Place(i) == 16 * i;
  }
}
