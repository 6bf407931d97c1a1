/** UTF-8 as the C library reads and writes it (libc/rune.c). */
module Utf {
  import opened CTypes

  /** Code points that have an encoding of their own. */
  type Rune = r: int | 0 <= r <= 0x10FFFF && !(0xD800 <= r <= 0xDFFF)

  const RUNEERROR: Rune := 0xFFFD
  const RUNESELF: int := 0x80

  /** The bytes of a rune. */
  function Runetochar(c: Rune): (r: seq<Byte>)
    ensures 1 <= |r| <= 4 && (|r| == 1 <==> c < RUNESELF)
    ensures c < RUNESELF ==> r == [c]
    ensures c >= RUNESELF ==> forall i :: 0 <= i < |r| ==> r[i] >= RUNESELF
  {
    if c <= 0x7F then [c]
    else if c <= 0x7FF then [0xC0 + c / 64, 0x80 + c % 64]
    else if c <= 0xFFFF then [0xE0 + c / 4096, 0x80 + c / 64 % 64, 0x80 + c % 64]
    else [0xF0 + c / 262144, 0x80 + c / 4096 % 64, 0x80 + c / 64 % 64, 0x80 + c % 64]
  }

  /** A byte that goes on with a sequence. */
  predicate Follower(b: Byte)
  {
    0x80 <= b < 0xC0
  }

  /** Six more bits. */
  function Low(l: int, b: Byte): int
  {
    64 * l + b % 64
  }

  /** The rune at the front of s, which is followed by a NUL, and how many bytes it takes. */
  function Chartorune(s: seq<Byte>): (r: (Rune, nat))
    requires |s| > 0
    ensures 1 <= r.1 <= |s|
  {
    var c0: int := s[0];
    if c0 < 0x80 then (c0, 1)
    else if |s| < 2 || !Follower(s[1]) then (RUNEERROR, 1)
    else if c0 < 0xE0 then
      var l := Low(c0, s[1]) % 0x800;
      if c0 < 0xC0 || l <= 0x7F then (RUNEERROR, 1) else (l, 2)
    else if |s| < 3 || !Follower(s[2]) then (RUNEERROR, 1)
    else if c0 < 0xF0 then
      var l := Low(Low(c0, s[1]), s[2]) % 0x1_0000;
      if l <= 0x7FF || 0xD800 <= l <= 0xDFFF then (RUNEERROR, 1) else (l, 3)
    else if |s| < 4 || !Follower(s[3]) then (RUNEERROR, 1)
    else if c0 < 0xF8 then
      var l := Low(Low(Low(c0, s[1]), s[2]), s[3]) % 0x20_0000;
      if l <= 0xFFFF || l > 0x10FFFF then (RUNEERROR, 1) else (l, 4)
    else (RUNEERROR, 1)
  }

  /** The six low bits of x go on with what is above them. */
  lemma SixMore(h: int, x: nat)
    ensures Low(h + x / 64, 0x80 + x % 64) == 64 * h + x
  {
  }

  lemma DivAgain(c: nat)
    ensures c / 64 / 64 == c / 4096 && c / 4096 / 64 == c / 262144
  {
  }

  /** Two, three and four bytes put together again. */
  lemma Gathered2(c: nat)
    requires c <= 0x7FF
    ensures Low(0xC0 + c / 64, 0x80 + c % 64) % 0x800 == c
  {
    SixMore(0xC0, c);
  }

  lemma Gathered3(c: nat)
    requires c <= 0xFFFF
    ensures Low(Low(0xE0 + c / 4096, 0x80 + c / 64 % 64), 0x80 + c % 64) % 0x1_0000 == c
  {
    hide Low;
    DivAgain(c);
    SixMore(0xE0, c / 64);
    SixMore(64 * 0xE0, c);
  }

  lemma Gathered4(c: nat)
    requires c <= 0x10FFFF
    ensures Low(Low(Low(0xF0 + c / 262144, 0x80 + c / 4096 % 64), 0x80 + c / 64 % 64), 0x80 + c % 64) % 0x20_0000 == c
  {
    hide Low;
    DivAgain(c);
    SixMore(0xF0, c / 4096);
    SixMore(64 * 0xF0, c / 64);
    SixMore(4096 * 0xF0, c);
  }

  /** What was written is read back, whatever comes after it. */
  lemma RuneRestored(c: Rune, rest: seq<Byte>)
    ensures Chartorune(Runetochar(c) + rest) == (c, |Runetochar(c)|)
  {
    hide Low;
    if c <= 0x7F {
    } else if c <= 0x7FF {
      Gathered2(c);
    } else if c <= 0xFFFF {
      Gathered3(c);
    } else {
      Gathered4(c);
    }
  }

  lemma SixParts(h: nat, t: nat)
    requires t < 64
    ensures (64 * h + t) / 64 == h && (64 * h + t) % 64 == t
  {
  }

  /** The number that two, three or four bytes stand for, in their parts. */
  lemma Read2(h: nat, b: Byte)
    requires h < 32 && Follower(b)
    ensures Low(0xC0 + h, b) % 0x800 == 64 * h + (b - 0x80) && b % 64 == b - 0x80
  {
  }

  lemma Read3(h: nat, b: Byte, c: Byte)
    requires h < 16 && Follower(b) && Follower(c)
    ensures Low(Low(0xE0 + h, b), c) % 0x1_0000 == 64 * (64 * h + (b - 0x80)) + (c - 0x80)
  {
  }

  lemma Read4(h: nat, b: Byte, c: Byte, d: Byte)
    requires h < 8 && Follower(b) && Follower(c) && Follower(d)
    ensures Low(Low(Low(0xF0 + h, b), c), d) % 0x20_0000 == 64 * (64 * (64 * h + (b - 0x80)) + (c - 0x80)) + (d - 0x80)
  {
  }

  /** Whatever bytes there are, the rune read is the one they begin with the encoding of, or an error of one byte. */
  lemma ReadOrError(s: seq<Byte>)
    requires |s| > 0
    ensures var (c, n) := Chartorune(s); Runetochar(c) == s[..n] || (c == RUNEERROR && n == 1)
  {
    hide Low;
    var (c, n) := Chartorune(s);
    if n == 2 {
      var h: int, t: int := s[0], s[1];
      Read2(h - 0xC0, s[1]);
      Two(c, h - 0xC0, t - 0x80);
    } else if n == 3 {
      var h: int, t: int, u: int := s[0], s[1], s[2];
      Read3(h - 0xE0, s[1], s[2]);
      Three(c, h - 0xE0, t - 0x80, u - 0x80);
    } else if n == 4 {
      var h: int, t: int, u: int, v: int := s[0], s[1], s[2], s[3];
      Read4(h - 0xF0, s[1], s[2], s[3]);
      Four(c, h - 0xF0, t - 0x80, u - 0x80, v - 0x80);
    }
  }

  lemma Two(c: Rune, h: nat, t: nat)
    requires h < 32 && t < 64 && c == 64 * h + t && 0x7F < c <= 0x7FF
    ensures Runetochar(c) == [0xC0 + h, 0x80 + t]
  {
    SixParts(h, t);
  }

  lemma Three(c: Rune, h: nat, t: nat, u: nat)
    requires h < 16 && t < 64 && u < 64 && c == 64 * (64 * h + t) + u && 0x7FF < c <= 0xFFFF
    ensures Runetochar(c) == [0xE0 + h, 0x80 + t, 0x80 + u]
  {
    SixParts(64 * h + t, u);
    SixParts(h, t);
    DivAgain(c);
  }

  lemma Four(c: Rune, h: nat, t: nat, u: nat, v: nat)
    requires h < 8 && t < 64 && u < 64 && v < 64 && c == 64 * (64 * (64 * h + t) + u) + v && 0xFFFF < c
    ensures Runetochar(c) == [0xF0 + h, 0x80 + t, 0x80 + u, 0x80 + v]
  {
    SixParts(64 * (64 * h + t) + u, v);
    SixParts(64 * h + t, u);
    SixParts(h, t);
    DivAgain(c);
  }

  /** A rune is read just where its encoding stands. */
  lemma ReadExactly(s: seq<Byte>, c: Rune)
    requires |s| > 0
    ensures Runetochar(c) <= s <==> Chartorune(s) == (c, |Runetochar(c)|)
  {
    hide Chartorune;
    var k := Runetochar(c);
    if k <= s {
      RuneRestored(c, s[|k|..]);
      assert s == k + s[|k|..];
    }
    if Chartorune(s) == (c, |k|) { ReadOrError(s); }
  }

  /** Whether s, which may be cut off, holds a whole rune. */
  predicate Fullrune(s: seq<Byte>)
  {
    |s| > 0 && (if s[0] < 0x80 then true else if s[0] < 0xE0 then |s| >= 2 else if s[0] < 0xF0 then |s| >= 3 else |s| >= 4)
  }

  lemma WholeRune(c: Rune, rest: seq<Byte>)
    ensures Fullrune(Runetochar(c) + rest)
  {
  }

  /** And not when it is cut off. */
  lemma PartRune(c: Rune, k: nat)
    requires k < |Runetochar(c)|
    ensures !Fullrune(Runetochar(c)[..k])
  {
  }

  /** The bytes of a text. */
  function Encode(t: seq<Rune>): (r: seq<Byte>)
    ensures |r| >= |t|
  {
    if t == [] then [] else Runetochar(t[0]) + Encode(t[1..])
  }

  lemma {:induction false} EncodeJoin(t: seq<Rune>, u: seq<Rune>)
    ensures Encode(t + u) == Encode(t) + Encode(u)
  {
    hide Runetochar;
    if t == [] {
      assert t + u == u;
    } else {
      assert (t + u)[1..] == t[1..] + u;
      EncodeJoin(t[1..], u);
    }
  }
}
