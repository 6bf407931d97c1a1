/** Cipher block chaining with IDEA: the IDEACBC cases of encryptb and decryptb (9/devssl.c). */
module IdeaCbc {
  import opened CTypes
  import opened Idea
  import opened IdeaCipher
  import opened IdeaKeys

  // ------------------------------------------------------------ the messages

  function XorBytes(s: seq<Byte>, t: seq<Byte>): (r: seq<Byte>)
    requires |s| == |t|
    ensures |r| == |s|
  {
    seq<Byte>(|s|, i requires 0 <= i < |s| => XorByte(s[i], t[i]))
  }

  /** Each block is combined with the block sent before it, then enciphered. */
  function Enciphered(k: seq<Word>, iv: seq<Byte>, s: seq<Byte>): (r: seq<Byte>)
    requires |k| == KEYLEN && |iv| == 8 && |s| % 8 == 0
    ensures |r| == |s|
    decreases |s|
  {
    if |s| == 0 then []
    else
      assert |s[8..]| % 8 == 0;
      var c := Cipher(k, XorBytes(s[..8], iv));
      c + Enciphered(k, c, s[8..])
  }

  /** Each block is deciphered, then combined with the block received before it. */
  function Deciphered(k: seq<Word>, iv: seq<Byte>, s: seq<Byte>): (r: seq<Byte>)
    requires |k| == KEYLEN && |iv| == 8 && |s| % 8 == 0
    ensures |r| == |s|
    decreases |s|
  {
    if |s| == 0 then []
    else
      assert |s[8..]| % 8 == 0;
      XorBytes(Cipher(k, s[..8]), iv) + Deciphered(k, s[..8], s[8..])
  }

  /** The chaining vector after s went by: its last block. */
  function Chain(iv: seq<Byte>, s: seq<Byte>): (r: seq<Byte>)
    requires |iv| == 8 && |s| % 8 == 0
    ensures |r| == 8
  {
    if |s| == 0 then iv else s[|s|-8..]
  }

  lemma XorBytesBack(s: seq<Byte>, t: seq<Byte>)
    requires |s| == |t|
    ensures XorBytes(XorBytes(s, t), t) == s
  {
    forall i | 0 <= i < |s| ensures XorByte(XorByte(s[i], t[i]), t[i]) == s[i] {
      Sizes();
      XorTwice(s[i], t[i], 8);
    }
  }

  /** Deciphering restores every message of whole blocks. */
  lemma {:induction false} MessageRestored(ek: seq<Word>, dk: seq<Word>, iv: seq<Byte>, s: seq<Byte>)
    requires |ek| == |dk| == KEYLEN && DecryptKey(ek, dk) && |iv| == 8 && |s| % 8 == 0
    ensures Deciphered(dk, iv, Enciphered(ek, iv, s)) == s
    decreases |s|
  {
    hide Cipher, XorBytes, DecryptKey;
    if |s| > 0 {
      var x := XorBytes(s[..8], iv);
      var c := Cipher(ek, x);
      var rest := Enciphered(ek, c, s[8..]);
      CipherBack(ek, dk, x);
      XorBytesBack(s[..8], iv);
      MessageRestored(ek, dk, c, s[8..]);
      assert (c + rest)[..8] == c && (c + rest)[8..] == rest;
      assert s == s[..8] + s[8..];
    }
  }

  // ------------------------------------------------------- whole conversations

  ghost predicate Whole(ms: seq<seq<Byte>>)
  {
    forall i :: 0 <= i < |ms| ==> |ms[i]| % 8 == 0
  }

  /** What one end sends for the messages it is given, the vector going from each to the next. */
  function Sent(k: seq<Word>, iv: seq<Byte>, ms: seq<seq<Byte>>): (r: seq<seq<Byte>>)
    requires |k| == KEYLEN && |iv| == 8 && Whole(ms)
    ensures |r| == |ms| && Whole(r)
    decreases |ms|
  {
    if |ms| == 0 then []
    else
      var c := Enciphered(k, iv, ms[0]);
      [c] + Sent(k, Chain(iv, c), ms[1..])
  }

  /** What the other end makes of them. */
  function Received(k: seq<Word>, iv: seq<Byte>, cs: seq<seq<Byte>>): (r: seq<seq<Byte>>)
    requires |k| == KEYLEN && |iv| == 8 && Whole(cs)
    ensures |r| == |cs|
    decreases |cs|
  {
    if |cs| == 0 then []
    else [Deciphered(k, iv, cs[0])] + Received(k, Chain(iv, cs[0]), cs[1..])
  }

  /** Two ends set up with the same key and vector: every message sent is received as it was. */
  lemma {:induction false} ConversationRestored(key: seq<Byte>, e: seq<Word>, d: seq<Word>, iv: seq<Byte>, ms: seq<seq<Byte>>)
    requires |key| == 16 && |e| == |d| == 2 * KEYLEN && |iv| == 8 && Whole(ms)
    requires e[..KEYLEN] == Schedule(key) && d[..KEYLEN] == Schedule(key) && DecryptKey(d[..KEYLEN], d[KEYLEN..])
    ensures Received(d[KEYLEN..], iv, Sent(e[..KEYLEN], iv, ms)) == ms
    decreases |ms|
  {
    hide DecryptKey, Schedule, Deciphered, Enciphered;
    if |ms| > 0 {
      var c := Enciphered(e[..KEYLEN], iv, ms[0]);
      var rest := Sent(e[..KEYLEN], Chain(iv, c), ms[1..]);
      MessageRestored(e[..KEYLEN], d[KEYLEN..], iv, ms[0]);
      ConversationRestored(key, e, d, Chain(iv, c), ms[1..]);
      assert ([c] + rest)[1..] == rest;
    }
  }

  // ------------------------------------------------- steps of the two loops

  lemma EncipherNext(k: seq<Word>, iv: seq<Byte>, s: seq<Byte>)
    requires |k| == KEYLEN && |iv| == 8 && |s| % 8 == 0 && |s| > 0
    ensures |s| >= 8 && |s[8..]| % 8 == 0
    ensures var c := Cipher(k, XorBytes(s[..8], iv)); Enciphered(k, iv, s) == c + Enciphered(k, c, s[8..])
  {
  }

  lemma DecipherNext(k: seq<Word>, iv: seq<Byte>, s: seq<Byte>)
    requires |k| == KEYLEN && |iv| == 8 && |s| % 8 == 0 && |s| > 0
    ensures |s| >= 8 && |s[8..]| % 8 == 0
    ensures Deciphered(k, iv, s) == XorBytes(Cipher(k, s[..8]), iv) + Deciphered(k, s[..8], s[8..])
  {
  }

  lemma NothingLeft(k: seq<Word>, iv: seq<Byte>)
    requires |k| == KEYLEN && |iv| == 8
    ensures Enciphered(k, iv, []) == [] && Deciphered(k, iv, []) == [] && Chain(iv, []) == iv
  {
  }

  lemma EightMore(l: nat, d: nat)
    requires l % 8 == 0 && d % 8 == 0 && l > 0
    ensures l >= 8 && (l - 8) % 8 == 0 && (d + 8) % 8 == 0
  {
  }

  lemma ChainOn(iv: seq<Byte>, s: seq<Byte>, c: seq<Byte>)
    requires |iv| == 8 && |s| % 8 == 0 && |c| == 8
    ensures Chain(iv, s + c) == c
  {
  }

  /** s with the eight bytes from p on replaced by t. */
  function Spliced(s: seq<Byte>, p: nat, t: seq<Byte>): (r: seq<Byte>)
    requires p + 8 <= |s| && |t| == 8
    ensures |r| == |s|
  {
    s[..p] + t + s[p+8..]
  }

  lemma SplicedPart(s: seq<Byte>, p: nat, t: seq<Byte>, u: seq<Byte>)
    requires p + 8 <= |s| && |t| == 8 && |u| == 8
    ensures Spliced(s, p, t)[p..p+8] == t && Spliced(Spliced(s, p, t), p, u) == Spliced(s, p, u)
  {
  }

  /** A block is done: the message is so far, what was made of it, and what is left. */
  lemma OneMore(a: seq<Byte>, done: seq<Byte>, left: seq<Byte>, t: seq<Byte>)
    requires |left| >= 8 && |t| == 8
    ensures var s := a + done + left; var p := |a| + |done|;
      s[p..p+8] == left[..8] && Spliced(s, p, t) == a + (done + t) + left[8..]
  {
    var s, p := a + done + left, |a| + |done|;
    assert s[p..p+8] == left[..8];
    assert s[..p] == a + done;
    assert s[p+8..] == left[8..];
  }

  /** Part of all has been deciphered: done in place of gone, and left is as it was; v is the vector. */
  ghost predicate Midway(k: seq<Word>, iv: seq<Byte>, all: seq<Byte>, b: seq<Byte>, done: seq<Byte>, gone: seq<Byte>, left: seq<Byte>, v: seq<Byte>)
  {
    && |k| == KEYLEN && |iv| == |v| == 8 && |done| % 8 == |left| % 8 == |all| % 8 == 0 && |done| == |gone|
    && b == done + left && gone + left == all
    && done + Deciphered(k, v, left) == Deciphered(k, iv, all) && v == Chain(iv, gone)
  }

  lemma MidwayFirst(k: seq<Word>, iv: seq<Byte>, all: seq<Byte>)
    requires |k| == KEYLEN && |iv| == 8 && |all| % 8 == 0
    ensures Midway(k, iv, all, all, [], [], all, iv)
  {
    hide Chain, Deciphered;
    NothingLeft(k, iv);
    assert [] + all == all && [] + Deciphered(k, iv, all) == Deciphered(k, iv, all);
  }

  lemma MidwayNext(k: seq<Word>, iv: seq<Byte>, all: seq<Byte>, b: seq<Byte>, done: seq<Byte>, gone: seq<Byte>, left: seq<Byte>, v: seq<Byte>)
    requires Midway(k, iv, all, b, done, gone, left, v) && |left| > 0
    ensures |k| == KEYLEN && |v| == 8 && |left| >= 8 && |done| + 8 <= |b|
    ensures var p := |done|; var c := b[p..p+8]; var t := XorBytes(Cipher(k, c), v);
      Midway(k, iv, all, Spliced(b, p, t), done + t, gone + c, left[8..], c)
  {
    hide Cipher, Chain, Deciphered, Spliced, XorBytes;
    EightMore(|left|, |done|);
    var c := left[..8];
    var t := XorBytes(Cipher(k, c), v);
    assert [] + done + left == b && [] + (done + t) == done + t;
    OneMore([], done, left, t);
    DecipherNext(k, v, left);
    ChainOn(iv, gone, c);
    Onward(gone, c, left);
    assert done + (t + Deciphered(k, c, left[8..])) == done + t + Deciphered(k, c, left[8..]);
  }

  lemma Onward(gone: seq<Byte>, c: seq<Byte>, left: seq<Byte>)
    requires |left| >= 8 && c == left[..8]
    ensures gone + c + left[8..] == gone + left
  {
    assert left == left[..8] + left[8..];
  }

  lemma MidwayLast(k: seq<Word>, iv: seq<Byte>, all: seq<Byte>, b: seq<Byte>, done: seq<Byte>, gone: seq<Byte>, left: seq<Byte>, v: seq<Byte>)
    requires Midway(k, iv, all, b, done, gone, left, v) && left == []
    ensures |k| == KEYLEN && |iv| == 8 && |all| % 8 == 0 && b == Deciphered(k, iv, all) && v == Chain(iv, all)
  {
    hide Chain, Deciphered;
    NothingLeft(k, v);
    assert done + [] == done && gone + [] == gone;
  }

  // --------------------------------------------------------------- the states

  /** One direction of a connection. */
  class IDEAstate {
    const edkey: array<Word>
    const ivec: array<Byte>

    ghost predicate Valid()
      reads this
    {
      edkey.Length == 2 * KEYLEN && ivec.Length == 8 && edkey as object != ivec as object
    }

    /** setupIDEAstate: the vector is zero unless one is given. */
    constructor (key: array<Byte>, iv: array?<Byte>)
      requires key.Length == 16 && (iv != null ==> iv.Length >= 8)
      ensures Valid() && fresh(edkey) && fresh(ivec)
      ensures edkey[..KEYLEN] == Schedule(key[..]) && DecryptKey(edkey[..KEYLEN], edkey[KEYLEN..])
      ensures ivec[..] == if iv == null then seq(8, i => 0) else iv[..8]
    {
      var k := new Word[2 * KEYLEN](i => 0);
      var v := new Byte[8](i => 0);
      edkey, ivec := k, v;
      new;
      hide DecryptKey, Schedule;
      idea_key_setup(key, k);
      ghost var lo, hi := k[..KEYLEN], k[KEYLEN..];
      if iv != null {
        for i := 0 to 8
          modifies v
          invariant k[..KEYLEN] == lo && k[KEYLEN..] == hi
          invariant forall n :: 0 <= n < i ==> v[n] == iv[n]
        {
          v[i] := iv[i];
        }
      }
    }

    /** Combines the block at p with the vector. */
    method chainIn(b: array<Byte>, p: nat)
      requires Valid() && p + 8 <= b.Length && b != ivec
      modifies b
      ensures b[..] == Spliced(old(b[..]), p, XorBytes(old(b[p..p+8]), ivec[..]))
    {
      hide XorByte;
      for i := 0 to 8
        invariant forall n :: 0 <= n < i ==> b[p+n] == XorByte(old(b[p+n]), ivec[n])
        invariant forall n :: 0 <= n < b.Length && !(p <= n < p + i) ==> b[n] == old(b[n])
      {
        b[p+i] := XorByte(b[p+i], ivec[i]);
      }
      assert b[p..p+8] == XorBytes(old(b[p..p+8]), ivec[..]);
      assert b[..] == b[..p] + b[p..p+8] + b[p+8..];
    }

    /** Keeps the block at p as the vector. */
    method keep(b: array<Byte>, p: nat)
      requires Valid() && p + 8 <= b.Length && b != ivec
      modifies ivec
      ensures ivec[..] == b[p..p+8]
    {
      for i := 0 to 8
        invariant forall n :: 0 <= n < i ==> ivec[n] == b[p+n]
      {
        ivec[i] := b[p+i];
      }
    }

    /** Combines the block at p with the vector, which becomes tmp. */
    method chainOut(b: array<Byte>, p: nat, tmp: array<Byte>)
      requires Valid() && p + 8 <= b.Length && tmp.Length == 8 && b != ivec && tmp != b && tmp != ivec
      modifies b, ivec
      ensures b[..] == Spliced(old(b[..]), p, XorBytes(old(b[p..p+8]), old(ivec[..])))
      ensures ivec[..] == tmp[..]
    {
      hide XorByte;
      for i := 0 to 8
        invariant forall n :: 0 <= n < i ==> b[p+n] == XorByte(old(b[p+n]), old(ivec[n])) && ivec[n] == tmp[n]
        invariant forall n :: i <= n < 8 ==> ivec[n] == old(ivec[n])
        invariant forall n :: 0 <= n < b.Length && !(p <= n < p + i) ==> b[n] == old(b[n])
      {
        b[p+i] := XorByte(b[p+i], ivec[i]);
        ivec[i] := tmp[i];
      }
      assert b[p..p+8] == XorBytes(old(b[p..p+8]), old(ivec[..]));
      assert b[..] == b[..p] + b[p..p+8] + b[p+8..];
    }

    /** Enciphers b from offset to its end, in place. */
    method encryptb(b: array<Byte>, offset: nat)
      requires Valid() && offset <= b.Length && (b.Length - offset) % 8 == 0
      requires b != ivec && b as object != edkey as object
      modifies b, ivec
      ensures b[..offset] == old(b[..offset])
      ensures b[offset..] == Enciphered(edkey[..KEYLEN], old(ivec[..]), old(b[offset..]))
      ensures ivec[..] == Chain(old(ivec[..]), b[offset..])
    {
      hide Cipher, Chain, Enciphered, Spliced, XorBytes;
      ghost var k, iv, a := edkey[..KEYLEN], ivec[..], b[..offset];
      ghost var done: seq<Byte>, left := [], b[offset..];
      NothingLeft(k, iv);
      assert b[..] == a + done + left;
      var p := offset;
      while p < b.Length
        invariant offset <= p <= b.Length && |done| == p - offset && |left| == b.Length - p && |left| % 8 == |done| % 8 == 0
        invariant b[..] == a + done + left && edkey[..KEYLEN] == k
        invariant done + Enciphered(k, ivec[..], left) == Enciphered(k, iv, old(b[offset..]))
        invariant ivec[..] == Chain(iv, done)
      {
        ghost var v, s := ivec[..], b[..];
        ghost var x := XorBytes(left[..8], v);
        ghost var c := Cipher(k, x);
        OneMore(a, done, left, c);
        chainIn(b, p);
        SplicedPart(s, p, x, c);
        cipherAt(b, p, false);
        SplicedPart(s, p, c, c);
        keep(b, p);
        EncipherNext(k, v, left);
        ChainOn(iv, done, c);
        EightMore(|left|, |done|);
        done, left := done + c, left[8..];
        p := p + 8;
      }
      NothingLeft(k, ivec[..]);
      assert left == [];
      Parts(b, a, done);
    }

    method cipherAt(b: array<Byte>, p: nat, decrypting: bool)
      requires Valid() && p + 8 <= b.Length && b as object != edkey as object
      modifies b
      ensures b[..] == Spliced(old(b[..]), p, Cipher(if decrypting then edkey[KEYLEN..] else edkey[..KEYLEN], old(b[..])[p..p+8]))
    {
      hide Cipher;
      idea_cipher(edkey, b, p, decrypting);
    }

    /** Deciphers the block at p; tmp keeps what it was, to become the vector. */
    method decipherBlock(b: array<Byte>, p: nat, tmp: array<Byte>)
      requires Valid() && p + 8 <= b.Length && b != ivec && b as object != edkey as object
      requires tmp.Length == 8 && tmp != b && tmp != ivec && tmp as object != edkey as object
      modifies b, ivec, tmp
      ensures b[..] == Spliced(old(b[..]), p, XorBytes(Cipher(edkey[KEYLEN..], old(b[..])[p..p+8]), old(ivec[..])))
      ensures ivec[..] == old(b[..])[p..p+8] && edkey[KEYLEN..] == old(edkey[KEYLEN..])
    {
      hide Cipher, Spliced, XorBytes;
      ghost var s, v := b[..], ivec[..];
      ghost var x := Cipher(edkey[KEYLEN..], s[p..p+8]);
      copyTo(tmp, b, p);
      cipherAt(b, p, true);
      SplicedPart(s, p, x, XorBytes(x, v));
      chainOut(b, p, tmp);
    }

    /** Deciphers b, in place. */
    method decryptb(b: array<Byte>)
      requires Valid() && b.Length % 8 == 0
      requires b != ivec && b as object != edkey as object
      modifies b, ivec
      ensures b[..] == Deciphered(edkey[KEYLEN..], old(ivec[..]), old(b[..]))
      ensures ivec[..] == Chain(old(ivec[..]), old(b[..]))
    {
      hide Cipher, Chain, Deciphered, Spliced, XorBytes, Midway;
      ghost var k, iv, all := edkey[KEYLEN..], ivec[..], b[..];
      ghost var done: seq<Byte>, gone: seq<Byte>, left := [], [], b[..];
      MidwayFirst(k, iv, all);
      var tmp := new Byte[8](i => 0);
      var p := 0;
      while p < b.Length
        invariant 0 <= p <= b.Length && |done| == p && |left| == b.Length - p && edkey[KEYLEN..] == k
        invariant Midway(k, iv, all, b[..], done, gone, left, ivec[..])
      {
        ghost var v := ivec[..];
        MidwayNext(k, iv, all, b[..], done, gone, left, v);
        ghost var c := b[..][p..p+8];
        decipherBlock(b, p, tmp);
        done, gone, left := done + XorBytes(Cipher(k, c), v), gone + c, left[8..];
        p := p + 8;
      }
      MidwayLast(k, iv, all, b[..], done, gone, left, ivec[..]);
    }
  }

  method copyTo(tmp: array<Byte>, b: array<Byte>, p: nat)
    requires tmp != b && tmp.Length == 8 && p + 8 <= b.Length
    modifies tmp
    ensures tmp[..] == b[p..p+8]
  {
    for i := 0 to 8
      invariant forall n :: 0 <= n < i ==> tmp[n] == b[p+n]
    {
      tmp[i] := b[p+i];
    }
  }

  lemma Parts(b: array<Byte>, a: seq<Byte>, done: seq<Byte>)
    requires b[..] == a + done
    ensures b[..|a|] == a && b[|a|..] == done
  {
    assert b[..][..|a|] == a && b[..][|a|..] == done;
  }
}
