/** The tags of 9P requests, kept in a bitmap (alloctag and freetag in devmnt.c). */
module MntTags {
  /** Words of the mask, and bits of a word. */
  const NMASK: nat := 2048
  const WORD: nat := 32
  const NOTAG: nat := 0xFFFF

  class TagMask {
    /** Bit j of word i. */
    var tagmask: array2<bool>

    ghost predicate Valid()
      reads this, tagmask
    {
      tagmask.Length0 == NMASK && tagmask.Length1 == WORD && tagmask[0, 0] && tagmask[NMASK-1, WORD-1]
    }

    predicate InUse(t: nat)
      requires tagmask.Length0 == NMASK && tagmask.Length1 == WORD && t < NMASK * WORD
      reads this, tagmask
    {
      tagmask[t / WORD, t % WORD]
    }

    /** As mntinit leaves it: only 0 and NOTAG may not be given out. */
    constructor ()
      ensures Valid() && fresh(tagmask)
      ensures forall t: nat :: t < NMASK * WORD ==> (InUse(t) <==> t == 0 || t == NOTAG)
    {
      tagmask := new bool[NMASK, WORD]((i, j) => false);
      new;
      tagmask[0, 0], tagmask[NMASK-1, WORD-1] := true, true;
    }

    /** The lowest tag that is free, which is then in use, or NOTAG when there is none. */
    method alloctag() returns (t: nat)
      requires Valid()
      modifies tagmask
      ensures Valid() && 0 < t <= NOTAG
      ensures t < NOTAG ==> !old(InUse(t)) && forall u: nat :: u < t ==> old(InUse(u))
      ensures t < NOTAG ==> forall u: nat :: u < NMASK * WORD ==> (InUse(u) <==> old(InUse(u)) || u == t)
      ensures t == NOTAG ==> forall u: nat :: u < NMASK * WORD ==> InUse(u) && old(InUse(u))
    {
      var i := 0;
      while i < NMASK
        invariant 0 <= i <= NMASK && Valid()
        invariant forall a, b :: 0 <= a < NMASK && 0 <= b < WORD ==> tagmask[a, b] == old(tagmask[a, b])
        invariant forall a, b :: 0 <= a < i && 0 <= b < WORD ==> tagmask[a, b]
      {
        if forall j :: 0 <= j < WORD ==> tagmask[i, j] {
        } else {
          var j := 0;
          while tagmask[i, j]
            invariant 0 <= j < WORD && exists k :: j <= k < WORD && !tagmask[i, k]
            invariant forall b :: 0 <= b < j ==> tagmask[i, b]
            decreases WORD - j
          {
            j := j + 1;
          }
          tagmask[i, j] := true;
          t := i * WORD + j;
          Places(i, j, t);
          forall u: nat | u < NMASK * WORD
            ensures InUse(u) <==> old(InUse(u)) || u == t
            ensures u < t ==> old(InUse(u))
          {
            Places(u / WORD, u % WORD, u);
          }
          return;
        }
        i := i + 1;
      }
      t := NOTAG;
      forall u: nat | u < NMASK * WORD ensures InUse(u) && old(InUse(u)) { Places(u / WORD, u % WORD, u); }
    }

    /** The tag is free again. */
    method freetag(t: nat)
      requires Valid() && 0 < t < NOTAG
      modifies tagmask
      ensures Valid() && forall u: nat :: u < NMASK * WORD ==> (InUse(u) <==> old(InUse(u)) && u != t)
    {
      Places(t / WORD, t % WORD, t);
      tagmask[t / WORD, t % WORD] := false;
      forall u: nat | u < NMASK * WORD ensures InUse(u) <==> old(InUse(u)) && u != t { Places(u / WORD, u % WORD, u); }
    }
  }

  /** A tag is the place of its bit. */
  lemma Places(i: int, j: int, t: int)
    requires 0 <= j < WORD
    ensures t == i * WORD + j ==> t / WORD == i && t % WORD == j
    ensures i == t / WORD && j == t % WORD ==> t == i * WORD + j
    ensures 0 <= t < NMASK * WORD ==> 0 <= t / WORD < NMASK && 0 <= t % WORD < WORD
  {
  }
}
