/**
 The length-tag table: a bitmap for the tags below 1024 and a binary search over the
 sorted rest, built from the generated list of length fields.
 */
module LengthTags {
  import opened Swar

  const BITMAP_SIZE := 1024

  predicate Ascending(s: seq<int>) {
    forall i, j | 0 <= i < j < |s| :: s[i] <= s[j]
  }

  /** `w >> j` */
  function Shr(w: nat, j: nat): (r: nat) {
    if j == 0 then w else Shr(w / 2, j - 1)
  }

  /** Bitwise or of two unsigned words. */
  function Or(a: nat, b: nat): (r: nat) {
    if a == 0 && b == 0 then 0
    else 2 * Or(a / 2, b / 2) + (if a % 2 == 1 || b % 2 == 1 then 1 else 0)
  }

  /** Bit j of a word: `(w >> j) & 1`. */
  predicate BitAt(w: nat, j: nat) {
    Shr(w, j) % 2 == 1
  }

  lemma OrNothing(a: nat)
    ensures Or(a, 0) == a && Or(0, a) == a
  {
    if a != 0 {
      OrNothing(a / 2);
    }
  }

  lemma OrHalves(a: nat, b: nat)
    ensures Or(a, b) == 2 * Or(a / 2, b / 2) + if a % 2 == 1 || b % 2 == 1 then 1 else 0
  {
  }

  lemma PowHalves(k: nat)
    ensures k == 0 ==> Pow2(k) == 1 && Pow2(k) / 2 == 0 && Pow2(k) % 2 == 1
    ensures k > 0 ==> Pow2(k) == 2 * Pow2(k - 1) && Pow2(k) / 2 == Pow2(k - 1) && Pow2(k) % 2 == 0
  {
  }

  /** Setting bit k of a word changes bit k and no other. */
  lemma {:induction false} SetBit(w: nat, k: nat, j: nat)
    ensures BitAt(Or(w, Pow2(k)), j) <==> j == k || BitAt(w, j)
  {
    hide Or, Pow2;
    OrHalves(w, Pow2(k));
    PowHalves(k);
    var o := Or(w, Pow2(k));
    if k == 0 {
      OrNothing(w / 2);
      assert o / 2 == w / 2;
    } else {
      assert o / 2 == Or(w / 2, Pow2(k - 1)) && o % 2 == w % 2;
      if j > 0 {
        SetBit(w / 2, k - 1, j - 1);
      }
    }
  }

  /** It needs no wider word. */
  lemma {:induction false} SetBitFits(w: nat, k: nat, width: nat)
    requires k < width && w < Pow2(width)
    ensures Or(w, Pow2(k)) < Pow2(width)
  {
    hide Or, Pow2;
    OrHalves(w, Pow2(k));
    PowHalves(k);
    PowHalves(width);
    if k == 0 {
      OrNothing(w / 2);
    } else {
      SetBitFits(w / 2, k - 1, width - 1);
    }
  }

  lemma ZeroBits(j: nat)
    ensures !BitAt(0, j)
  {
    if j > 0 {
      ZeroBits(j - 1);
    }
  }

  predicate IsWord(w: nat) {
    w < Pow2(64)
  }

  /** Word w holds, bit by bit, the tags of `tags` that fall in it. */
  predicate WordHolds(word: nat, w: nat, tags: seq<int>) {
    && IsWord(word)
    && forall j: nat | j < 64 :: BitAt(word, j) <==> 64 * w + j in tags
  }

  predicate BitmapHolds(words: seq<nat>, tags: seq<int>) {
    && |words| == BITMAP_SIZE / 64
    && forall w: nat | w < |words| :: WordHolds(words[w], w, tags)
  }

  lemma WordAdds(word: nat, w: nat, tags: seq<int>, t: nat)
    requires WordHolds(word, w, tags)
    ensures t / 64 == w ==> WordHolds(Or(word, Pow2(t % 64)), w, tags + [t])
    ensures t / 64 != w ==> WordHolds(word, w, tags + [t])
  {
    hide Pow2, Or, BitAt;
    if t / 64 == w {
      SetBitFits(word, t % 64, 64);
      forall j: nat | j < 64
        ensures BitAt(Or(word, Pow2(t % 64)), j) <==> 64 * w + j in tags + [t]
      {
        SetBit(word, t % 64, j);
      }
    }
  }

  lemma NoWords(words: seq<nat>)
    requires |words| == BITMAP_SIZE / 64 && forall w: nat | w < |words| :: words[w] == 0
    ensures BitmapHolds(words, [])
  {
    forall w: nat, j: nat | w < |words| && j < 64
      ensures !BitAt(words[w], j)
    {
      ZeroBits(j);
    }
  }

  class LengthTagIndex {
    const lengthFields: seq<int>
    const bitmap: array<nat>
    var overflow: seq<int>

    /** The table holds exactly the tags of its list. */
    ghost predicate Valid()
      reads this, bitmap
    {
      && BitmapHolds(bitmap[..], Below(lengthFields))
      && Ascending(lengthFields) && Ascending(overflow)
      && (forall t | !(0 <= t < BITMAP_SIZE) :: t in overflow <==> t in lengthFields)
    }

    constructor (lengthFields: seq<int>)
      requires Ascending(lengthFields) && forall i | 0 <= i < |lengthFields| :: lengthFields[i] >= 0
      ensures Valid() && fresh(bitmap) && this.lengthFields == lengthFields
    {
      this.lengthFields := lengthFields;
      bitmap := new nat[BITMAP_SIZE / 64](_ => 0);
      overflow := [];
      new;
      var n := |lengthFields|;
      var split := 0;
      while split < n && lengthFields[split] < BITMAP_SIZE
        invariant 0 <= split <= n
        invariant forall i | 0 <= i < split :: lengthFields[i] < BITMAP_SIZE
        invariant forall w | 0 <= w < bitmap.Length :: bitmap[w] == 0
      {
        split := split + 1;
      }
      NoWords(bitmap[..]);
      var i := 0;
      while i < split
        invariant 0 <= i <= split
        invariant BitmapHolds(bitmap[..], lengthFields[..i])
      {
        SetTag(lengthFields[i], lengthFields[..i]);
        assert lengthFields[..i + 1] == lengthFields[..i] + [lengthFields[i]];
        i := i + 1;
      }
      overflow := lengthFields[split..];
      Split(lengthFields, split);
    }

    /** `bitmap[t / 64] |= std::uint64_t(1) << (t % 64)` */
    method SetTag(t: nat, ghost before: seq<int>)
      requires t < BITMAP_SIZE && BitmapHolds(bitmap[..], before)
      modifies bitmap
      ensures BitmapHolds(bitmap[..], before + [t])
    {
      hide Or, Pow2, WordHolds;
      ghost var was := bitmap[..];
      bitmap[t / 64] := Or(bitmap[t / 64], Pow2(t % 64));
      forall w: nat | w < |was|
        ensures WordHolds(bitmap[w], w, before + [t])
      {
        WordAdds(was[w], w, before, t);
      }
    }

    /** `contains` */
    method Contains(tag: int) returns (found: bool)
      requires Valid()
      ensures found == (tag in lengthFields)
    {
      if 0 <= tag < BITMAP_SIZE {
        InBelow(lengthFields, tag);
        assert WordHolds(bitmap[..][tag / 64], tag / 64, Below(lengthFields));
        assert BitAt(bitmap[tag / 64], tag % 64) <==> 64 * (tag / 64) + tag % 64 in Below(lengthFields);
        return Shr(bitmap[tag / 64], tag % 64) % 2 == 1;
      }
      found := BinarySearch(overflow, tag);
    }
  }

  /** The part of a sorted list that the bitmap covers. */
  function Below(s: seq<int>): (r: seq<int>) {
    if |s| == 0 || s[0] >= BITMAP_SIZE then [] else [s[0]] + Below(s[1..])
  }

  lemma {:induction false} InBelow(s: seq<int>, t: int)
    requires Ascending(s) && t < BITMAP_SIZE
    ensures t in Below(s) <==> t in s
  {
    if |s| > 0 {
      if s[0] < BITMAP_SIZE {
        InBelow(s[1..], t);
        assert s == [s[0]] + s[1..];
      } else {
        assert forall i | 0 <= i < |s| :: s[0] <= s[i];
      }
    }
  }

  lemma {:induction false} BelowIsPrefix(s: seq<int>, split: nat)
    requires split <= |s|
    requires forall i | 0 <= i < split :: s[i] < BITMAP_SIZE
    requires split < |s| ==> s[split] >= BITMAP_SIZE
    ensures s[..split] == Below(s)
  {
    if split > 0 {
      BelowIsPrefix(s[1..], split - 1);
      assert s[..split] == [s[0]] + s[1..][..split - 1];
    }
  }

  /** Splitting a sorted list where it first reaches the bitmap's size. */
  lemma Split(s: seq<int>, split: nat)
    requires Ascending(s) && split <= |s|
    requires forall i | 0 <= i < split :: s[i] < BITMAP_SIZE
    requires split < |s| ==> s[split] >= BITMAP_SIZE
    ensures Ascending(s[split..])
    ensures s[..split] == Below(s)
    ensures forall t | t >= BITMAP_SIZE :: t in s[split..] <==> t in s
    ensures forall t | t in s[split..] :: t >= BITMAP_SIZE
  {
    BelowIsPrefix(s, split);
    hide Below;
    var rest := s[split..];
    forall i | 0 <= i < |rest|
      ensures rest[i] == s[split + i] && rest[i] >= BITMAP_SIZE
    {
    }
    forall t | t >= BITMAP_SIZE && t in s
      ensures t in rest
    {
      var i :| 0 <= i < |s| && s[i] == t;
      assert rest[i - split] == t;
    }
  }

  /** `std::binary_search`: halve down to the lower bound, then compare. */
  method BinarySearch(s: seq<int>, v: int) returns (found: bool)
    requires Ascending(s)
    ensures found == (v in s)
  {
    var first, len := 0, |s|;
    while len > 0
      invariant 0 <= first && 0 <= len && first + len <= |s|
      invariant forall i | 0 <= i < first :: s[i] < v
      invariant forall i | first + len <= i < |s| :: s[i] >= v
    {
      var half := len / 2;
      if s[first + half] < v {
        first, len := first + half + 1, len - half - 1;
      } else {
        len := half;
      }
    }
    found := first != |s| && !(v < s[first]);
  }
}
