/** The packed availability index of allocator/src/bitmap.rs: twenty 128-bit words,
    one bit for each block size from 1 to 2560 pages, the highest bit first. */
module BitmapIndex {
  import opened Bits
  import opened Wrappers

  const NUM_MULTIPLES_PER_BITMAP := 128
  const NUM_BITMAPS := 20
  const NUM_MULTIPLES := 2560

  /** The value of `(1u128 << 127) >> offset`. */
  function Mask(offset: nat): nat
    requires offset < 128
  {
    ShiftRight(Pow2(127), offset)
  }

  /** Which bit of which word stands for a block size. */
  predicate Marked(words: seq<nat>, multiple: nat)
    requires |words| == NUM_BITMAPS && 1 <= multiple <= NUM_MULTIPLES
  {
    Bit(words[(multiple - 1) / 128], 127 - (multiple - 1) % 128)
  }

  function Members(words: seq<nat>): set<nat>
    requires |words| == NUM_BITMAPS
  {
    set m | 1 <= m <= NUM_MULTIPLES && Marked(words, m)
  }

  predicate Words128(words: seq<nat>) {
    |words| == NUM_BITMAPS && forall i :: 0 <= i < NUM_BITMAPS ==> words[i] < Pow2(128)
  }

  /** The least member not below `n`, the specification of `first_available`. */
  predicate IsLeastFrom(s: set<nat>, n: nat, r: Option<nat>) {
    match r
    case Some(v) => v in s && n <= v && forall m :: m in s && n <= m ==> v <= m
    case None => forall m :: m in s ==> m < n
  }

  lemma MaskIsPow2(offset: nat)
    requires offset < 128
    ensures Mask(offset) == Pow2(127 - offset) < Pow2(128)
  {
    ShiftPow2(127, offset);
    Pow2Monotone(127 - offset, 128);
  }

  /** A member's word and offset determine it. */
  lemma SetWord(words: seq<nat>, multiple: nat, w: nat)
    requires Words128(words) && 1 <= multiple <= NUM_MULTIPLES && w < Pow2(128)
    requires forall k: nat :: k < 128 && k != 127 - (multiple - 1) % 128 ==>
                                Bit(w, k) == Bit(words[(multiple - 1) / 128], k)
    ensures Words128(words[(multiple - 1) / 128 := w])
    ensures Members(words[(multiple - 1) / 128 := w]) ==
            if Bit(w, 127 - (multiple - 1) % 128) then Members(words) + {multiple}
            else Members(words) - {multiple}
  {
    hide Bit;
    hide Pow2;
    var words' := words[(multiple - 1) / 128 := w];
    forall m | 1 <= m <= NUM_MULTIPLES && m != multiple
      ensures Marked(words', m) == Marked(words, m)
    {
      if (m - 1) / 128 == (multiple - 1) / 128 {
        assert (m - 1) % 128 != (multiple - 1) % 128;
      }
    }
  }

  /** No size from `lo` up to but excluding `hi` is marked. */
  ghost predicate Clear(words: seq<nat>, lo: nat, hi: nat)
    requires |words| == NUM_BITMAPS
  {
    forall m :: lo <= m < hi && 1 <= m <= NUM_MULTIPLES ==> !Marked(words, m)
  }

  lemma Position(words: seq<nat>, i: nat, j: nat)
    requires |words| == NUM_BITMAPS && i < NUM_BITMAPS && j < 128
    ensures Marked(words, i * 128 + j + 1) == Bit(words[i], 127 - j)
  {
    assert (i * 128 + j) / 128 == i && (i * 128 + j) % 128 == j;
  }

  lemma TestPosition(words: seq<nat>, i: nat, j: nat)
    requires |words| == NUM_BITMAPS && i < NUM_BITMAPS && j < 128
    ensures BitAnd(words[i], Mask(j)) != 0 <==> Marked(words, i * 128 + j + 1)
    ensures !Marked(words, i * 128 + j + 1) ==> Clear(words, i * 128 + j + 1, i * 128 + j + 2)
  {
    hide Pow2;
    MaskIsPow2(j);
    MaskTest(words[i], 127 - j);
    Position(words, i, j);
  }

  lemma ZeroWordIsClear(words: seq<nat>, i: nat, lo: nat)
    requires |words| == NUM_BITMAPS && i < NUM_BITMAPS && words[i] == 0 && i * 128 + 1 <= lo
    ensures Clear(words, lo, i * 128 + 129)
  {
    forall m | i * 128 + 1 <= m < i * 128 + 129 ensures !Marked(words, m) {
      Position(words, i, m - 1 - i * 128);
      ZeroBit(127 - (m - 1 - i * 128));
    }
  }

  lemma ClearEmpty(words: seq<nat>, lo: nat)
    requires |words| == NUM_BITMAPS
    ensures Clear(words, lo, lo)
  {}

  lemma ClearJoins(words: seq<nat>, lo: nat, mid: nat, hi: nat)
    requires |words| == NUM_BITMAPS && Clear(words, lo, mid) && Clear(words, mid, hi)
    ensures Clear(words, lo, hi)
  {}

  lemma FoundLeast(words: seq<nat>, lo: nat, m: nat)
    requires |words| == NUM_BITMAPS && Clear(words, lo, m) && lo <= m && 1 <= m <= NUM_MULTIPLES
    requires Marked(words, m)
    ensures IsLeastFrom(Members(words), lo, Some(m))
  {}

  lemma FoundNone(words: seq<nat>, lo: nat)
    requires |words| == NUM_BITMAPS && (Clear(words, lo, NUM_MULTIPLES + 1) || lo > NUM_MULTIPLES)
    ensures IsLeastFrom(Members(words), lo, None)
  {}

  class Bitmap {
    const inner: array<nat>

    ghost predicate Valid()
      reads inner
    {
      inner.Length == NUM_BITMAPS && Words128(inner[..])
    }

    ghost function Contents(): set<nat>
      reads inner
      requires Valid()
    {
      Members(inner[..])
    }

    constructor ()
      ensures Valid() && fresh(inner) && Contents() == {}
    {
      inner := new nat[NUM_BITMAPS](_ => 0);
      new;
      forall m | 1 <= m <= NUM_MULTIPLES
        ensures !Marked(inner[..], m)
      {
        ZeroBit(127 - (m - 1) % 128);
      }
    }

    method MarkAvailable(multiple: nat)
      requires Valid() && 1 <= multiple <= NUM_MULTIPLES
      modifies inner
      ensures Valid() && Contents() == old(Contents()) + {multiple}
    {
      hide Pow2;
      var index, offset := (multiple - 1) / NUM_MULTIPLES_PER_BITMAP, (multiple - 1) % NUM_MULTIPLES_PER_BITMAP;
      var bitmap := inner[index];
      ghost var was := inner[..];
      MaskIsPow2(offset);
      OrBound(bitmap, Mask(offset), 128);
      forall k: nat
        ensures Bit(BitOr(bitmap, Mask(offset)), k) == (Bit(bitmap, k) || k == 127 - offset)
      {
        OrBit(bitmap, Mask(offset), k);
        Pow2Bit(127 - offset, k);
      }
      bitmap := BitOr(bitmap, Mask(offset));
      SetWord(was, multiple, bitmap);
      inner[index] := bitmap;
      assert inner[..] == was[index := bitmap];
    }

    method IsAvailable(multiple: nat) returns (available: bool)
      requires Valid() && 1 <= multiple <= NUM_MULTIPLES
      ensures available <==> multiple in Contents()
    {
      hide Pow2;
      var index, offset := (multiple - 1) / NUM_MULTIPLES_PER_BITMAP, (multiple - 1) % NUM_MULTIPLES_PER_BITMAP;
      MaskIsPow2(offset);
      MaskTest(inner[index], 127 - offset);
      available := BitAnd(inner[index], Mask(offset)) != 0;
    }

    method MarkUnavailable(multiple: nat)
      requires Valid() && 1 <= multiple <= NUM_MULTIPLES
      modifies inner
      ensures Valid() && Contents() == old(Contents()) - {multiple}
    {
      hide Pow2;
      var index, offset := (multiple - 1) / NUM_MULTIPLES_PER_BITMAP, (multiple - 1) % NUM_MULTIPLES_PER_BITMAP;
      var bitmap := inner[index];
      ghost var was := inner[..];
      MaskIsPow2(offset);
      var cleared := BitAnd(bitmap, BitNot(128, Mask(offset)));
      AndBound(bitmap, BitNot(128, Mask(offset)));
      forall k: nat | k < 128
        ensures Bit(cleared, k) == (Bit(bitmap, k) && k != 127 - offset)
      {
        AndBit(bitmap, BitNot(128, Mask(offset)), k);
        NotBit(128, Mask(offset), k);
        Pow2Bit(127 - offset, k);
      }
      SetWord(was, multiple, cleared);
      inner[index] := cleared;
      assert inner[..] == was[index := cleared];
    }

    /** Two nested loops; a zero word is skipped, and only the first word starts
        at an offset. Sizes above 2560 pages find nothing. */
    method FirstAvailable(multiple: nat) returns (r: Option<nat>)
      requires Valid() && 1 <= multiple
      ensures IsLeastFrom(Contents(), multiple, r)
    {
      hide Members;
      hide Marked;
      hide Clear;
      hide Mask;
      var index := (multiple - 1) / NUM_MULTIPLES_PER_BITMAP;
      var offset := (multiple - 1) % NUM_MULTIPLES_PER_BITMAP;
      ghost var words := inner[..];
      ClearEmpty(words, multiple);
      var i := index;
      while i < NUM_BITMAPS
        invariant index <= i && offset < 128 && multiple <= i * 128 + offset + 1
        invariant i > index ==> offset == 0 && i <= NUM_BITMAPS
        invariant Clear(words, multiple, i * 128 + offset + 1)
      {
        var v := inner[i];
        if v != 0 {
          var j := offset;
          while j < 128
            invariant offset <= j <= 128
            invariant Clear(words, multiple, i * 128 + j + 1)
          {
            TestPosition(words, i, j);
            if BitAnd(v, Mask(j)) != 0 {
              FoundLeast(words, multiple, i * 128 + j + 1);
              return Some(i * NUM_MULTIPLES_PER_BITMAP + j + 1);
            }
            ClearJoins(words, multiple, i * 128 + j + 1, i * 128 + j + 2);
            j := j + 1;
          }
        } else {
          ZeroWordIsClear(words, i, i * 128 + offset + 1);
          ClearJoins(words, multiple, i * 128 + offset + 1, i * 128 + 129);
        }
        offset := 0;
        i := i + 1;
      }
      FoundNone(words, multiple);
      r := None;
    }
  }
}
