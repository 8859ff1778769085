/** The per-component dirty bitmask of the runtime: one bit per context slot,
    packed 31 to a word, word 0 holding slots 0..30. A word is an int32 in
    the source; here it is its two's-complement bit pattern, so the source's
    sentinel `[-1]` ("nothing is dirty") is a first word of all ones. */
module DirtyMask {

  type Word = bv32

  /** The int32 value -1. */
  const CLEAN: Word := 0xFFFF_FFFF

  /** The int32 sign bit; `1 << k` with k < 31 never sets it. */
  const SIGN: Word := 0x8000_0000

  /** `1 << k` for a bit index below 31. */
  function Bit(k: nat): (w: Word)
    requires k < 31
  {
    Shifted(k as bv5)
  }

  function Shifted(k: bv5): Word
  {
    (1 as Word) << k
  }

  /** Bit b of word w of the mask, read as a plain bit array. */
  predicate HasBit(ws: seq<Word>, w: nat, b: nat)
    requires b < 31
  {
    w < |ws| && ws[w] & Bit(b) != 0
  }

  /** Is context slot j marked? Only a mask whose first word is not the
      sentinel marks anything. */
  predicate IsDirty(ws: seq<Word>, j: nat)
  {
    |ws| >= 1 && ws[0] != CLEAN && HasBit(ws, j / 31, j % 31)
  }

  /** A mask is either the sentinel or a first word a real bit pattern: the
      sign bit is set only by the sentinel. */
  predicate WellFormed(ws: seq<Word>)
  {
    |ws| >= 1 && (ws[0] == CLEAN || ws[0] & SIGN == 0)
  }

  function Zeros(n: nat): (z: seq<Word>)
    ensures |z| == n && forall k :: 0 <= k < n ==> z[k] == 0
  {
    seq(n, _ => 0)
  }

  lemma OrOtherBit(w: Word, x: bv5, y: bv5)
    requires x < 31 && y < 31 && x != y
    ensures (w | Shifted(x)) & Shifted(y) == w & Shifted(y)
  {
  }

  lemma OrSameBit(w: Word, x: bv5)
    requires x < 31
    ensures (w | Shifted(x)) & Shifted(x) == Shifted(x) != 0
    ensures (w | Shifted(x)) & SIGN == w & SIGN
  {
  }

  lemma BitIndexRoundTrip(a: nat)
    requires a < 31
    ensures (a as bv5) as int == a
  {
  }

  lemma DistinctBitIndex(a: nat, b: nat)
    requires a < 31 && b < 31 && a != b
    ensures a as bv5 != b as bv5
  {
    BitIndexRoundTrip(a);
    BitIndexRoundTrip(b);
  }

  /** Setting bit a of a word sets that bit and keeps the sign. */
  lemma OrBitSame(w: Word, a: nat)
    requires a < 31
    ensures (w | Bit(a)) & Bit(a) != 0
    ensures (w | Bit(a)) & SIGN == w & SIGN
  {
    OrSameBit(w, a as bv5);
  }

  /** Setting bit a of a word leaves bit b, b != a, as it was. */
  lemma OrBitOther(w: Word, a: nat, b: nat)
    requires a < 31 && b < 31 && a != b
    ensures (w | Bit(a)) & Bit(b) == w & Bit(b)
  {
    DistinctBitIndex(a, b);
    OrOtherBit(w, a as bv5, b as bv5);
  }

  /** Setting bit a of a word leaves every other bit, and the sign, as it was. */
  lemma OrBit(w: Word, a: nat, b: nat)
    requires a < 31 && b < 31
    ensures (w | Bit(a)) & Bit(b) != 0 <==> w & Bit(b) != 0 || a == b
    ensures (w | Bit(a)) & SIGN == w & SIGN
  {
    OrBitSame(w, a);
    if a != b {
      OrBitOther(w, a, b);
    }
  }

  /** `ws[w] |= 1 << b` */
  function SetBit(ws: seq<Word>, w: nat, b: nat): (r: seq<Word>)
    requires w < |ws| && b < 31
    ensures |r| == |ws|
  {
    ws[w := ws[w] | Bit(b)]
  }

  /** Setting one bit sets that bit and leaves every other bit as it was. */
  lemma SetBitOnly(ws: seq<Word>, w: nat, b: nat, w': nat, b': nat)
    requires w < |ws| && b < 31 && b' < 31
    ensures HasBit(SetBit(ws, w, b), w', b') <==> (w' == w && b' == b) || HasBit(ws, w', b')
  {
    if w' == w {
      OrBit(ws[w], b, b');
    }
  }

  /** make_dirty's effect on the mask of slot i: a clean mask is first
      filled with zeros (the sentinel is dropped), then bit i % 31 of word
      i / 31 is set. The result is never the sentinel again. */
  function MarkDirty(ws: seq<Word>, i: nat): (r: seq<Word>)
    requires WellFormed(ws) && i / 31 < |ws|
    ensures |r| == |ws| && WellFormed(r) && r[0] != CLEAN
  {
    var base := if ws[0] == CLEAN then Zeros(|ws|) else ws;
    OrBit(base[i / 31], i % 31, 0);
    SetBit(base, i / 31, i % 31)
  }

  lemma SlotOfWordAndBit(i: nat, j: nat)
    requires i / 31 == j / 31 && i % 31 == j % 31
    ensures i == j
  {
  }

  /** After make_dirty(c, i) exactly slot i and the slots marked before are
      marked: other bits of a dirty mask are kept, and a clean mask starts
      from nothing marked. */
  lemma {:induction false} MarkDirtyMarks(ws: seq<Word>, i: nat, j: nat)
    requires WellFormed(ws) && i / 31 < |ws|
    ensures IsDirty(MarkDirty(ws, i), j) <==> j == i || IsDirty(ws, j)
  {
    var base := if ws[0] == CLEAN then Zeros(|ws|) else ws;
    var wi, bi, wj, bj := i / 31, i % 31, j / 31, j % 31;
    SetBitOnly(base, wi, bi, wj, bj);
    if wj == wi && bj == bi {
      SlotOfWordAndBit(i, j);
    }
    assert HasBit(base, wj, bj) <==> IsDirty(ws, j);
  }

  /** A clean mask marks nothing. */
  lemma CleanMarksNothing(ws: seq<Word>, j: nat)
    requires |ws| >= 1 && ws[0] == CLEAN
    ensures !IsDirty(ws, j)
  {
  }
}
