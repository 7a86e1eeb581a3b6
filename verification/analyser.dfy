/** The index bookkeeping of regl-analyser.js: the top-k cepstrum peak table
    of `estimatePitch`, the ring-buffer pointers, the beat cutoff index and
    the zero-fill of trailing pitches. The FFT, the audio input and the
    floating-point accumulations are not modelled; the cepstrum and the
    sorted pitch index list are inputs. */
module Analyser {
  import opened ExtReal

  // ---------------------------------------------------------------------------
  // Top-k peak table (regl-analyser.js lines 156-179)
  // ---------------------------------------------------------------------------

  /** Slot `j` of the peak table: `pitchQ[j]` and `pitchW[j]`. */
  datatype Peak = Peak(q: int, w: ExtReal)

  /** The slot value after the reset of lines 156-159. */
  const Vacant := Peak(0, NegInf)

  /** Weights never increase along the table. */
  predicate NonIncreasing(t: seq<Peak>) {
    forall j, k :: 0 <= j < k < |t| ==> t[k].w.Le(t[j].w)
  }

  /** Index `i` is a candidate: `cepstrum[i]` is strictly above both
      neighbours. A neighbour outside the array is `undefined` in
      JavaScript, and a comparison with it is false. */
  predicate IsPeak(cep: seq<real>, i: int) {
    0 < i && i + 1 < |cep| && cep[i] > cep[i - 1] && cep[i] > cep[i + 1]
  }

  lemma NotLtIsGe(a: ExtReal, b: ExtReal)
    ensures !a.Lt(b) ==> b.Le(a)
  {
    Trichotomy(a, b);
  }

  /** The first slot whose weight is strictly below `b`, or `|t|` if none. */
  function FirstBelow(t: seq<Peak>, b: real): (j: nat)
    ensures j <= |t|
    ensures forall k :: 0 <= k < j ==> !t[k].w.Lt(Fin(b))
    ensures j < |t| ==> t[j].w.Lt(Fin(b))
  {
    if |t| == 0 then 0
    else if t[0].w.Lt(Fin(b)) then 0
    else 1 + FirstBelow(t[1..], b)
  }

  /** The insertion of lines 167-177 for a peak at `i` of weight `b`: the
      first slot below `b` receives it, the slots after it move down one
      place and the last one is dropped. An equal weight is placed after the
      slots already holding it; a peak no heavier than every held weight
      changes nothing. */
  function InsertPeak(t: seq<Peak>, i: int, b: real): (t': seq<Peak>)
    ensures |t'| == |t|
    ensures FirstBelow(t, b) == |t| ==> t' == t
    ensures FirstBelow(t, b) < |t| ==> forall k :: 0 <= k < |t| ==>
              t'[k] == if k < FirstBelow(t, b) then t[k] else if k == FirstBelow(t, b) then Peak(i, Fin(b)) else t[k - 1]
    ensures forall k :: 0 <= k < |t'| ==> t'[k] in t || t'[k] == Peak(i, Fin(b))
    ensures NonIncreasing(t) ==> NonIncreasing(t')
  {
    var j := FirstBelow(t, b);
    if j == |t| then t
    else
      var t' := t[..j] + [Peak(i, Fin(b))] + t[j..|t| - 1];
      assert forall k :: 0 <= k < |t'| ==> t'[k] == if k < j then t[k] else if k == j then Peak(i, Fin(b)) else t[k - 1];
      InsertSorted(t, j, i, b, t');
      t'
  }

  lemma InsertSorted(t: seq<Peak>, j: nat, i: int, b: real, t': seq<Peak>)
    requires j < |t| && |t'| == |t|
    requires forall k :: 0 <= k < j ==> !t[k].w.Lt(Fin(b))
    requires t[j].w.Lt(Fin(b))
    requires forall k {:trigger t'[k]} :: 0 <= k < |t'| ==> t'[k] == if k < j then t[k] else if k == j then Peak(i, Fin(b)) else t[k - 1]
    ensures NonIncreasing(t) ==> NonIncreasing(t')
  {
    if NonIncreasing(t) {
      forall k, l | 0 <= k < l < |t'|
        ensures t'[l].w.Le(t'[k].w)
      {
        var tk, tl := t'[k], t'[l];
        if l < j {
          assert tk == t[k] && tl == t[l];
        } else if l == j {
          assert tk == t[k] && tl == Peak(i, Fin(b));
          NotLtIsGe(t[k].w, Fin(b));
        } else if k < j {
          assert tk == t[k] && tl == t[l - 1];
          NotLtIsGe(t[k].w, Fin(b));
          assert t[l - 1].w.Le(t[j].w);
          LeTransitive(t[l - 1].w, t[j].w, Fin(b));
          LeTransitive(t[l - 1].w, Fin(b), t[k].w);
        } else if k == j {
          assert tk == Peak(i, Fin(b)) && tl == t[l - 1];
          assert t[l - 1].w.Le(t[j].w);
          LeTransitive(t[l - 1].w, t[j].w, Fin(b));
        } else {
          assert tk == t[k - 1] && tl == t[l - 1];
        }
      }
    }
  }

  /** Peak `p` is accounted for by table `t`: it is held, or it weighs no
      more than the lightest held slot. */
  predicate Kept(t: seq<Peak>, p: Peak) {
    |t| == 0 || p in t || p.w.Le(t[|t| - 1].w)
  }

  /** The last slot is no heavier than the one before it, as in a
      non-increasing table. */
  predicate TailOrdered(t: seq<Peak>) {
    |t| < 2 || t[|t| - 1].w.Le(t[|t| - 2].w)
  }

  /** An insertion never loses track of a peak: a held peak pushed off the
      end is no heavier than the new last slot, and the last slot only
      gets heavier. */
  lemma InsertKeeps(t: seq<Peak>, i: int, b: real, p: Peak)
    requires TailOrdered(t) && Kept(t, p)
    ensures Kept(InsertPeak(t, i, b), p)
  {
    var t' := InsertPeak(t, i, b);
    var n := |t|;
    if n > 0 {
      var last, last' := t[n - 1].w, t'[n - 1].w;
      assert last.Le(last') by {
        LastHeavier(t, i, b);
      }
      if p in t {
        var k :| 0 <= k < n && t[k] == p;
        if k < n - 1 {
          HeldStays(t, i, b, k);
          assert p in t';
        } else {
          LeTransitive(p.w, last, last');
        }
      } else {
        LeTransitive(p.w, last, last');
      }
    }
  }

  /** A held peak other than the last one is still held after an insertion. */
  lemma HeldStays(t: seq<Peak>, i: int, b: real, k: nat)
    requires k + 1 < |t|
    ensures t[k] in InsertPeak(t, i, b)
  {
    var t' := InsertPeak(t, i, b);
    var j := FirstBelow(t, b);
    if j < |t| {
      if k < j {
        assert t'[k] == t[k];
      } else {
        assert t'[k + 1] == t[k];
      }
    }
  }

  /** The last slot only gets heavier. */
  lemma LastHeavier(t: seq<Peak>, i: int, b: real)
    requires TailOrdered(t) && |t| > 0
    ensures t[|t| - 1].w.Le(InsertPeak(t, i, b)[|t| - 1].w)
  {
    var t' := InsertPeak(t, i, b);
    var j := FirstBelow(t, b);
    var n := |t|;
    if j == n - 1 {
      Trichotomy(t[n - 1].w, Fin(b));
    } else if j < n - 1 {
      assert t'[n - 1] == t[n - 2];
    }
  }

  /** The inserted peak is accounted for afterwards. */
  lemma InsertKeepsNew(t: seq<Peak>, i: int, b: real)
    ensures Kept(InsertPeak(t, i, b), Peak(i, Fin(b)))
  {
    var t' := InsertPeak(t, i, b);
    var j := FirstBelow(t, b);
    if j < |t| {
      assert t'[j] == Peak(i, Fin(b));
    } else if |t| > 0 {
      NotLtIsGe(t[|t| - 1].w, Fin(b));
    }
  }

  /** A slot holds either the reset value or a candidate peak of the range
      scanned so far, with its cepstrum value as weight. */
  predicate SlotFrom(s: Peak, cep: seq<real>, lo: int, hi: int) {
    s == Vacant || (lo <= s.q < hi && IsPeak(cep, s.q) && s.w == Fin(cep[s.q]))
  }

  /** No index is held in two slots. */
  predicate DistinctHeld(t: seq<Peak>) {
    forall j, k :: 0 <= j < |t| && 0 <= k < |t| && j != k && t[j] != Vacant && t[k] != Vacant ==> t[j].q != t[k].q
  }

  /** Inserting candidate `i` into a table whose held indices are distinct
      and all below `i` keeps them distinct: the shifted slots keep their
      relative places. */
  lemma InsertDistinct(t: seq<Peak>, cep: seq<real>, lo: int, i: int)
    requires IsPeak(cep, i)
    requires forall j :: 0 <= j < |t| ==> SlotFrom(t[j], cep, lo, i)
    requires DistinctHeld(t)
    ensures DistinctHeld(InsertPeak(t, i, cep[i]))
  {
    var t' := InsertPeak(t, i, cep[i]);
    var f := FirstBelow(t, cep[i]);
    if f < |t| {
      forall j, k | 0 <= j < |t'| && 0 <= k < |t'| && j != k && t'[j] != Vacant && t'[k] != Vacant
        ensures t'[j].q != t'[k].q
      {
        var sj := if j < f then j else j - 1;
        var sk := if k < f then k else k - 1;
        if j == f {
          assert t'[k] == t[sk] && SlotFrom(t[sk], cep, lo, i);
        } else if k == f {
          assert t'[j] == t[sj] && SlotFrom(t[sj], cep, lo, i);
        } else {
          assert t'[j] == t[sj] && t'[k] == t[sk] && sj != sk;
        }
      }
    }
  }

  /** Inserting candidate `i` keeps every slot vacant or a candidate of
      `[lo, i + 1)`. */
  lemma InsertSlots(t: seq<Peak>, cep: seq<real>, lo: int, i: int)
    requires IsPeak(cep, i) && lo <= i
    requires forall j :: 0 <= j < |t| ==> SlotFrom(t[j], cep, lo, i)
    ensures forall j :: 0 <= j < |t| ==> SlotFrom(InsertPeak(t, i, cep[i])[j], cep, lo, i + 1)
  {
    var t' := InsertPeak(t, i, cep[i]);
    forall j | 0 <= j < |t|
      ensures SlotFrom(t'[j], cep, lo, i + 1)
    {
      if t'[j] != Peak(i, Fin(cep[i])) {
        var k :| 0 <= k < |t| && t[k] == t'[j];
        assert SlotFrom(t[k], cep, lo, i);
      }
    }
  }

  /** Slot `s` outranks peak `p`: it is heavier, or as heavy and found
      earlier, since the strict `<` of line 168 never places a peak in
      front of an equal weight. */
  predicate Outranks(s: Peak, p: Peak) {
    p.w.Lt(s.w) || (s.w == p.w && s.q < p.q)
  }

  /** Peak `p` is held, or every slot outranks it. */
  predicate KeptFirst(t: seq<Peak>, p: Peak) {
    p in t || forall j :: 0 <= j < |t| ==> Outranks(t[j], p)
  }

  /** Held slots of equal weight are in scan order. */
  predicate TiesInOrder(t: seq<Peak>) {
    forall j, k :: 0 <= j < k < |t| && t[k].w.Fin? && t[j].w == t[k].w ==> t[j].q < t[k].q
  }

  /** Inserting candidate `i`, found after every held index, keeps equal
      weights in scan order. */
  lemma InsertTies(t: seq<Peak>, cep: seq<real>, lo: int, i: int)
    requires IsPeak(cep, i)
    requires forall j :: 0 <= j < |t| ==> SlotFrom(t[j], cep, lo, i)
    requires NonIncreasing(t) && TiesInOrder(t)
    ensures TiesInOrder(InsertPeak(t, i, cep[i]))
  {
    var f := FirstBelow(t, cep[i]);
    if f < |t| {
      TiesShifted(t, InsertPeak(t, i, cep[i]), f, i, cep[i]);
    }
  }

  /** The shape of an insertion at slot `j` (as in `InsertSorted`) keeps
      equal weights in scan order when the new index follows every held
      one. */
  lemma TiesShifted(t: seq<Peak>, t': seq<Peak>, j: nat, i: int, b: real)
    requires j < |t| && |t'| == |t|
    requires forall k :: 0 <= k < j ==> !t[k].w.Lt(Fin(b))
    requires t[j].w.Lt(Fin(b))
    requires forall k {:trigger t'[k]} :: 0 <= k < |t'| ==> t'[k] == if k < j then t[k] else if k == j then Peak(i, Fin(b)) else t[k - 1]
    requires forall k :: 0 <= k < |t| && t[k].w.Fin? ==> t[k].q < i
    requires NonIncreasing(t) && TiesInOrder(t)
    ensures TiesInOrder(t')
  {
    forall m, k | 0 <= m < k < |t'| && t'[k].w.Fin? && t'[m].w == t'[k].w
      ensures t'[m].q < t'[k].q
    {
      if m == j {
        assert t'[k] == t[k - 1];
        assert t[k - 1].w.Le(t[j].w);
        LeLt(t[k - 1].w, t[j].w, Fin(b));
        Trichotomy(Fin(b), Fin(b));
      } else if k == j {
        assert t'[m] == t[m];
      } else {
        var sm := if m < j then m else m - 1;
        var sk := if k < j then k else k - 1;
        assert t'[m] == t[sm] && t'[k] == t[sk] && sm < sk;
      }
    }
  }

  /** A scanned peak that was held or outranked by every slot stays so
      after a later candidate is inserted. */
  lemma InsertKeepsFirst(t: seq<Peak>, cep: seq<real>, lo: int, i: int, p: Peak)
    requires IsPeak(cep, i)
    requires NonIncreasing(t) && TiesInOrder(t)
    requires p.w.Fin? && KeptFirst(t, p)
    ensures KeptFirst(InsertPeak(t, i, cep[i]), p)
  {
    var f := FirstBelow(t, cep[i]);
    if f < |t| {
      KeptShifted(t, InsertPeak(t, i, cep[i]), f, i, cep[i], p);
    }
  }

  /** The shape of an insertion at slot `j` keeps a held or outranked peak
      so: a held peak either stays or, pushed off the end, is outranked by
      every slot left. */
  lemma KeptShifted(t: seq<Peak>, t': seq<Peak>, j: nat, i: int, b: real, p: Peak)
    requires j < |t| && |t'| == |t|
    requires t[j].w.Lt(Fin(b))
    requires forall k {:trigger t'[k]} :: 0 <= k < |t'| ==> t'[k] == if k < j then t[k] else if k == j then Peak(i, Fin(b)) else t[k - 1]
    requires NonIncreasing(t) && TiesInOrder(t)
    requires p.w.Fin? && KeptFirst(t, p)
    ensures KeptFirst(t', p)
  {
    var n := |t|;
    if p in t {
      var k :| 0 <= k < n && t[k] == p;
      if k < j {
        assert t'[k] == p;
      } else if k < n - 1 {
        assert t'[k + 1] == p;
      } else {
        forall m | 0 <= m < n
          ensures Outranks(t'[m], p)
        {
          if m == j {
            if j < n - 1 {
              assert p.w.Le(t[j].w);
              LeLt(p.w, t[j].w, Fin(b));
            }
          } else {
            var sm := if m < j then m else m - 1;
            assert t'[m] == t[sm] && sm < n - 1;
            assert p.w.Le(t[sm].w);
          }
        }
      }
    } else {
      forall m | 0 <= m < n
        ensures Outranks(t'[m], p)
      {
        if m == j {
          assert Outranks(t[j], p);
          LeLt(p.w, t[j].w, Fin(b));
        } else {
          var sm := if m < j then m else m - 1;
          assert t'[m] == t[sm] && Outranks(t[sm], p);
        }
      }
    }
  }

  /** Candidate `i` is held after its insertion, or every slot outranks it:
      they are all held peaks found before it and at least as heavy. */
  lemma InsertFirstNew(t: seq<Peak>, cep: seq<real>, lo: int, i: int)
    requires IsPeak(cep, i)
    requires forall j :: 0 <= j < |t| ==> SlotFrom(t[j], cep, lo, i)
    ensures KeptFirst(InsertPeak(t, i, cep[i]), Peak(i, Fin(cep[i])))
  {
    var t' := InsertPeak(t, i, cep[i]);
    var f := FirstBelow(t, cep[i]);
    if f < |t| {
      assert t'[f] == Peak(i, Fin(cep[i]));
    } else {
      forall m | 0 <= m < |t|
        ensures Outranks(t[m], Peak(i, Fin(cep[i])))
      {
        NotLtIsGe(t[m].w, Fin(cep[i]));
        assert SlotFrom(t[m], cep, lo, i);
      }
    }
  }

  /** The peak table `estimatePitch` builds (lines 156-179): `count` slots in
      non-increasing weight order, each vacant or a candidate of
      `[startQ, endQ)`, no candidate held twice, equal weights in scan
      order, and every candidate either held or outranked by every slot.
      Together: the held slots are the heaviest candidates, and among equal
      weights the earliest found. */
  method PeakTable(cep: seq<real>, startQ: int, endQ: int, count: nat) returns (t: seq<Peak>)
    ensures |t| == count
    ensures NonIncreasing(t)
    ensures forall j :: 0 <= j < count ==> SlotFrom(t[j], cep, startQ, endQ)
    ensures DistinctHeld(t)
    ensures forall i :: startQ <= i < endQ && IsPeak(cep, i) ==> Kept(t, Peak(i, Fin(cep[i])))
    ensures TiesInOrder(t)
    ensures forall i :: startQ <= i < endQ && IsPeak(cep, i) ==> KeptFirst(t, Peak(i, Fin(cep[i])))
  {
    t := seq(count, _ => Vacant);
    var i := startQ;
    while i < endQ
      invariant startQ <= i && (i <= endQ || i == startQ)
      invariant Scanned(t, cep, startQ, i, count)
    {
      ScanStep(t, cep, startQ, i, count);
      if IsPeak(cep, i) {
        t := InsertPeak(t, i, cep[i]);
      }
      i := i + 1;
    }
  }

  /** What the table holds after scanning the candidates of `[lo, hi)`. */
  ghost predicate Scanned(t: seq<Peak>, cep: seq<real>, lo: int, hi: int, count: nat) {
    && |t| == count
    && NonIncreasing(t)
    && (forall j :: 0 <= j < count ==> SlotFrom(t[j], cep, lo, hi))
    && DistinctHeld(t)
    && (forall k :: lo <= k < hi && IsPeak(cep, k) ==> Kept(t, Peak(k, Fin(cep[k]))))
    && TiesInOrder(t)
    && (forall k :: lo <= k < hi && IsPeak(cep, k) ==> KeptFirst(t, Peak(k, Fin(cep[k]))))
  }

  /** One iteration of the scan: a candidate `i` is inserted, anything else
      leaves the table alone. */
  lemma ScanStep(t: seq<Peak>, cep: seq<real>, lo: int, i: int, count: nat)
    requires lo <= i && Scanned(t, cep, lo, i, count)
    ensures Scanned(if IsPeak(cep, i) then InsertPeak(t, i, cep[i]) else t, cep, lo, i + 1, count)
  {
    if IsPeak(cep, i) {
      ScanPeak(t, cep, lo, i, count);
    } else {
      ScanOther(t, cep, lo, i, count);
    }
  }

  /** Inserting a candidate keeps the table ordered, every slot vacant or a
      scanned candidate, and every scanned candidate accounted for. */
  lemma ScanPeak(t: seq<Peak>, cep: seq<real>, lo: int, i: int, count: nat)
    requires lo <= i && IsPeak(cep, i) && Scanned(t, cep, lo, i, count)
    ensures Scanned(InsertPeak(t, i, cep[i]), cep, lo, i + 1, count)
  {
    ScanPeakKept(t, cep, lo, i, count);
    ScanPeakFirst(t, cep, lo, i, count);
  }

  /** Inserting a candidate keeps the table ordered, its slots scanned
      candidates with distinct indices, and every scanned candidate
      accounted for. */
  lemma ScanPeakKept(t: seq<Peak>, cep: seq<real>, lo: int, i: int, count: nat)
    requires lo <= i && IsPeak(cep, i)
    requires |t| == count && NonIncreasing(t) && DistinctHeld(t)
    requires forall j :: 0 <= j < count ==> SlotFrom(t[j], cep, lo, i)
    requires forall k :: lo <= k < i && IsPeak(cep, k) ==> Kept(t, Peak(k, Fin(cep[k])))
    ensures |InsertPeak(t, i, cep[i])| == count && NonIncreasing(InsertPeak(t, i, cep[i]))
    ensures forall j :: 0 <= j < count ==> SlotFrom(InsertPeak(t, i, cep[i])[j], cep, lo, i + 1)
    ensures DistinctHeld(InsertPeak(t, i, cep[i]))
    ensures forall k :: lo <= k < i + 1 && IsPeak(cep, k) ==> Kept(InsertPeak(t, i, cep[i]), Peak(k, Fin(cep[k])))
  {
    var t' := InsertPeak(t, i, cep[i]);
    InsertSlots(t, cep, lo, i);
    InsertDistinct(t, cep, lo, i);
    assert TailOrdered(t);
    forall k | lo <= k < i && IsPeak(cep, k)
      ensures Kept(t', Peak(k, Fin(cep[k])))
    {
      InsertKeeps(t, i, cep[i], Peak(k, Fin(cep[k])));
    }
    InsertKeepsNew(t, i, cep[i]);
  }

  /** Inserting a candidate keeps ties in scan order and every scanned
      candidate held or outranked. */
  lemma ScanPeakFirst(t: seq<Peak>, cep: seq<real>, lo: int, i: int, count: nat)
    requires lo <= i && IsPeak(cep, i)
    requires |t| == count && NonIncreasing(t) && TiesInOrder(t)
    requires forall j :: 0 <= j < count ==> SlotFrom(t[j], cep, lo, i)
    requires forall k :: lo <= k < i && IsPeak(cep, k) ==> KeptFirst(t, Peak(k, Fin(cep[k])))
    ensures TiesInOrder(InsertPeak(t, i, cep[i]))
    ensures forall k :: lo <= k < i + 1 && IsPeak(cep, k) ==> KeptFirst(InsertPeak(t, i, cep[i]), Peak(k, Fin(cep[k])))
  {
    var t' := InsertPeak(t, i, cep[i]);
    InsertTies(t, cep, lo, i);
    forall k | lo <= k < i && IsPeak(cep, k)
      ensures KeptFirst(t', Peak(k, Fin(cep[k])))
    {
      InsertKeepsFirst(t, cep, lo, i, Peak(k, Fin(cep[k])));
    }
    InsertFirstNew(t, cep, lo, i);
  }

  /** An index that is not a candidate leaves what the table accounts for
      unchanged. */
  lemma ScanOther(t: seq<Peak>, cep: seq<real>, lo: int, i: int, count: nat)
    requires lo <= i && !IsPeak(cep, i) && Scanned(t, cep, lo, i, count)
    ensures Scanned(t, cep, lo, i + 1, count)
  {
  }

  // ---------------------------------------------------------------------------
  // Ring-buffer pointers (lines 118, 192) and the beat cutoff (line 95)
  // ---------------------------------------------------------------------------

  /** `(p + 1) % size`, the advance of `beatPtr` and `pitchWindowPtr`. */
  function NextPtr(p: nat, size: nat): (p': nat)
    requires size > 0
    ensures p' < size
    ensures p < size ==> p' == if p + 1 == size then 0 else p + 1
  {
    (p + 1) % size
  }

  /** The pointer after `n` advances from `p`. */
  function Advance(p: nat, n: nat, size: nat): (p': nat)
    requires size > 0
    ensures p' < size || (n == 0 && p' == p)
  {
    if n == 0 then p else NextPtr(Advance(p, n - 1, size), size)
  }

  /** A pointer advanced `n` times from `p < size` sits at `(p + n) % size`:
      after `n` calls of `estimateBeats`, `beatPtr == n % beatBufferSize`,
      and each `estimatePitch` moves `pitchWindowPtr` on by `pitchCount`. */
  lemma {:induction false} AdvanceIsMod(p: nat, n: nat, size: nat)
    requires size > 0 && p < size
    ensures Advance(p, n, size) == (p + n) % size
  {
    if n > 0 {
      var r := Advance(p, n - 1, size);
      assert r == (p + n - 1) % size by {
        AdvanceIsMod(p, n - 1, size);
      }
      assert Advance(p, n, size) == if r + 1 == size then 0 else r + 1;
      ModSucc(p + n - 1, size);
    }
  }

  /** Adding one to `x` moves `x % s` on by one, wrapping at `s`. */
  lemma ModSucc(x: nat, s: nat)
    requires s > 0
    ensures (x + 1) % s == if x % s + 1 == s then 0 else x % s + 1
  {
    var q, r := x / s, x % s;
    assert x == q * s + r;
    if r + 1 == s {
      assert (q + 1) * s == q * s + s;
      ModUnique(x + 1, s, q + 1, 0);
    } else {
      ModUnique(x + 1, s, q, r + 1);
    }
  }

  /** Division with remainder is unique. */
  lemma ModUnique(a: int, s: int, q: int, r: int)
    requires s > 0 && 0 <= r < s && a == q * s + r
    ensures a % s == r
  {
    var q', r' := a / s, a % s;
    var d := q - q';
    assert d * s == r' - r by {
      assert q * s - q' * s == (q - q') * s;
    }
    if d > 0 {
      MulAtLeast(d, s);
    } else if d < 0 {
      assert (-d) * s == -(d * s);
      MulAtLeast(-d, s);
    }
  }

  lemma {:induction false} MulAtLeast(d: int, s: int)
    requires d >= 1 && s > 0
    ensures d * s >= s
  {
    if d > 1 {
      MulAtLeast(d - 1, s);
      assert d * s == (d - 1) * s + s;
    }
  }

  /** `Math.floor((beatBufferSize - 1) * beatThreshold)`: the greatest
      integer not above the scaled threshold. */
  function CutoffIndex(size: nat, threshold: real): (c: int)
    ensures c as real <= (size - 1) as real * threshold < c as real + 1.0
  {
    ((size - 1) as real * threshold).Floor
  }

  lemma MulNonneg(a: real, b: real)
    requires a >= 0.0 && b >= 0.0
    ensures a * b >= 0.0
  {
  }

  /** For a threshold in `[0, 1]` the cutoff indexes the median buffer. */
  lemma CutoffInRange(size: nat, threshold: real)
    requires size > 0 && 0.0 <= threshold <= 1.0
    ensures 0 <= CutoffIndex(size, threshold) <= size - 1
  {
    var m := (size - 1) as real;
    MulNonneg(m, threshold);
    MulNonneg(m, 1.0 - threshold);
    assert m * threshold <= m;
  }

  // ---------------------------------------------------------------------------
  // Pitch zero-fill (lines 199-207)
  // ---------------------------------------------------------------------------

  /** The first `j` at which `pitchIndex[j]` is falsy: `0`, or `undefined`
      past the end. */
  function FirstFalsy(pitchIndex: seq<int>): (z: nat)
    ensures z <= |pitchIndex|
    ensures forall k :: 0 <= k < z ==> pitchIndex[k] != 0
    ensures z < |pitchIndex| ==> pitchIndex[z] == 0
  {
    if |pitchIndex| == 0 || pitchIndex[0] == 0 then 0 else 1 + FirstFalsy(pitchIndex[1..])
  }

  /** Lines 199-207: slots before the first falsy `pitchIndex[j]` get the
      frequency `sampleRate / pitchIndex[j]`; that slot and all later ones
      get `0`. */
  method FillPitches(pitchIndex: seq<int>, count: nat, sampleRate: real) returns (pitches: seq<real>)
    ensures |pitches| == count
    ensures forall j :: 0 <= j < count && j < FirstFalsy(pitchIndex) ==> pitches[j] == sampleRate / pitchIndex[j] as real
    ensures forall j :: FirstFalsy(pitchIndex) <= j < count ==> pitches[j] == 0.0
  {
    var z := FirstFalsy(pitchIndex);
    pitches := seq(count, _ => 0.0);
    var j := 0;
    while j < count
      invariant j <= count && |pitches| == count
      invariant j <= z || j == count
      invariant forall m :: 0 <= m < j && m < z ==> pitches[m] == sampleRate / pitchIndex[m] as real
      invariant forall m :: z <= m < j ==> pitches[m] == 0.0
    {
      if j < |pitchIndex| && pitchIndex[j] != 0 {
        assert j < z;
        pitches := pitches[j := sampleRate / pitchIndex[j] as real];
        j := j + 1;
      } else {
        assert z <= j;
        while j < count
          invariant j <= count && |pitches| == count
          invariant z <= j
          invariant forall m :: 0 <= m < j && m < z ==> pitches[m] == sampleRate / pitchIndex[m] as real
          invariant forall m :: z <= m < j ==> pitches[m] == 0.0
        {
          pitches := pitches[j := 0.0];
          j := j + 1;
        }
      }
    }
  }
}
