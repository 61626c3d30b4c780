/** Clock (second-chance) replacement over the frames the page map refers to. */
module Replacement {
  import opened Frames

  /** What pickVictim reports. `NoVictim` is the source's null result;
      `HandOutOfRange` is the IndexOutOfBoundsException that
      `pageFrameArray.get(current)` raises when the hand is not below the
      size of a non-empty candidate list. */
  datatype Victim = Chosen(frame: FrameDesc) | NoVictim | HandOutOfRange

  /** A frame the scan takes as soon as it reaches it. */
  predicate Selectable(f: FrameDesc)
    reads f
  {
    !f.valid || (f.pinCount == 0 && !f.refbit)
  }

  /** A frame that no sweep of the clock can ever take. */
  predicate Pinned(f: FrameDesc)
    reads f
  {
    f.valid && f.pinCount != 0
  }

  /** `a` reduced into `[0, n)` by repeated subtraction. */
  function Wrap(a: nat, n: nat): (r: nat)
    ensures n > 0 ==> r < n
    decreases a
  {
    if n == 0 || a < n then a else Wrap(a - n, n)
  }

  /** The list position of the hand after `steps` advances from `start`
      over a list of `n` frames. */
  function Pos(start: nat, steps: nat, n: nat): (p: nat)
    ensures n > 0 ==> p < n
  {
    if n == 0 then 0 else Wrap(start + steps, n)
  }

  lemma {:induction false} WrapNext(a: nat, n: nat)
    requires n > 0
    ensures Wrap(a, n) < n
    ensures Wrap(a + 1, n) == (Wrap(a, n) + 1) % n
    decreases a
  {
    if a >= n {
      WrapNext(a - n, n);
    }
  }

  /** One more step moves the hand by one, wrapping at `n` as `(current+1) % n` does. */
  lemma PosNext(start: nat, steps: nat, n: nat)
    requires start < n
    ensures Pos(start, steps, n) < n
    ensures Pos(start, steps + 1, n) == (Pos(start, steps, n) + 1) % n
  {
    WrapNext(start + steps, n);
  }

  /** A full sweep brings the hand back to the same list position. */
  lemma PosSweep(start: nat, steps: nat, n: nat)
    requires start < n
    ensures Pos(start, steps + n, n) == Pos(start, steps, n)
  {
  }

  /** Every list position is reached within the first sweep. */
  lemma PosCovers(start: nat, p: nat, n: nat) returns (j: nat)
    requires start < n && p < n
    ensures j < n && Pos(start, j, n) == p
  {
    if p >= start {
      j := p - start;
    } else {
      j := p + n - start;
      assert Wrap(p + n, n) == Wrap(p, n) == p;
    }
  }

  /** The frames the hand passes over when it advances `passed` times from
      `start` over `candidates`. */
  ghost function Passed(candidates: seq<FrameDesc>, start: nat, passed: nat): set<FrameDesc>
  {
    set j | 0 <= j < passed && |candidates| > 0 :: candidates[Pos(start, j, |candidates|)]
  }

  /** A scan from `start` may pass over `passed` frames: each is valid, and
      pinned, or else unpinned with its reference bit set and reached for
      the first time (the scan clears that bit, so an unpinned frame reached
      again would be taken). Evaluated in the state before the scan. */
  ghost predicate PassesOver(candidates: seq<FrameDesc>, start: nat, passed: nat)
    reads candidates
  {
    forall j {:trigger Pos(start, j, |candidates|)} :: 0 <= j < passed && |candidates| > 0 ==>
      var f := candidates[Pos(start, j, |candidates|)];
      && f.valid
      && (f.pinCount != 0 ||
          (f.refbit && forall i {:trigger Pos(start, i, |candidates|)} :: 0 <= i < j ==>
             candidates[Pos(start, i, |candidates|)] != f))
  }

  /** The frame the hand reaches after passing `passed` frames from `start`
      can be taken: it is invalid, or unpinned with its reference bit clear,
      either from the start or because the scan cleared it on an earlier
      visit. Evaluated in the state before the scan. */
  ghost predicate TakeableAt(candidates: seq<FrameDesc>, start: nat, passed: nat)
    reads candidates
  {
    && |candidates| > 0
    && var f := candidates[Pos(start, passed, |candidates|)];
       !f.valid || (f.pinCount == 0 && (!f.refbit || f in Passed(candidates, start, passed)))
  }

  /** A frame that a longer scan passes over is one the scan cannot take. */
  lemma PassedNotTakeable(candidates: seq<FrameDesc>, start: nat, a: nat, b: nat)
    requires PassesOver(candidates, start, b) && a < b && |candidates| > 0
    ensures !TakeableAt(candidates, start, a)
  {
    var n := |candidates|;
    var f := candidates[Pos(start, a, n)];
    assert f.valid && (f.pinCount != 0 || (f.refbit && forall i :: 0 <= i < a ==> candidates[Pos(start, i, n)] != f));
    assert f.pinCount == 0 ==> f !in Passed(candidates, start, a);
  }

  /** The scan stops at the first frame it can take: two scans from the same
      hand over the same frames that each pass only frames they cannot take,
      and stop at one they can, pass the same number of frames. */
  lemma ScanStopsAtFirst(candidates: seq<FrameDesc>, start: nat, p: nat, q: nat)
    requires PassesOver(candidates, start, p) && TakeableAt(candidates, start, p)
    requires PassesOver(candidates, start, q) && TakeableAt(candidates, start, q)
    ensures p == q
  {
    if p < q {
      PassedNotTakeable(candidates, start, p, q);
    } else if q < p {
      PassedNotTakeable(candidates, start, q, p);
    }
  }

  /** If two full sweeps pass over every frame and no unpinned frame was
      passed on the second sweep, every frame is pinned, and the hand is back
      where it started. */
  lemma TwoSweepsAllPinned(candidates: seq<FrameDesc>, start: nat)
    requires start < |candidates|
    requires forall j {:trigger Pos(start, j, |candidates|)} :: 0 <= j < 2 * |candidates| ==>
      var f := candidates[Pos(start, j, |candidates|)];
      f.valid && (f.pinCount != 0 || j < |candidates|)
    ensures forall f :: f in candidates ==> Pinned(f)
    ensures Pos(start, 2 * |candidates|, |candidates|) == start
  {
    var n := |candidates|;
    forall f | f in candidates
      ensures Pinned(f)
    {
      var p :| 0 <= p < n && candidates[p] == f;
      var j := PosCovers(start, p, n);
      PosSweep(start, j, n);
    }
    PosSweep(start, n, n);
    PosSweep(start, 0, n);
  }

  class Clock {
    /** The candidate list of the last call. */
    var pageFrameArray: seq<FrameDesc>
    /** The hand: a position in the candidate list, kept across calls. */
    var current: nat

    constructor ()
      ensures pageFrameArray == [] && current == 0
    {
      pageFrameArray := [];
      current := 0;
    }

    /** Scans at most two sweeps of `candidates` from the hand. The caller
        passes the page map's values in its iteration order, one per key. */
    method PickVictim(candidates: seq<FrameDesc>) returns (r: Victim, ghost passed: nat)
      modifies this, candidates
      ensures pageFrameArray == candidates
      // only reference bits change, and only from set to clear on valid, unpinned frames
      ensures forall f :: f in candidates ==>
        f.valid == old(f.valid) && f.pinCount == old(f.pinCount) &&
        f.dirty == old(f.dirty) && f.pageno == old(f.pageno)
      ensures forall f :: f in candidates && f.refbit != old(f.refbit) ==>
        old(f.refbit) && f.valid && f.pinCount == 0
      // an empty list gives no victim and leaves the hand alone
      ensures |candidates| == 0 ==> r == NoVictim && current == old(current) && passed == 0
      // a hand beyond the list fails at the first access, before any change
      ensures |candidates| > 0 && old(current) >= |candidates| ==>
        r == HandOutOfRange && current == old(current) && passed == 0 &&
        forall f :: f in candidates ==> f.refbit == old(f.refbit)
      ensures old(current) < |candidates| ==>
        && !r.HandOutOfRange?
        && current < |candidates|
        && current == Pos(old(current), passed, |candidates|)
        && (r.NoVictim? <==> forall f :: f in candidates ==> Pinned(f))
        && (r.NoVictim? ==> passed == 2 * |candidates| && current == old(current))
        && (r.Chosen? ==> passed < 2 * |candidates| && r.frame == candidates[current] && Selectable(r.frame))
        && (r.Chosen? ==> old(TakeableAt(candidates, current, passed)))
        // the frames passed over could not be taken when reached, and the scan
        // clears the reference bit of exactly the unpinned ones among them
        && old(PassesOver(candidates, current, passed))
        && (forall f :: f in candidates ==>
              f.refbit == (old(f.refbit) && (f !in Passed(candidates, old(current), passed) || f.pinCount != 0)))
    {
      pageFrameArray := candidates;
      r, passed := Sweep(candidates);
      if r.Chosen? {
        assert r.frame in candidates && !Pinned(r.frame);
      } else if r.NoVictim? && |candidates| > 0 {
        TwoSweepsAllPinned(candidates, old(current));
      }
    }

    /** The loop of pickVictim over `candidates`, which the clock holds as its
        list: at most two sweeps from the hand, clearing the bit of each
        valid unpinned frame passed whose bit is set, and stopping at the
        first frame that is invalid or unpinned with its bit clear. */
    method Sweep(candidates: seq<FrameDesc>) returns (r: Victim, ghost passed: nat)
      requires pageFrameArray == candidates
      modifies this`current, candidates
      ensures forall f :: f in candidates ==>
        f.valid == old(f.valid) && f.pinCount == old(f.pinCount) &&
        f.dirty == old(f.dirty) && f.pageno == old(f.pageno)
      ensures forall f :: f in candidates && f.refbit != old(f.refbit) ==>
        old(f.refbit) && f.valid && f.pinCount == 0 && f in Passed(candidates, old(current), passed)
      ensures |candidates| == 0 ==> r == NoVictim && current == old(current) && passed == 0
      ensures |candidates| > 0 && old(current) >= |candidates| ==>
        r == HandOutOfRange && current == old(current) && passed == 0 &&
        forall f :: f in candidates ==> f.refbit == old(f.refbit)
      ensures old(current) < |candidates| ==>
        && !r.HandOutOfRange?
        && current < |candidates|
        && current == Pos(old(current), passed, |candidates|)
        && (r.NoVictim? ==> passed == 2 * |candidates|)
        && (r.Chosen? ==> passed < 2 * |candidates| && r.frame == candidates[current] && Selectable(r.frame))
        // every frame passed over was valid and either pinned, or unpinned with its
        // bit set when first reached and cleared then
        && (forall j {:trigger Pos(old(current), j, |candidates|)} :: 0 <= j < passed ==>
              var f := candidates[Pos(old(current), j, |candidates|)];
              f.valid && (f.pinCount != 0 ||
                (j < |candidates| && old(f.refbit) && !f.refbit &&
                 forall j' {:trigger Pos(old(current), j', |candidates|)} :: 0 <= j' < j ==>
                   candidates[Pos(old(current), j', |candidates|)] != f)))
    {
      var n := |pageFrameArray|;
      ghost var start := current;
      passed := 0;
      r := NoVictim;
      var i := 0;
      while i < n * 2
        invariant 0 <= i <= 2 * n && passed == i
        invariant pageFrameArray == candidates
        invariant i > 0 ==> start < n
        invariant start < n ==> current == Pos(start, i, n)
        invariant start >= n ==> current == start
        invariant i == 0 ==> forall f :: f in candidates ==> f.refbit == old(f.refbit)
        invariant forall f :: f in candidates ==>
          f.valid == old(f.valid) && f.pinCount == old(f.pinCount) &&
          f.dirty == old(f.dirty) && f.pageno == old(f.pageno)
        invariant forall f :: f in candidates && f.refbit != old(f.refbit) ==>
          old(f.refbit) && f.valid && f.pinCount == 0 && f in Passed(candidates, start, i)
        invariant forall j {:trigger Pos(start, j, n)} :: 0 <= j < i ==>
          var f := candidates[Pos(start, j, n)];
          f.valid && (f.pinCount != 0 ||
            (j < n && old(f.refbit) && !f.refbit &&
             forall j' {:trigger Pos(start, j', n)} :: 0 <= j' < j ==> candidates[Pos(start, j', n)] != f))
      {
        if current >= n {
          r := HandOutOfRange;
          break;
        }
        PosNext(start, i, n);
        var f := pageFrameArray[current];
        if f.valid != true {
          r := Chosen(f);
          break;
        } else {
          if f.pinCount == 0 {
            if f.refbit {
              if i >= n {
                // the same frame was met one sweep ago and had its bit cleared then
                PosSweep(start, i - n, n);
                assert false;
              }
              f.refbit := false;
            } else {
              r := Chosen(f);
              break;
            }
          }
        }
        current := (current + 1) % n;
        i := i + 1;
        passed := passed + 1;
      }
    }
  }
}
