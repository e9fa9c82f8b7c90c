/** The full-screen slideshow over the gallery: an index into the people
    shown, a play/pause flag, keyboard handling and an auto-advance timer.
    The two copies of the component run the same state machine. */
module Slideshow {
  import opened Wrappers
  import opened Js

  /** `(prev + 1) % data.length`; with no data the remainder is NaN, and
      arithmetic on NaN stays NaN. */
  function NextIndex(i: Num, n: nat): (r: Num)
    ensures n > 0 && i.Int? && 0 <= i.v < n ==> r.Int? && 0 <= r.v < n
    ensures n == 0 ==> r.NaN?
  {
    if n == 0 || i.NaN? then NaN else Int((i.v + 1) % n)
  }

  /** `(prev - 1 + data.length) % data.length`. */
  function PrevIndex(i: Num, n: nat): (r: Num)
    ensures n > 0 && i.Int? && 0 <= i.v < n ==> r.Int? && 0 <= r.v < n
    ensures n == 0 ==> r.NaN?
  {
    if n == 0 || i.NaN? then NaN else Int((i.v - 1 + n) % n)
  }

  /** The index after `k` calls of `nextSlide`: with data, a valid index
      stays valid; a NaN index stays NaN, and without data one step makes
      it NaN. */
  function Advance(i: Num, n: nat, k: nat): (r: Num)
    ensures n > 0 && i.Int? && 0 <= i.v < n ==> r.Int? && 0 <= r.v < n
    ensures i.NaN? || (n == 0 && k > 0) ==> r.NaN?
    decreases k
  {
    if k == 0 then i else Advance(NextIndex(i, n), n, k - 1)
  }

  /** What the slideshow renders for an index: nothing without data, else
      the counter `currentIndex + 1` out of `data.length`. */
  function Progress(i: Num, n: nat): (counter: Option<(Num, nat)>)
    ensures n == 0 <==> counter.None?
  {
    if n == 0 then None
    else if i.NaN? then Some((NaN, n))
    else Some((Int(i.v + 1), n))
  }

  class Slideshow {
    /** `data.length`, for the data the slideshow was opened with. */
    const n: nat
    var currentIndex: Num
    var isPlaying: bool

    /** With data, the index always names one of the people shown. */
    predicate Valid()
      reads this
    {
      n > 0 ==> currentIndex.Int? && 0 <= currentIndex.v < n
    }

    /** The initial state: the first person, playing. */
    constructor (length: nat)
      ensures n == length && currentIndex == Int(0) && isPlaying
      ensures Valid()
    {
      n := length;
      currentIndex := Int(0);
      isPlaying := true;
    }

    method NextSlide()
      modifies this
      requires Valid()
      ensures Valid()
      ensures currentIndex == NextIndex(old(currentIndex), n) && isPlaying == old(isPlaying)
    {
      if n == 0 || currentIndex.NaN? {
        currentIndex := NaN;
      } else {
        currentIndex := Int((currentIndex.v + 1) % n);
      }
    }

    method PrevSlide()
      modifies this
      requires Valid()
      ensures Valid()
      ensures currentIndex == PrevIndex(old(currentIndex), n) && isPlaying == old(isPlaying)
    {
      if n == 0 || currentIndex.NaN? {
        currentIndex := NaN;
      } else {
        currentIndex := Int((currentIndex.v - 1 + n) % n);
      }
    }

    /** The play/pause button, and the space key. */
    method TogglePlay()
      modifies this
      requires Valid()
      ensures Valid()
      ensures isPlaying == !old(isPlaying) && currentIndex == old(currentIndex)
    {
      isPlaying := !isPlaying;
    }

    /** One firing of the three-second interval, which exists only while
        playing. */
    method Tick()
      modifies this
      requires Valid()
      ensures Valid()
      ensures currentIndex == (if old(isPlaying) then NextIndex(old(currentIndex), n) else old(currentIndex))
      ensures isPlaying == old(isPlaying)
    {
      if isPlaying {
        NextSlide();
      }
    }

    /** The key handler. It reports whether it called `onClose` and whether
        it prevented the key's default action. */
    method KeyDown(key: string) returns (closeRequested: bool, preventDefault: bool)
      modifies this
      requires Valid()
      ensures Valid()
      ensures closeRequested <==> key == "Escape"
      ensures preventDefault <==> key == " "
      ensures key == "ArrowLeft" ==> currentIndex == PrevIndex(old(currentIndex), n) && isPlaying == old(isPlaying)
      ensures key == "ArrowRight" ==> currentIndex == NextIndex(old(currentIndex), n) && isPlaying == old(isPlaying)
      ensures key == " " ==> currentIndex == old(currentIndex) && isPlaying == !old(isPlaying)
      ensures key !in {"ArrowLeft", "ArrowRight", " "} ==>
                currentIndex == old(currentIndex) && isPlaying == old(isPlaying)
    {
      closeRequested := false;
      preventDefault := false;
      if key == "Escape" {
        closeRequested := true;
      } else if key == "ArrowLeft" {
        PrevSlide();
      } else if key == "ArrowRight" {
        NextSlide();
      } else if key == " " {
        preventDefault := true;
        TogglePlay();
      }
    }
  }

  // ---------------------------------------------------------------------
  // Properties

  /** One step forward from a valid index: the following index, or 0
      after the last. */
  lemma NextStep(i: int, n: nat)
    requires 0 <= i < n
    ensures NextIndex(Int(i), n) == Int(if i + 1 < n then i + 1 else 0)
  {
    if i + 1 < n { ModSmall(i + 1, n); } else { ModSelf(n); }
  }

  /** One step back from a valid index: the preceding index, or the last
      one before 0. */
  lemma PrevStep(i: int, n: nat)
    requires 0 <= i < n
    ensures PrevIndex(Int(i), n) == Int(if i > 0 then i - 1 else n - 1)
  {
    if i > 0 { ModPlusN(i - 1, n); } else { ModSmall(n - 1, n); }
  }

  lemma ModSmall(x: int, n: int)
    requires 0 <= x < n
    ensures x % n == x
  {
  }

  lemma ModSelf(n: int)
    requires n > 0
    ensures n % n == 0
  {
  }

  lemma ModPlusN(x: int, n: int)
    requires 0 <= x < n
    ensures (x + n) % n == x
  {
  }

  /** Next then previous, and previous then next, restore the index. */
  lemma NextPrevInverse(i: int, n: nat)
    requires 0 <= i < n
    ensures PrevIndex(NextIndex(Int(i), n), n) == Int(i)
    ensures NextIndex(PrevIndex(Int(i), n), n) == Int(i)
  {
    NextStep(i, n);
    PrevStep(if i + 1 < n then i + 1 else 0, n);
    PrevStep(i, n);
    NextStep(if i > 0 then i - 1 else n - 1, n);
  }

  /** Up to `n` steps forward from `i` land on `i + k`, wrapped once past
      the end. */
  lemma {:induction false} AdvanceWraps(i: int, n: nat, k: nat)
    requires 0 <= i < n && k <= n
    ensures Advance(Int(i), n, k) == Int(if i + k < n then i + k else i + k - n)
    decreases k
  {
    if k > 0 {
      NextStep(i, n);
      if i + 1 < n {
        AdvanceWraps(i + 1, n, k - 1);
      } else {
        AdvanceWraps(0, n, k - 1);
      }
    }
  }

  /** `n` steps forward return to the start. */
  lemma FullCycle(i: int, n: nat)
    requires 0 <= i < n
    ensures Advance(Int(i), n, n) == Int(i)
  {
    AdvanceWraps(i, n, n);
  }

  /** Without data the index becomes NaN on the first step, and nothing is
      rendered. */
  lemma EmptyDataRendersNothing(i: Num)
    ensures NextIndex(i, 0) == NaN && PrevIndex(i, 0) == NaN
    ensures Progress(i, 0) == None
  {
  }

  /** With data and a valid index, the counter lies in [1, n]. */
  lemma ProgressInRange(i: Num, n: nat)
    requires n > 0 && i.Int? && 0 <= i.v < n
    ensures Progress(i, n).Some? && Progress(i, n).value.0.Int?
    ensures 1 <= Progress(i, n).value.0.v <= n && Progress(i, n).value.1 == n
  {
  }

  /** Two toggles restore the flag and the index. */
  method TogglingTwiceRestores(show: Slideshow)
    modifies show
    requires show.Valid()
    ensures show.isPlaying == old(show.isPlaying) && show.currentIndex == old(show.currentIndex)
  {
    show.TogglePlay();
    show.TogglePlay();
  }
}
