/**
  The gallery carousel of the site script: a horizontally scrolling strip that
  shows three slides at a time and loops endlessly in both directions.

  The N real slides are padded with clones of the last three slides in front
  and of the first three slides behind, giving a display track of N + 6
  entries. A cursor names the left-most visible entry. Navigation moves the
  cursor with an animated transition; once the animation has finished, a
  deferred "settle" step snaps a cursor that has run into a clone range back
  into the real slides with an instant re-render.
 */
module Carousel {

  /** One child of the gallery container: the content it shows, and whether
      it is a clone (carries the `clone` class) or the original element. */
  datatype Entry<T> = Entry(slide: T, clone: bool)

  /** Clones of `xs`, in order. */
  function Clones<T>(xs: seq<T>): seq<Entry<T>>
  {
    seq(|xs|, k requires 0 <= k < |xs| => Entry(xs[k], true))
  }

  /** The original elements of `xs`, in order. */
  function Originals<T>(xs: seq<T>): seq<Entry<T>>
  {
    seq(|xs|, k requires 0 <= k < |xs| => Entry(xs[k], false))
  }

  /** The display track: clones of the last three slides, the slides
      themselves, then clones of the first three slides. */
  function Track<T>(s: seq<T>): seq<Entry<T>>
    requires |s| >= 3
  {
    Clones(s[|s| - 3..]) + Originals(s) + Clones(s[..3])
  }

  /** Every position of the track shows slide `(j - 3) mod N`; exactly the
      three entries at each end are clones. */
  lemma TrackAt<T>(s: seq<T>, j: int)
    requires |s| >= 3 && 0 <= j < |s| + 6
    ensures |Track(s)| == |s| + 6
    ensures Track(s)[j] == Entry(s[(j - 3) % |s|], j < 3 || j >= |s| + 3)
  {
    var n := |s|;
    if j < 3 {
      ModOfShifted(j - 3, n, -1);
    } else if j < n + 3 {
      ModOfShifted(j - 3, n, 0);
    } else {
      ModOfShifted(j - 3, n, 1);
    }
  }

  /** `a mod n` is `a - q * n` for the `q` that puts it in `[0, n)`. */
  lemma ModOfShifted(a: int, n: int, q: int)
    requires n > 0 && q * n <= a < q * n + n
    ensures a % n == a - q * n
  {
    ModUnique(a, n, q, a - q * n);
  }

  /** The remainder is the only `r` in `[0, n)` with `a == q * n + r`. */
  lemma ModUnique(a: int, n: int, q: int, r: int)
    requires n > 0 && a == q * n + r && 0 <= r < n
    ensures a % n == r
  {
    var q', r' := a / n, a % n;
    assert (q - q') * n == r' - r;
    MulSmall(q - q', n);
  }

  /** A multiple of `n` strictly between `-n` and `n` is zero. */
  lemma MulSmall(k: int, n: int)
    requires n > 0 && -n < k * n < n
    ensures k == 0
  {
  }

  /** The loops that clone the first three slides onto the end of the
      container and then prepend clones of the last three, starting from a
      container that holds the slides themselves. */
  method BuildTrack<T>(s: seq<T>) returns (container: seq<Entry<T>>)
    requires |s| >= 3
    ensures container == Track(s)
  {
    var n := |s|;
    container := Originals(s);
    for i := 0 to 3
      invariant container == Originals(s) + Clones(s[..i])
    {
      container := container + [Entry(s[i], true)];
      assert Clones(s[..i + 1]) == Clones(s[..i]) + [Entry(s[i], true)];
    }
    var i := n - 1;
    while i >= n - 3
      invariant n - 4 <= i <= n - 1
      invariant container == Clones(s[i + 1..]) + Originals(s) + Clones(s[..3])
    {
      assert Clones(s[i..]) == [Entry(s[i], true)] + Clones(s[i + 1..]);
      container := [Entry(s[i], true)] + container;
      i := i - 1;
    }
  }

  /** JavaScript's `%`: the remainder has the sign of the dividend. */
  function JsRem(a: int, b: int): (r: int)
    requires b > 0
    ensures a >= 0 ==> 0 <= r < b
    ensures a < 0 ==> -b < r <= 0
    ensures (a - r) % b == 0
  {
    if a >= 0 then
      ModUnique(a - a % b, b, a / b, 0);
      a % b
    else
      ModUnique(a + (-a) % b, b, -((-a) / b), 0);
      -((-a) % b)
  }

  /** The indicator an update marks active: `(cursor - 3 + N) % N`. */
  function ActiveIndicator(cursor: int, n: int): (r: int)
    requires n > 0
    ensures cursor >= 3 - n ==> 0 <= r < n && r == (cursor - 3) % n
    ensures cursor < 3 - n ==> -n < r <= 0
  {
    SameResidue(cursor - 3, n, n);
    JsRem(cursor - 3 + n, n)
  }

  /** The active indicator always names the slide at the cursor, the
      left-most visible one, whether the cursor is on a clone or not. */
  lemma IndicatorNamesCursorSlide<T>(s: seq<T>, cursor: int)
    requires |s| >= 3 && 0 <= cursor < |s| + 6
    ensures 0 <= ActiveIndicator(cursor, |s|) < |s|
    ensures Track(s)[cursor].slide == s[ActiveIndicator(cursor, |s|)]
  {
    TrackAt(s, cursor);
  }

  /** The state a render leaves on a list of `len` elements: only the one at
      position `k` has the `active` class. */
  function Flags(len: nat, k: int): seq<bool>
  {
    seq(len, i => i == k)
  }

  /** How many elements carry the `active` class. */
  function CountActive(flags: seq<bool>): nat
  {
    if flags == [] then 0
    else CountActive(flags[..|flags| - 1]) + (if flags[|flags| - 1] then 1 else 0)
  }

  /** A render marks exactly one element when `k` is a position of the list,
      and none otherwise. */
  lemma {:induction false} ExactlyOneActive(len: nat, k: int)
    ensures CountActive(Flags(len, k)) == if 0 <= k < len then 1 else 0
  {
    if len > 0 {
      assert Flags(len, k)[..len - 1] == Flags(len - 1, k);
      ExactlyOneActive(len - 1, k);
    }
  }

  /** For every cursor navigation can produce from a settled state, a render
      marks exactly one track entry (the centre one) and exactly one
      indicator. */
  lemma RenderMarksOneOfEach(n: nat, cursor: int)
    requires n >= 3 && 2 <= cursor <= n + 3
    ensures CountActive(Flags(n + 6, cursor + 1)) == 1
    ensures CountActive(Flags(n, ActiveIndicator(cursor, n))) == 1
  {
    ExactlyOneActive(n + 6, cursor + 1);
    ExactlyOneActive(n, ActiveIndicator(cursor, n));
  }

  /** The settle step as written, for a track of `len` entries: a cursor in
      the trailing clones goes to 3, one in the leading clones goes to
      `len - 6`, any other stays. */
  function Rebase(cursor: int, len: int): (r: int)
    requires len >= 9
    ensures 3 <= r <= len - 4
    ensures 3 <= cursor <= len - 4 ==> r == cursor
  {
    if cursor >= len - 3 then 3
    else if cursor < 3 then len - 6
    else cursor
  }

  /** The settle step as evidently intended: a cursor in the leading clones
      moves forward by N, to the original of the clone it is on. */
  function RebaseIntended(cursor: int, len: int): (r: int)
    requires len >= 9
  {
    if cursor >= len - 3 then 3
    else if cursor < 3 then cursor + (len - 6)
    else cursor
  }

  /** The three slides visible when the cursor is at `c`. */
  function Shown<T>(track: seq<Entry<T>>, c: int): seq<T>
    requires 0 <= c && c + 3 <= |track|
  {
    [track[c].slide, track[c + 1].slide, track[c + 2].slide]
  }

  /** The forward seam is invisible: from the first trailing clone the
      settle step jumps to 3, where the same three slides are shown and the
      same indicator is active. */
  lemma ForwardSeamSeamless<T>(s: seq<T>)
    requires |s| >= 3
    ensures Rebase(|s| + 3, |s| + 6) == 3
    ensures Shown(Track(s), |s| + 3) == Shown(Track(s), 3)
    ensures ActiveIndicator(|s| + 3, |s|) == ActiveIndicator(3, |s|) == 0
  {
    var n := |s|;
    ShiftedSlide(s, 3, n);
    ShiftedSlide(s, 4, n);
    ShiftedSlide(s, 5, n);
    ModOfShifted(n, n, 1);
  }

  /** The backward seam as written is visible: going back from the first
      slide reaches cursor 2 (showing the last slide, the first, the second,
      indicator N-1 active); the settle step then jumps to N, which shows
      slides N-3, N-2, N-1 and activates indicator N-3. */
  lemma BackwardSeamJumps<T>(s: seq<T>)
    requires |s| >= 3
    ensures Rebase(2, |s| + 6) == |s|
    ensures ActiveIndicator(2, |s|) == |s| - 1
    ensures ActiveIndicator(|s|, |s|) == |s| - 3
    ensures Shown(Track(s), 2)[0] == s[|s| - 1]
    ensures Shown(Track(s), |s|)[0] == s[|s| - 3]
    ensures s[|s| - 1] != s[|s| - 3] ==> Shown(Track(s), |s|) != Shown(Track(s), 2)
  {
    var n := |s|;
    TrackAt(s, 2);
    TrackAt(s, n);
    ModOfShifted(-1, n, -1);
  }

  /** The corrected settle step is invisible at both seams: for every cursor
      whose three-slide window lies on the track, it lands on a real slide
      and shows the same slides with the same indicator active. */
  lemma IntendedRebaseSeamless<T>(s: seq<T>, c: int)
    requires |s| >= 3 && 0 <= c <= |s| + 3
    ensures 3 <= RebaseIntended(c, |s| + 6) <= |s| + 2
    ensures Shown(Track(s), RebaseIntended(c, |s| + 6)) == Shown(Track(s), c)
    ensures ActiveIndicator(RebaseIntended(c, |s| + 6), |s|) == ActiveIndicator(c, |s|)
  {
    var n := |s|;
    var r := RebaseIntended(c, n + 6);
    ShiftedSlide(s, c, r - c);
    ShiftedSlide(s, c + 1, r - c);
    ShiftedSlide(s, c + 2, r - c);
    SameResidue(c - 3, r - c, n);
  }

  /** Two track positions N apart show the same slide. */
  lemma ShiftedSlide<T>(s: seq<T>, j: int, d: int)
    requires |s| >= 3 && (d == 0 || d == |s| || d == -|s|)
    requires 0 <= j < |s| + 6 && 0 <= j + d < |s| + 6
    ensures Track(s)[j + d].slide == Track(s)[j].slide
  {
    TrackAt(s, j);
    TrackAt(s, j + d);
    SameResidue(j - 3, d, |s|);
  }

  /** Shifting by -N, 0 or N leaves the residue mod N unchanged. */
  lemma SameResidue(a: int, d: int, n: int)
    requires n > 0 && (d == 0 || d == n || d == -n)
    ensures (a + d) % n == a % n
  {
    if d == n {
      ModUnique(a + d, n, a / n + 1, a % n);
    } else if d == -n {
      ModUnique(a + d, n, a / n - 1, a % n);
    }
  }

  /** The cursor after `k` rounds of "next, then settle" from `c` (the code's
      settle step, on a track of N + 6 entries). */
  function NextTimes(c: int, n: nat, k: nat): int
    requires n >= 3
  {
    if k == 0 then c else Rebase(NextTimes(c, n, k - 1) + 1, n + 6)
  }

  /** The cursor after `k` rounds of "previous, then settle" from `c`, with
      the code's settle step. */
  function PrevTimes(c: int, n: nat, k: nat): int
    requires n >= 3
  {
    if k == 0 then c else Rebase(PrevTimes(c, n, k - 1) - 1, n + 6)
  }

  /** The same, with the corrected settle step. */
  function PrevTimesIntended(c: int, n: nat, k: nat): int
    requires n >= 3
  {
    if k == 0 then c else RebaseIntended(PrevTimesIntended(c, n, k - 1) - 1, n + 6)
  }

  lemma {:induction false} NextTimesWalks(n: nat, k: nat)
    requires n >= 3 && k < n
    ensures NextTimes(3, n, k) == 3 + k
  {
    if k > 0 {
      NextTimesWalks(n, k - 1);
    }
  }

  /** N rounds of "next" from the first slide come back to the first slide,
      having shown every slide at the cursor once on the way. */
  lemma NextCycleReturns(n: nat)
    requires n >= 3
    ensures NextTimes(3, n, n) == 3
    ensures forall k :: 0 <= k < n ==> NextTimes(3, n, k) == 3 + k
  {
    forall k | 0 <= k < n
      ensures NextTimes(3, n, k) == 3 + k
    {
      NextTimesWalks(n, k);
    }
  }

  /** With the code's settle step, "previous" alone never leaves slides N-2
      and N-1 at the cursor: from the first slide, every settle puts the
      cursor in 3 .. N. (During the first transition the cursor is briefly
      on 2, the clone of slide N-1; the settle then jumps to N, slide N-3.) */
  lemma {:induction false} PrevAsWrittenNeverReachesLastTwo(n: nat, k: nat)
    requires n >= 3
    ensures 3 <= PrevTimes(3, n, k) <= n
  {
    if k > 0 {
      PrevAsWrittenNeverReachesLastTwo(n, k - 1);
    }
  }

  lemma {:induction false} PrevIntendedWalks(n: nat, k: nat)
    requires n >= 3 && 0 < k <= n
    ensures PrevTimesIntended(3, n, k) == n + 3 - k
  {
    if k > 1 {
      PrevIntendedWalks(n, k - 1);
    }
  }

  /** With the corrected settle step, N rounds of "previous" from the first
      slide visit the last slide first and come back to the first slide. */
  lemma PrevIntendedCycleReturns(n: nat)
    requires n >= 3
    ensures PrevTimesIntended(3, n, 1) == n + 2
    ensures PrevTimesIntended(3, n, n) == 3
  {
    PrevIntendedWalks(n, 1);
    PrevIntendedWalks(n, n);
  }

  /** A fresh indicator row: one button per real slide, the first one
      active. */
  method NewIndicators(n: nat) returns (indicators: array<bool>)
    ensures fresh(indicators)
    ensures indicators[..] == Flags(n, 0)
  {
    indicators := new bool[n];
    for i := 0 to n
      invariant forall k :: 0 <= k < i ==> indicators[k] == (k == 0)
    {
      indicators[i] := i == 0;
    }
  }

  /** Toggles the `active` class of every element of a list so that only
      the one at position `k` has it. */
  method MarkOnly(active: array<bool>, k: int)
    modifies active
    ensures active[..] == Flags(active.Length, k)
  {
    for i := 0 to active.Length
      invariant forall j :: 0 <= j < i ==> active[j] == (j == k)
    {
      active[i] := i == k;
    }
  }

  /** The carousel's state: the track, the cursor, the in-flight flag, and
      the `active` classes of the track entries and of the indicators. */
  class Gallery<T> {
    const slides: seq<T>
    const n: nat
    const track: seq<Entry<T>>
    const slideActive: array<bool>
    const indicatorActive: array<bool>
    var cursor: int
    var transitioning: bool
    /** Whether the last render animated (a CSS transition) or was instant. */
    var animated: bool

    /** What never changes after initialisation. */
    ghost predicate Shaped()
    {
      n == |slides| && n >= 3 && track == Track(slides) &&
      slideActive.Length == |track| && indicatorActive.Length == n &&
      slideActive != indicatorActive
    }

    /** The display always shows the cursor, and a cursor with no transition
        pending is on a real slide. */
    ghost predicate Valid()
      reads this, slideActive, indicatorActive
    {
      Shaped() &&
      (!transitioning ==> 3 <= cursor <= n + 2) &&
      slideActive[..] == Flags(|track|, cursor + 1) &&
      indicatorActive[..] == Flags(n, ActiveIndicator(cursor, n))
    }

    /** The states the script can reach: besides `Valid()`, a transition in
        flight has moved the cursor at most one entry into the clones. */
    ghost predicate Reachable()
      reads this, slideActive, indicatorActive
    {
      Valid() && (transitioning ==> 2 <= cursor <= n + 3)
    }

    /** In every reachable state exactly one track entry is the centre slide
        and exactly one indicator is active. */
    lemma OneOfEachActive()
      requires Reachable()
      ensures CountActive(slideActive[..]) == 1
      ensures CountActive(indicatorActive[..]) == 1
    {
      RenderMarksOneOfEach(n, cursor);
    }

    /** Builds the track, puts the cursor on the first real slide, creates
        the indicators and renders without animation. */
    constructor (s: seq<T>)
      requires |s| >= 3
      ensures Reachable()
      ensures slides == s && track == Track(s)
      ensures cursor == 3 && !transitioning && !animated
      ensures indicatorActive[..] == Flags(|s|, 0)
      ensures fresh(slideActive) && fresh(indicatorActive)
    {
      slides := s;
      n := |s|;
      var built := BuildTrack(s);
      var indicators := NewIndicators(|s|);
      track := built;
      slideActive := new bool[|s| + 6];
      indicatorActive := indicators;
      cursor := 3;
      transitioning := false;
      animated := false;
      new;
      Render(false);
    }

    /** Marks the entry at `cursor + 1` as the centre slide and indicator
        `(cursor - 3 + N) % N` as active, clearing every other mark. */
    method Render(transition: bool)
      requires Shaped()
      modifies this`animated, slideActive, indicatorActive
      ensures animated == transition
      ensures slideActive[..] == Flags(|track|, cursor + 1)
      ensures indicatorActive[..] == Flags(n, ActiveIndicator(cursor, n))
    {
      animated := transition;
      MarkOnly(slideActive, cursor + 1);
      var realIndex := ActiveIndicator(cursor, n);
      MarkOnly(indicatorActive, realIndex);
    }

    /** Starts an animated transition to `index`, unless one is in flight,
        in which case nothing happens. */
    method GoToSlide(index: int)
      requires Valid()
      modifies this, slideActive, indicatorActive
      ensures Valid()
      ensures old(transitioning) ==> cursor == old(cursor) && animated == old(animated)
      ensures !old(transitioning) ==> cursor == index && animated
      ensures transitioning
    {
      if transitioning {
        return;
      }
      transitioning := true;
      cursor := index;
      Render(true);
    }

    /** The deferred callback of a transition: rebases a cursor that ran
        into the clones, re-rendering instantly, and ends the transition. */
    method Settle()
      requires Valid() && transitioning
      modifies this, slideActive, indicatorActive
      ensures Reachable() && !transitioning
      ensures cursor == Rebase(old(cursor), |track|)
      ensures 3 <= cursor <= n + 2
      ensures if cursor == old(cursor) then animated == old(animated) else !animated
    {
      var allSlides := |track|;
      if cursor >= allSlides - 3 {
        cursor := 3;
        Render(false);
      } else if cursor < 3 {
        cursor := allSlides - 6;
        Render(false);
      }
      transitioning := false;
    }

    method Next()
      requires Reachable()
      modifies this, slideActive, indicatorActive
      ensures Reachable() && transitioning
      ensures cursor == if old(transitioning) then old(cursor) else old(cursor) + 1
      ensures animated == if old(transitioning) then old(animated) else true
    {
      GoToSlide(cursor + 1);
    }

    method Prev()
      requires Reachable()
      modifies this, slideActive, indicatorActive
      ensures Reachable() && transitioning
      ensures cursor == if old(transitioning) then old(cursor) else old(cursor) - 1
      ensures animated == if old(transitioning) then old(animated) else true
    {
      GoToSlide(cursor - 1);
    }

    /** A click on indicator `i` moves the cursor to real slide `i`, which
        makes indicator `i` the active one. */
    method ClickIndicator(i: nat)
      requires Reachable() && i < n
      modifies this, slideActive, indicatorActive
      ensures Reachable() && transitioning
      ensures cursor == if old(transitioning) then old(cursor) else i + 3
      ensures animated == if old(transitioning) then old(animated) else true
      ensures !old(transitioning) ==> indicatorActive[i] && ActiveIndicator(cursor, n) == i
    {
      var wasTransitioning := transitioning;
      GoToSlide(i + 3);
      if !wasTransitioning {
        ModOfShifted(i, n, 0);
        assert indicatorActive[..][i] == Flags(n, i)[i];
      }
    }
  }
}
