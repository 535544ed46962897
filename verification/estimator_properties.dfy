/** Properties of the pagination estimator: what the break flags mean, how
    the state carries across frames, and the bounds the estimate obeys. */
module EstimatorProperties {
  import opened Geometry
  import opened Sections
  import opened Estimator

  /* ---------------------------------------------------------------------- */
  /* Sums over the sections                                                 */
  /* ---------------------------------------------------------------------- */

  /** Sum of the effective heights of the sections of one frame. */
  function FrameTotal(heights: seq<nat>): nat
    decreases |heights|
  {
    if |heights| == 0 then 0
    else FrameTotal(heights[..|heights| - 1]) + EffectiveHeight(heights[|heights| - 1])
  }

  /** Sum of the effective heights of all sections of all frames. */
  function Total(frames: seq<seq<nat>>): nat
    decreases |frames|
  {
    if |frames| == 0 then 0
    else Total(frames[..|frames| - 1]) + FrameTotal(frames[|frames| - 1])
  }

  /** Sum, over the sections of one frame, of the pages each one needs alone. */
  function FramePages(heights: seq<nat>): nat
    decreases |heights|
  {
    if |heights| == 0 then 0
    else FramePages(heights[..|heights| - 1]) + CeilDiv(EffectiveHeight(heights[|heights| - 1]), PageHeight)
  }

  /** Sum, over all sections, of the pages each one needs alone. */
  function DocumentPages(frames: seq<seq<nat>>): nat
    decreases |frames|
  {
    if |frames| == 0 then 0
    else DocumentPages(frames[..|frames| - 1]) + FramePages(frames[|frames| - 1])
  }

  /** No break flag is set anywhere. */
  predicate NoBreaks(breaks: seq<seq<bool>>) {
    forall f, j :: 0 <= f < |breaks| && 0 <= j < |breaks[f]| ==> !breaks[f][j]
  }

  /* ---------------------------------------------------------------------- */
  /* The flags and states of the fold, section by section                   */
  /* ---------------------------------------------------------------------- */

  /** The flag of section `j` of a frame is the decision `Place` takes for it,
      from the state the earlier sections of the frame leave. */
  lemma {:induction false} FrameBreakAt(s: State, heights: seq<nat>, j: nat)
    requires j < |heights|
    ensures RunFrame(s, heights).breaks[j]
            == Place(RunFrame(s, heights[..j]).final, EffectiveHeight(heights[j]), j).breakBefore
    ensures Place(RunFrame(s, heights[..j]).final, EffectiveHeight(heights[j]), j).next
            == RunFrame(s, heights[..j + 1]).final
    decreases |heights|
  {
    var init := heights[..|heights| - 1];
    if j == |heights| - 1 {
      assert heights[..j] == init;
      assert heights[..j + 1] == heights;
    } else {
      FrameBreakAt(s, init, j);
      assert init[..j] == heights[..j];
      assert init[..j + 1] == heights[..j + 1];
      assert init[j] == heights[j];
    }
  }

  /** The flags of frame `f` are those of that frame run alone, from the state
      the earlier frames leave. */
  lemma {:induction false} RunBreaksAt(s: State, frames: seq<seq<nat>>, f: nat)
    requires f < |frames|
    ensures Run(s, frames).breaks[f] == RunFrame(Run(s, frames[..f]).final, frames[f]).breaks
    ensures RunFrame(Run(s, frames[..f]).final, frames[f]).final == Run(s, frames[..f + 1]).final
    decreases |frames|
  {
    var init := frames[..|frames| - 1];
    if f == |frames| - 1 {
      assert frames[..f] == init;
      assert frames[..f + 1] == frames;
    } else {
      RunBreaksAt(s, init, f);
      assert init[..f] == frames[..f];
      assert init[..f + 1] == frames[..f + 1];
      assert init[f] == frames[f];
    }
  }

  /** The flag of every section is the decision `Place` takes for it, from the
      state just before it, and that decision yields the state just after it. */
  lemma BreakFlagAt(frames: seq<seq<nat>>, f: nat, j: nat)
    requires f < |frames| && j < |frames[f]|
    ensures Run(Start, frames).breaks[f][j]
            == Place(Before(frames, f, j), EffectiveHeight(frames[f][j]), j).breakBefore
    ensures Place(Before(frames, f, j), EffectiveHeight(frames[f][j]), j).next
            == Before(frames, f, j + 1)
  {
    RunBreaksAt(Start, frames, f);
    FrameBreakAt(Run(Start, frames[..f]).final, frames[f], j);
  }

  /** The state is not reset between frames: the first frame starts from the
      initial state, and every later frame starts where the previous one ended. */
  lemma StateCarriesAcrossFrames(frames: seq<seq<nat>>, f: nat)
    requires f < |frames|
    ensures f == 0 ==> Before(frames, f, 0) == Start
    ensures f > 0 ==> Before(frames, f, 0) == Before(frames, f - 1, |frames[f - 1]|)
  {
    assert frames[f][..0] == [];
    if f == 0 {
      assert frames[..0] == [];
    } else {
      RunBreaksAt(Start, frames, f - 1);
      assert frames[f - 1][..|frames[f - 1]|] == frames[f - 1];
    }
  }

  /** The first section of any frame gets a break exactly when it is taller
      than a page: a frame's index restarts at 0, so the move-to-next-page
      branch never marks it. */
  lemma FirstSectionBreak(frames: seq<seq<nat>>, f: nat)
    requires f < |frames| && |frames[f]| > 0
    ensures Run(Start, frames).breaks[f][0] <==> EffectiveHeight(frames[f][0]) >= PageHeight
  {
    BreakFlagAt(frames, f, 0);
  }

  /** Past the first section of a frame, a break is marked exactly before the
      sections that open a new page. */
  lemma BreakIffNewPage(frames: seq<seq<nat>>, f: nat, j: nat)
    requires f < |frames| && 0 < j < |frames[f]|
    ensures Run(Start, frames).breaks[f][j]
            <==> Before(frames, f, j + 1).lastPage > Before(frames, f, j).lastPage
  {
    BreakFlagAt(frames, f, j);
  }

  /* ---------------------------------------------------------------------- */
  /* Monotonicity of the page counter                                       */
  /* ---------------------------------------------------------------------- */

  lemma {:induction false} FramePrefixMonotone(s: State, heights: seq<nat>, j: nat)
    requires j <= |heights|
    ensures RunFrame(s, heights[..j]).final.lastPage <= RunFrame(s, heights).final.lastPage
    decreases |heights|
  {
    if j == |heights| {
      assert heights[..j] == heights;
    } else {
      var init := heights[..|heights| - 1];
      assert init[..j] == heights[..j];
      FramePrefixMonotone(s, init, j);
    }
  }

  lemma {:induction false} RunPrefixMonotone(s: State, frames: seq<seq<nat>>, f: nat)
    requires f <= |frames|
    ensures Run(s, frames[..f]).final.lastPage <= Run(s, frames).final.lastPage
    decreases |frames|
  {
    if f == |frames| {
      assert frames[..f] == frames;
    } else {
      var init := frames[..|frames| - 1];
      assert init[..f] == frames[..f];
      RunPrefixMonotone(s, init, f);
    }
  }

  /** The page counter never decreases: every intermediate state is on a page
      no later than the estimate, and no earlier than page 1. */
  lemma BeforeWithinEstimate(frames: seq<seq<nat>>, f: nat, j: nat)
    requires f < |frames| && j <= |frames[f]|
    ensures 1 <= Before(frames, f, j).lastPage <= Estimate(frames)
    ensures Before(frames, f, j).usedHeight < PageHeight
  {
    var s := Run(Start, frames[..f]).final;
    FramePrefixMonotone(s, frames[f], j);
    RunBreaksAt(Start, frames, f);
    RunPrefixMonotone(Start, frames, f + 1);
  }

  /** A section of effective height `h >= PageHeight` pushes the estimate at
      least `CeilDiv(h, PageHeight)` pages past page 1; in particular one taller
      than two pages (say two and a half) makes the estimate at least 4. */
  lemma OversizedSectionPages(frames: seq<seq<nat>>, f: nat, j: nat)
    requires f < |frames| && j < |frames[f]|
    requires EffectiveHeight(frames[f][j]) >= PageHeight
    ensures Estimate(frames) >= Before(frames, f, j).lastPage + CeilDiv(EffectiveHeight(frames[f][j]), PageHeight)
    ensures Estimate(frames) >= 1 + CeilDiv(EffectiveHeight(frames[f][j]), PageHeight)
    ensures EffectiveHeight(frames[f][j]) > 2 * PageHeight ==> Estimate(frames) >= 4
  {
    BreakFlagAt(frames, f, j);
    BeforeWithinEstimate(frames, f, j);
    BeforeWithinEstimate(frames, f, j + 1);
  }

  /* ---------------------------------------------------------------------- */
  /* Single-page documents                                                  */
  /* ---------------------------------------------------------------------- */

  lemma {:induction false} FrameStaysOnPage(s: State, heights: seq<nat>)
    requires s.usedHeight + Margin < PageHeight
    ensures RunFrame(s, heights).final.lastPage == s.lastPage
            <==> s.usedHeight + FrameTotal(heights) + Margin < PageHeight
    ensures RunFrame(s, heights).final.lastPage == s.lastPage ==>
              RunFrame(s, heights).final.usedHeight == s.usedHeight + FrameTotal(heights)
              && forall j :: 0 <= j < |heights| ==> !RunFrame(s, heights).breaks[j]
    decreases |heights|
  {
    if |heights| > 0 {
      FrameStaysOnPage(s, heights[..|heights| - 1]);
    }
  }

  lemma {:induction false} RunStaysOnPage(s: State, frames: seq<seq<nat>>)
    requires s.usedHeight + Margin < PageHeight
    ensures Run(s, frames).final.lastPage == s.lastPage
            <==> s.usedHeight + Total(frames) + Margin < PageHeight
    ensures Run(s, frames).final.lastPage == s.lastPage ==>
              Run(s, frames).final.usedHeight == s.usedHeight + Total(frames)
              && NoBreaks(Run(s, frames).breaks)
    decreases |frames|
  {
    if |frames| > 0 {
      var init := frames[..|frames| - 1];
      var prev := Run(s, init);
      RunStaysOnPage(s, init);
      if s.usedHeight + Total(init) + Margin < PageHeight {
        FrameStaysOnPage(prev.final, frames[|frames| - 1]);
      }
    }
  }

  /** The estimate is 1 exactly when the first-page offset, every section and
      the margin below the last one fit on one page; no break is marked then. */
  lemma OnePageIff(frames: seq<seq<nat>>)
    ensures Estimate(frames) == 1 <==> FirstPageOffset + Total(frames) + Margin < PageHeight
    ensures Estimate(frames) == 1 ==> NoBreaks(Run(Start, frames).breaks)
  {
    RunStaysOnPage(Start, frames);
  }

  /* ---------------------------------------------------------------------- */
  /* Bounds on the estimate                                                 */
  /* ---------------------------------------------------------------------- */

  /** Pixels from the top of page 1 to the bottom of the used height. */
  function Position(s: State): int {
    (s.lastPage - 1) * PageHeight + s.usedHeight
  }

  /** A height the oversized branch handles without losing a page: anything
      that is not an exact multiple of the page height. */
  predicate NotExactMultiple(h: nat) {
    h >= PageHeight ==> h % PageHeight != 0
  }

  lemma PlaceAdvances(s: State, h: nat, index: nat)
    requires s.usedHeight < PageHeight && s.lastPage >= 1
    requires NotExactMultiple(h)
    ensures Position(Place(s, h, index).next) >= Position(s) + h
  {
    var L := s.lastPage;
    if h >= PageHeight {
      var k := CeilDiv(h, PageHeight);
      CeilDivFloor(h, PageHeight);
      assert (L + k - 1) * PageHeight == L * PageHeight + (k - 1) * PageHeight;
      assert Position(Place(s, h, index).next) == L * PageHeight + h;
    } else if s.usedHeight + h + Margin >= PageHeight {
      assert Position(Place(s, h, index).next) == L * PageHeight + h;
    }
  }

  lemma {:induction false} FrameAdvances(s: State, heights: seq<nat>)
    requires s.usedHeight < PageHeight && s.lastPage >= 1
    requires forall i :: 0 <= i < |heights| ==> NotExactMultiple(EffectiveHeight(heights[i]))
    ensures Position(RunFrame(s, heights).final) >= Position(s) + FrameTotal(heights)
    decreases |heights|
  {
    if |heights| > 0 {
      var n := |heights| - 1;
      FrameAdvances(s, heights[..n]);
      PlaceAdvances(RunFrame(s, heights[..n]).final, EffectiveHeight(heights[n]), n);
    }
  }

  lemma {:induction false} RunAdvances(s: State, frames: seq<seq<nat>>)
    requires s.usedHeight < PageHeight && s.lastPage >= 1
    requires forall f, i :: 0 <= f < |frames| && 0 <= i < |frames[f]| ==>
               NotExactMultiple(EffectiveHeight(frames[f][i]))
    ensures Position(Run(s, frames).final) >= Position(s) + Total(frames)
    decreases |frames|
  {
    if |frames| > 0 {
      var n := |frames| - 1;
      FrameAdvances(Run(s, frames[..n]).final, frames[n]);
      RunAdvances(s, frames[..n]);
    }
  }

  /** Unless some section's effective height is an exact multiple of the page
      height, the estimated pages have room for the first-page offset and all
      sections: the estimate never undercounts the content's volume. */
  lemma CapacityBound(frames: seq<seq<nat>>)
    requires forall f, i :: 0 <= f < |frames| && 0 <= i < |frames[f]| ==>
               NotExactMultiple(EffectiveHeight(frames[f][i]))
    ensures FirstPageOffset + Total(frames) < Estimate(frames) * PageHeight
  {
    RunAdvances(Start, frames);
  }

  /** The exception is real: a section exactly two pages tall leaves a used
      height of 0 on a full page, so the next section is stacked on it and the
      estimate (3) is less than the pages the content fills. */
  lemma ExactMultipleUndercounts()
    ensures !NotExactMultiple(EffectiveHeight(2204))
    ensures Estimate([[2204, 950]]) == 3
    ensures Estimate([[2204, 950]]) * PageHeight < FirstPageOffset + Total([[2204, 950]])
  {
    var frames: seq<seq<nat>> := [[2204, 950]];
    var hs: seq<nat> := [2204, 950];
    assert frames[..0] == [];
    assert hs[..1][..0] == [];
    assert hs[..1] == [2204];
    assert Run(Start, frames[..0]).final == Start;
    assert RunFrame(Start, hs[..1]).final == State(0, 3);
    assert RunFrame(Start, hs).final == State(990, 3);
    assert FrameTotal(hs[..1]) == 2244;
    assert FrameTotal(hs) == 3234;
  }

  /** The estimate never exceeds page 1 plus, for every section, the pages
      that section needs on its own. */
  lemma {:induction false} FramePagesBound(s: State, heights: seq<nat>)
    ensures RunFrame(s, heights).final.lastPage <= s.lastPage + FramePages(heights)
    decreases |heights|
  {
    if |heights| > 0 {
      FramePagesBound(s, heights[..|heights| - 1]);
    }
  }

  lemma {:induction false} RunPagesBound(s: State, frames: seq<seq<nat>>)
    ensures Run(s, frames).final.lastPage <= s.lastPage + DocumentPages(frames)
    decreases |frames|
  {
    if |frames| > 0 {
      var n := |frames| - 1;
      RunPagesBound(s, frames[..n]);
      FramePagesBound(Run(s, frames[..n]).final, frames[n]);
    }
  }

  lemma UpperBound(frames: seq<seq<nat>>)
    ensures Estimate(frames) <= 1 + DocumentPages(frames)
  {
    RunPagesBound(Start, frames);
  }
}
