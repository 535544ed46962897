/** The pagination estimator: a state machine over the sections of the
    `.frame-19` containers, in document order, that predicts the last page
    holding content and marks the sections that must start a new page. */
module Estimator {
  import opened Geometry
  import opened Sections

  /** Running state: pixels taken on the current page, and the 1-based number
      of that page. */
  datatype State = State(usedHeight: nat, lastPage: nat)

  /** The state before the first section: page 1, with the first-page offset
      already taken. */
  const Start: State := State(FirstPageOffset, 1)

  /** The three mutually exclusive ways a section of effective height `h` is
      placed. */
  datatype Placement =
    | Oversized  // taller than a page: it gets pages of its own
    | NewPage    // does not fit with the margin below it: it moves to the next page
    | Fits       // it goes on the current page

  function Classify(usedHeight: nat, h: nat): Placement {
    if h >= PageHeight then Oversized
    else if usedHeight + h + Margin >= PageHeight then NewPage
    else Fits
  }

  /** The state after one section, and whether a page break is forced before it. */
  datatype Step = Step(next: State, breakBefore: bool)

  /** Places one section of effective height `h`, which is the `index`-th
      section of its frame. */
  function Place(s: State, h: nat, index: nat): (r: Step)
    ensures r.next.usedHeight < PageHeight
    ensures r.next.lastPage >= s.lastPage
    // the page counter stays put exactly when the section fits below the
    // used height with the margin to spare, and then the section is stacked
    ensures r.next.lastPage == s.lastPage <==> s.usedHeight + h + Margin < PageHeight
    ensures r.next.lastPage == s.lastPage ==> r.next.usedHeight == s.usedHeight + h && !r.breakBefore
    // a section taller than a page opens CeilDiv(h, PageHeight) new pages,
    // always behind a forced break, and leaves its overhang as the used height
    ensures h >= PageHeight ==>
      r.breakBefore && r.next.lastPage == s.lastPage + CeilDiv(h, PageHeight)
      && r.next.usedHeight == h % PageHeight
    // a section that moves to the next page opens exactly one page, on which
    // it is the only content; the break is forced unless it is first in its frame
    ensures h < PageHeight <= s.usedHeight + h + Margin ==>
      r.next == State(h, s.lastPage + 1) && (r.breakBefore <==> index != 0)
    // a break is only ever forced before a section that opens a new page
    ensures r.breakBefore ==> r.next.lastPage > s.lastPage
    // no section opens more pages than its own height needs
    ensures h > 0 ==> r.next.lastPage <= s.lastPage + CeilDiv(h, PageHeight)
  {
    match Classify(s.usedHeight, h)
    case Oversized =>
      Step(State(h % PageHeight, s.lastPage + CeilDiv(h, PageHeight)), true)
    case NewPage =>
      Step(State(h, s.lastPage + 1), index != 0)
    case Fits =>
      Step(State(s.usedHeight + h, s.lastPage), false)
  }

  /** The state after a frame, and one break flag per section of the frame. */
  datatype FrameOutcome = FrameOutcome(final: State, breaks: seq<bool>)

  /** Walks the sections of one frame (their measured heights) from state `s`.
      The index of a section is its position within the frame. */
  function RunFrame(s: State, heights: seq<nat>): (r: FrameOutcome)
    ensures |r.breaks| == |heights|
    ensures r.final.lastPage >= s.lastPage
    ensures s.usedHeight < PageHeight ==> r.final.usedHeight < PageHeight
    decreases |heights|
  {
    if |heights| == 0 then FrameOutcome(s, [])
    else
      var prev := RunFrame(s, heights[..|heights| - 1]);
      var step := Place(prev.final, EffectiveHeight(heights[|heights| - 1]), |heights| - 1);
      FrameOutcome(step.next, prev.breaks + [step.breakBefore])
  }

  /** The state after a sequence of frames, and the break flags frame by frame. */
  datatype Outcome = Outcome(final: State, breaks: seq<seq<bool>>)

  /** Walks frames in order from state `s`; the state carries over from one
      frame to the next. */
  function Run(s: State, frames: seq<seq<nat>>): (r: Outcome)
    ensures |r.breaks| == |frames|
    ensures forall f :: 0 <= f < |frames| ==> |r.breaks[f]| == |frames[f]|
    ensures r.final.lastPage >= s.lastPage
    ensures s.usedHeight < PageHeight ==> r.final.usedHeight < PageHeight
    decreases |frames|
  {
    if |frames| == 0 then Outcome(s, [])
    else
      var prev := Run(s, frames[..|frames| - 1]);
      var last := RunFrame(prev.final, frames[|frames| - 1]);
      Outcome(last.final, prev.breaks + [last.breaks])
  }

  /** The last page expected to hold content, for the measured section heights
      of each frame. */
  function Estimate(frames: seq<seq<nat>>): (n: nat)
    ensures n >= 1
  {
    Run(Start, frames).final.lastPage
  }

  /** The estimate for a document: its frames' children, filtered to sections. */
  function EstimateDocument(frames: seq<seq<Element>>): (n: nat)
    ensures n >= 1
  {
    Estimate(DocumentHeights(frames))
  }

  /** The state just before section `j` of frame `f` is placed. */
  function Before(frames: seq<seq<nat>>, f: nat, j: nat): State
    requires f < |frames| && j <= |frames[f]|
  {
    RunFrame(Run(Start, frames[..f]).final, frames[f][..j]).final
  }
}
