/** The estimator as the page script runs it: two nested loops over the
    frames and their selected sections, updating two variables in place. */
module EstimatorLoop {
  import opened Geometry
  import opened Sections
  import opened Estimator

  /** Walks every frame of the document, selects its sections and places each
      one, returning the last page expected to hold content and the break flag
      of every section. It computes exactly what the fold `Run` describes. */
  method EstimateLastPage(document: seq<seq<Element>>) returns (lastPage: nat, breaks: seq<seq<bool>>)
    ensures lastPage >= 1
    ensures lastPage == EstimateDocument(document)
    ensures |breaks| == |document|
    ensures forall f :: 0 <= f < |document| ==> |breaks[f]| == |SelectSections(document[f])|
    ensures breaks == Run(Start, DocumentHeights(document)).breaks
  {
    ghost var heights := DocumentHeights(document);
    var usedHeight: nat := FirstPageOffset;
    lastPage := 1;
    breaks := [];
    var f := 0;
    while f < |document|
      invariant 0 <= f <= |document|
      invariant Run(Start, heights[..f]) == Outcome(State(usedHeight, lastPage), breaks)
    {
      var sections := SectionHeights(document[f]);
      assert sections == heights[f];
      ghost var atFrameStart := State(usedHeight, lastPage);
      var flags: seq<bool> := [];
      var index := 0;
      while index < |sections|
        invariant 0 <= index <= |sections|
        invariant RunFrame(atFrameStart, sections[..index]) == FrameOutcome(State(usedHeight, lastPage), flags)
      {
        var sectionHeight := sections[index] + Padding;
        if sectionHeight >= PageHeight {
          lastPage := lastPage + CeilDiv(sectionHeight, PageHeight);
          flags := flags + [true];
          usedHeight := sectionHeight % PageHeight;
        } else if usedHeight + sectionHeight + Margin >= PageHeight {
          if index != 0 {
            flags := flags + [true];
          } else {
            flags := flags + [false];
          }
          usedHeight := sectionHeight;
          lastPage := lastPage + 1;
        } else {
          usedHeight := usedHeight + sectionHeight;
          flags := flags + [false];
        }
        assert sections[..index + 1][..index] == sections[..index];
        index := index + 1;
      }
      assert sections[..index] == sections;
      assert heights[..f + 1][..f] == heights[..f];
      breaks := breaks + [flags];
      f := f + 1;
    }
    assert heights[..f] == heights;
  }
}
