/** Which children of a `.frame-19` container the estimator paginates, and
    the height it charges for each of them. */
module Sections {
  import opened Geometry

  /** A child element of a frame container, as the estimator sees it: its tag
      name (upper case for HTML elements), its text content and its rendered
      height in pixels, measured after the section styling is applied. */
  datatype Element = Element(tagName: string, textContent: string, height: nat)

  /** The characters JavaScript's `String.prototype.trim` removes: the
      WhiteSpace and LineTerminator code points of ECMAScript. */
  predicate IsJsWhiteSpace(c: char) {
    c == '\t' || c == '\n' || c == '\U{000B}' || c == '\U{000C}' || c == '\r'
    || c == ' ' || c == '\U{00A0}' || c == '\U{1680}'
    || ('\U{2000}' <= c <= '\U{200A}')
    || c == '\U{2028}' || c == '\U{2029}' || c == '\U{202F}' || c == '\U{205F}'
    || c == '\U{3000}' || c == '\U{FEFF}'
  }

  /** `s` with its leading white space removed. */
  function TrimStart(s: string): (r: string)
    ensures |r| <= |s| && r == s[|s| - |r|..]
    ensures forall i :: 0 <= i < |s| - |r| ==> IsJsWhiteSpace(s[i])
    ensures |r| == 0 || !IsJsWhiteSpace(r[0])
  {
    if |s| > 0 && IsJsWhiteSpace(s[0]) then TrimStart(s[1..]) else s
  }

  /** `s` with its trailing white space removed. */
  function TrimEnd(s: string): (r: string)
    ensures |r| <= |s| && r == s[..|r|]
    ensures forall i :: |r| <= i < |s| ==> IsJsWhiteSpace(s[i])
    ensures |r| == 0 || !IsJsWhiteSpace(r[|r| - 1])
  {
    if |s| > 0 && IsJsWhiteSpace(s[|s| - 1]) then TrimEnd(s[..|s| - 1]) else s
  }

  /** `String.prototype.trim`. */
  function Trim(s: string): string {
    TrimEnd(TrimStart(s))
  }

  /** Trimming leaves nothing exactly when the text is all white space. */
  lemma TrimEmptyIff(s: string)
    ensures |Trim(s)| == 0 <==> forall i :: 0 <= i < |s| ==> IsJsWhiteSpace(s[i])
  {
  }

  /** A child counts as a section when it is a DIV whose trimmed text is not
      empty. */
  predicate IsSection(e: Element) {
    e.tagName == "DIV" && |Trim(e.textContent)| > 0
  }

  /** The children of one frame that the estimator walks, in document order. */
  function SelectSections(children: seq<Element>): (r: seq<Element>)
    ensures |r| <= |children|
    ensures forall e :: e in r ==> IsSection(e) && e in children
    ensures forall e :: e in children && IsSection(e) ==> e in r
  {
    if |children| == 0 then []
    else (if IsSection(children[0]) then [children[0]] else []) + SelectSections(children[1..])
  }

  /** Selection distributes over concatenation, so it keeps the relative order
      of the children it retains. */
  lemma {:induction false} SelectSectionsAppend(a: seq<Element>, b: seq<Element>)
    ensures SelectSections(a + b) == SelectSections(a) + SelectSections(b)
    decreases |a|
  {
    if |a| > 0 {
      assert (a + b)[0] == a[0];
      assert (a + b)[1..] == a[1..] + b;
      SelectSectionsAppend(a[1..], b);
    } else {
      assert a + b == b;
    }
  }

  /** The height the estimator charges for a section: its measured height
      plus the fixed padding. */
  function EffectiveHeight(measured: nat): (h: nat)
    ensures h >= Padding
  {
    measured + Padding
  }

  /** The measured heights of the sections of one frame, in order. */
  function SectionHeights(children: seq<Element>): (r: seq<nat>)
    ensures |r| == |SelectSections(children)|
    ensures forall i :: 0 <= i < |r| ==> r[i] == SelectSections(children)[i].height
  {
    var sections := SelectSections(children);
    seq(|sections|, i requires 0 <= i < |sections| => sections[i].height)
  }

  /** The measured section heights of every frame of a document, frame by
      frame in document order. */
  function DocumentHeights(frames: seq<seq<Element>>): (r: seq<seq<nat>>)
    ensures |r| == |frames|
    ensures forall f :: 0 <= f < |frames| ==> r[f] == SectionHeights(frames[f])
  {
    seq(|frames|, f requires 0 <= f < |frames| => SectionHeights(frames[f]))
  }
}
