/**
 * The FAQ accordion (`src/components/sections/FAQ.tsx`): one state variable,
 * `openIndex`, which names the expanded item or is `-1` when none is.
 */
module Faq {

  /** `useState<number>(0)`: the first item starts expanded. */
  const InitialOpen := 0

  /** The value written when the open item is clicked. */
  const Closed := -1

  /** `aria-expanded={openIndex === i}`, and the same test drives the answer's visibility. */
  predicate Expanded(openIndex: int, i: nat) {
    openIndex == i
  }

  /** The click handler of item `i`: `openIndex === i ? -1 : i`. */
  function Click(openIndex: int, i: nat): (r: int)
    ensures Expanded(openIndex, i) ==> forall j: nat :: !Expanded(r, j)
    ensures !Expanded(openIndex, i) ==> Expanded(r, i) && forall j: nat :: j != i ==> !Expanded(r, j)
  {
    if openIndex == i then Closed else i
  }

  /** The items of an accordion of `n` items that are expanded. */
  function ExpandedItems(openIndex: int, n: nat): (r: set<nat>)
    ensures |r| <= 1
    ensures forall i: nat :: i in r <==> i < n && Expanded(openIndex, i)
  {
    if 0 <= openIndex < n then {openIndex as nat} else {}
  }

  /** Clicking one item twice restores the state exactly when that item was open or none was. */
  lemma ClickTwice(openIndex: int, i: nat)
    ensures Click(Click(openIndex, i), i) == openIndex <==> openIndex == Closed || openIndex == i
  {
  }

  /** The state after a sequence of clicks, starting from the initial render. */
  function AfterClicks(clicks: seq<nat>): int
    decreases |clicks|
  {
    if |clicks| == 0 then InitialOpen
    else Click(AfterClicks(clicks[..|clicks| - 1]), clicks[|clicks| - 1])
  }

  /** Clicking only the accordion's own items keeps `openIndex` either closed or on one of them. */
  lemma {:induction false} ClicksStayInRange(clicks: seq<nat>, n: nat)
    requires n > 0
    requires forall k :: 0 <= k < |clicks| ==> clicks[k] < n
    ensures AfterClicks(clicks) == Closed || 0 <= AfterClicks(clicks) < n
    decreases |clicks|
  {
    if |clicks| > 0 {
      ClicksStayInRange(clicks[..|clicks| - 1], n);
    }
  }

  /** Whatever has been clicked, at most one item is expanded, and one is whenever the state is not closed. */
  lemma AtMostOneExpanded(clicks: seq<nat>, n: nat)
    requires n > 0
    requires forall k :: 0 <= k < |clicks| ==> clicks[k] < n
    ensures |ExpandedItems(AfterClicks(clicks), n)| <= 1
    ensures AfterClicks(clicks) != Closed ==> |ExpandedItems(AfterClicks(clicks), n)| == 1
  {
    ClicksStayInRange(clicks, n);
    if AfterClicks(clicks) != Closed {
      assert AfterClicks(clicks) as nat in ExpandedItems(AfterClicks(clicks), n);
    }
  }

  /** The component test's scenario: item 0 starts open, a click closes it, a click on item 1 opens that one. */
  lemma TestScenario()
    ensures Expanded(AfterClicks([]), 0)
    ensures !Expanded(AfterClicks([0]), 0) && AfterClicks([0]) == Closed
    ensures Expanded(AfterClicks([0, 1]), 1) && !Expanded(AfterClicks([0, 1]), 0)
  {
    assert [0, 1][..1] == [0];
    assert [0][..0] == [];
  }
}
