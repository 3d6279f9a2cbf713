/** The FAQ accordion (script.js, lines 16-33). The `.faq-item` elements are
    an array of `active` flags; a click on the question of item `i` clears
    `active` on every other item and then toggles item `i`. */
module Faq {

  /** At most one item is open. */
  predicate AtMostOneActive(s: seq<bool>) {
    forall j, k :: 0 <= j < |s| && 0 <= k < |s| && s[j] && s[k] ==> j == k
  }

  predicate NoneActive(s: seq<bool>) {
    forall j :: 0 <= j < |s| ==> !s[j]
  }

  /** The first phase of a click: every item other than `i` is closed,
      item `i` keeps its state. */
  function CloseOthers(s: seq<bool>, i: nat): (r: seq<bool>)
    requires i < |s|
  {
    seq(|s|, j requires 0 <= j < |s| => j == i && s[j])
  }

  /** The state after a click on item `i`: close the others, then toggle `i`. */
  function AfterClick(s: seq<bool>, i: nat): (r: seq<bool>)
    requires i < |s|
  {
    var c := CloseOthers(s, i);
    c[i := !c[i]]
  }

  /** The states after a sequence of clicks, applied in order. */
  function AfterClicks(s: seq<bool>, clicks: seq<nat>): (r: seq<bool>)
    requires forall n :: 0 <= n < |clicks| ==> clicks[n] < |s|
    ensures |r| == |s|
    decreases |clicks|
  {
    if clicks == [] then s
    else AfterClicks(AfterClick(s, clicks[0]), clicks[1..])
  }

  /** The click handler, looping over all items as the source does. */
  method Click(items: array<bool>, i: nat)
    requires i < items.Length
    modifies items
    ensures items[..] == AfterClick(old(items[..]), i)
  {
    for k := 0 to items.Length
      invariant forall m :: 0 <= m < k ==> items[m] == (m == i && old(items[m]))
      invariant forall m :: k <= m < items.Length ==> items[m] == old(items[m])
    {
      if k != i && items[k] {
        items[k] := false;
      }
    }
    items[i] := !items[i];
  }

  /** After a click, every item other than `i` is closed and item `i` has
      flipped. */
  lemma ClickIsolates(s: seq<bool>, i: nat)
    requires i < |s|
    ensures |AfterClick(s, i)| == |s|
    ensures AfterClick(s, i)[i] == !s[i]
    ensures forall j :: 0 <= j < |s| && j != i ==> !AfterClick(s, i)[j]
  {
  }

  /** Whatever the state before, a click leaves at most one item open. */
  lemma ClickLeavesAtMostOne(s: seq<bool>, i: nat)
    requires i < |s|
    ensures AtMostOneActive(AfterClick(s, i))
  {
    ClickIsolates(s, i);
  }

  /** Clicking an open item closes it, and then every item is closed. */
  lemma ClickOpenCloses(s: seq<bool>, i: nat)
    requires i < |s| && s[i]
    ensures NoneActive(AfterClick(s, i))
  {
    ClickIsolates(s, i);
  }

  /** Two clicks on the same item restore that item's state; when no other
      item was open they restore every item. */
  lemma ClickTwice(s: seq<bool>, i: nat)
    requires i < |s|
    ensures AfterClick(AfterClick(s, i), i)[i] == s[i]
    ensures (forall j :: 0 <= j < |s| && j != i ==> !s[j]) ==>
              AfterClick(AfterClick(s, i), i) == s
  {
    ClickIsolates(s, i);
    ClickIsolates(AfterClick(s, i), i);
  }

  /** At most one item is open after any sequence of clicks that starts
      from such a state, and after any non-empty sequence of clicks at all. */
  lemma {:induction false} ClicksKeepAtMostOne(s: seq<bool>, clicks: seq<nat>)
    requires forall n :: 0 <= n < |clicks| ==> clicks[n] < |s|
    requires AtMostOneActive(s) || clicks != []
    ensures AtMostOneActive(AfterClicks(s, clicks))
    decreases |clicks|
  {
    if clicks != [] {
      ClickLeavesAtMostOne(s, clicks[0]);
      ClicksKeepAtMostOne(AfterClick(s, clicks[0]), clicks[1..]);
    }
  }
}
