/**
 * The FAQ accordion as values: every `.faq-item` of the document, in document
 * order, with the state the script reads and writes. All items form one group:
 * opening one closes every other open item in the whole document.
 */
module Faq {

  /**
   * One `.faq-item`: its `active` class, the `aria-expanded` attribute of its
   * `.faq-question`, whether it has a `.faq-answer`, and whether that answer
   * carries an inline `max-height` (the pixel value itself is presentation).
   */
  datatype Item = Item(active: bool, ariaExpanded: bool, hasAnswer: bool, answerHeightSet: bool)

  /** No two items are open at once. */
  predicate AtMostOneOpen(s: seq<Item>) {
    forall i, j :: 0 <= i < |s| && 0 <= j < |s| && s[i].active && s[j].active ==> i == j
  }

  /** Every question's `aria-expanded` and every answer's height agree with its item's `active` class. */
  predicate Consistent(s: seq<Item>) {
    forall i :: 0 <= i < |s| ==> Shows(s[i])
  }

  /**
   * Every question's `aria-expanded` agrees with its item's `active` class. Unlike
   * `Consistent`, this survives the Escape handler, which leaves answer heights.
   */
  predicate AriaConsistent(s: seq<Item>) {
    forall i :: 0 <= i < |s| ==> s[i].ariaExpanded == s[i].active
  }

  predicate Shows(it: Item) {
    it.ariaExpanded == it.active && (it.hasAnswer ==> it.answerHeightSet == it.active)
  }

  /** What `toggleFAQ` does to an open item other than its target. */
  function Collapse(it: Item): Item {
    it.(active := false, ariaExpanded := false,
        answerHeightSet := if it.hasAnswer then false else it.answerHeightSet)
  }

  /** What `toggleFAQ` does to its target item. */
  function Flip(it: Item): Item {
    it.(active := !it.active, ariaExpanded := !it.active,
        answerHeightSet := if it.hasAnswer then !it.active else it.answerHeightSet)
  }

  /**
   * `toggleFAQ` on the question of item `t`: every other open item is closed and
   * `t` flips. Afterwards `t` alone may be open, its question and answer show its
   * new state, every item that was closed shows closed, and items that were
   * already closed are left as they were. No item gains or loses its answer.
   */
  function Toggle(s: seq<Item>, t: nat): (r: seq<Item>)
    requires t < |s|
    ensures |r| == |s|
    ensures r[t].active == !s[t].active && Shows(r[t])
    ensures forall i :: 0 <= i < |s| && i != t ==> !r[i].active
    ensures forall i :: 0 <= i < |s| && i != t && s[i].active ==> Shows(r[i])
    ensures forall i :: 0 <= i < |s| && i != t && !s[i].active ==> r[i] == s[i]
    ensures forall i :: 0 <= i < |s| ==> r[i].hasAnswer == s[i].hasAnswer
    ensures forall i :: 0 <= i < |s| && !s[i].hasAnswer ==> r[i].answerHeightSet == s[i].answerHeightSet
    ensures AtMostOneOpen(r)
  {
    seq(|s|, i requires 0 <= i < |s| =>
      if i == t then Flip(s[i]) else if s[i].active then Collapse(s[i]) else s[i])
  }

  /**
   * The Escape handler's loop: every open item loses `active` and its question
   * shows `aria-expanded = false`. Unlike `toggleFAQ` it leaves each answer's
   * `max-height` alone. Items that were closed are untouched.
   */
  function CloseAll(s: seq<Item>): (r: seq<Item>)
    ensures |r| == |s|
    ensures forall i :: 0 <= i < |s| ==> !r[i].active && r[i].answerHeightSet == s[i].answerHeightSet
    ensures forall i :: 0 <= i < |s| ==> r[i].hasAnswer == s[i].hasAnswer
    ensures forall i :: 0 <= i < |s| && s[i].active ==> !r[i].ariaExpanded
    ensures forall i :: 0 <= i < |s| && !s[i].active ==> r[i] == s[i]
  {
    seq(|s|, i requires 0 <= i < |s| =>
      if s[i].active then s[i].(active := false, ariaExpanded := false) else s[i])
  }

  /** Toggling keeps questions and answers in step with their items. */
  lemma ToggleKeepsConsistent(s: seq<Item>, t: nat)
    requires t < |s| && Consistent(s)
    ensures Consistent(Toggle(s, t))
  {
  }

  /** Toggling keeps every question's `aria-expanded` in step with its item. */
  lemma ToggleKeepsAriaConsistent(s: seq<Item>, t: nat)
    requires t < |s| && AriaConsistent(s)
    ensures AriaConsistent(Toggle(s, t))
  {
  }

  /** Escape keeps every question's `aria-expanded` in step with its item. */
  lemma CloseAllKeepsAriaConsistent(s: seq<Item>)
    requires AriaConsistent(s)
    ensures AriaConsistent(CloseAll(s))
  {
  }

  /**
   * Two toggles of the same item in a row give that item back its own state
   * (its `active` class always; the whole item when it showed its state before).
   */
  lemma ToggleTwiceRestoresTarget(s: seq<Item>, t: nat)
    requires t < |s|
    ensures Toggle(Toggle(s, t), t)[t].active == s[t].active
    ensures Shows(s[t]) ==> Toggle(Toggle(s, t), t)[t] == s[t]
  {
  }

  /**
   * When no other item is open and the target shows its own state, a second
   * toggle undoes the first on the whole accordion. (If another item was open, the
   * first toggle closed it and the second does not reopen it.)
   */
  lemma ToggleTwiceIsIdentity(s: seq<Item>, t: nat)
    requires t < |s| && Shows(s[t])
    requires forall i :: 0 <= i < |s| && i != t ==> !s[i].active
    ensures Toggle(Toggle(s, t), t) == s
  {
    var r := Toggle(Toggle(s, t), t);
    forall i | 0 <= i < |s| ensures r[i] == s[i] {
      if i == t {
        ToggleTwiceRestoresTarget(s, t);
      }
    }
  }

  /** Closing all twice is the same as closing all once. */
  lemma CloseAllIdempotent(s: seq<Item>)
    ensures CloseAll(CloseAll(s)) == CloseAll(s)
  {
    var once := CloseAll(s);
    forall i | 0 <= i < |s| ensures CloseAll(once)[i] == once[i] {
    }
  }

  /**
   * When every question shows its item's state (as toggles and Escape both
   * keep), Escape leaves every item closed and every question showing closed.
   */
  lemma CloseAllShowsClosed(s: seq<Item>)
    requires AriaConsistent(s)
    ensures forall i :: 0 <= i < |s| ==> !CloseAll(s)[i].active && !CloseAll(s)[i].ariaExpanded
  {
  }

  /**
   * Escape and a toggle both close an open item `t`, but only the toggle clears
   * its answer's `max-height`: after Escape the answer keeps its height.
   */
  lemma EscapeKeepsAnswerHeight(s: seq<Item>, t: nat)
    requires t < |s| && Consistent(s) && s[t].active && s[t].hasAnswer
    ensures !CloseAll(s)[t].active && CloseAll(s)[t].answerHeightSet
    ensures !Toggle(s, t)[t].active && !Toggle(s, t)[t].answerHeightSet
  {
  }
}
