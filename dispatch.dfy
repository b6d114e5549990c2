/**
 * The matching rule of `keybinds.invoke`: which binds of a candidate list fire for
 * a key event, in what order, and what each firing does to the event.
 */
module Dispatch {
  import opened Binding

  /** The parts of a keyboard event the dispatcher reads. */
  datatype KeyEvent = KeyEvent(key: string, ctrlKey: bool, shiftKey: bool, altKey: bool)

  /**
   * One firing: the bind that ran, the action it ran, and whether the event's
   * `preventDefault` and `stopPropagation` were called after it.
   */
  datatype Firing = Firing(id: nat, action: Action, preventDefault: bool, stopPropagation: bool)

  /** Strict equality of all three modifier flags; there is no "don't care". */
  predicate ModifiersMatch(b: Bind, e: KeyEvent) {
    e.ctrlKey == b.ctrl && e.shiftKey == b.shift && e.altKey == b.alt
  }

  /** A bind fires for an event when it is enabled and its modifiers match exactly. */
  predicate Eligible(b: Bind, e: KeyEvent)
    reads b
  {
    b.isEnabled && ModifiersMatch(b, e)
  }

  /** What firing `b` records. */
  function FiringOf(b: Bind): (f: Firing)
    reads b
  {
    Firing(b.id, b.action, b.preventDefault, b.stopPropagation)
  }

  /** The firings one pass over `list` produces, in list order. */
  function Firings(list: seq<Bind>, e: KeyEvent): (r: seq<Firing>)
    reads list
    ensures |r| <= |list|
  {
    if list == [] then []
    else
      var last := list[|list| - 1];
      Firings(list[..|list| - 1], e) + (if Eligible(last, e) then [FiringOf(last)] else [])
  }

  /** The binds whose one-shot wrapper runs during the pass, each scheduling its own removal. */
  function OnceRemovals(list: seq<Bind>, e: KeyEvent): (r: seq<Bind>)
    reads list
    ensures |r| <= |Firings(list, e)|
  {
    if list == [] then []
    else
      var last := list[|list| - 1];
      OnceRemovals(list[..|list| - 1], e) +
        (if Eligible(last, e) && last.action.CallThenRemove? then [last] else [])
  }

  /** One more bind of the list: its firing, if any, comes after the earlier ones. */
  lemma PassStep(list: seq<Bind>, i: nat, e: KeyEvent)
    requires i < |list|
    ensures Firings(list[..i + 1], e) ==
      Firings(list[..i], e) + (if Eligible(list[i], e) then [FiringOf(list[i])] else [])
    ensures OnceRemovals(list[..i + 1], e) ==
      OnceRemovals(list[..i], e) + (if Eligible(list[i], e) && list[i].action.CallThenRemove? then [list[i]] else [])
  {
    assert list[..i + 1][..i] == list[..i];
  }

  /** A pass over two lists one after the other fires the first list's binds, then the second's. */
  lemma {:induction false} FiringsAppend(a: seq<Bind>, b: seq<Bind>, e: KeyEvent)
    ensures Firings(a + b, e) == Firings(a, e) + Firings(b, e)
    decreases |b|
  {
    if b == [] {
      assert a + b == a;
    } else {
      var n := |b| - 1;
      assert (a + b)[..|a + b| - 1] == a + b[..n];
      FiringsAppend(a, b[..n], e);
    }
  }

  /**
   * A firing is produced exactly for the enabled binds whose modifiers equal the
   * event's, and records that bind's suppression flags.
   */
  lemma {:induction false} FiringsExactlyEligible(list: seq<Bind>, e: KeyEvent, f: Firing)
    ensures f in Firings(list, e) <==>
      exists i :: 0 <= i < |list| && Eligible(list[i], e) && f == FiringOf(list[i])
    decreases |list|
  {
    if list != [] {
      var n := |list| - 1;
      FiringsExactlyEligible(list[..n], e, f);
      if f in Firings(list, e) && f !in Firings(list[..n], e) {
        assert Eligible(list[n], e) && f == FiringOf(list[n]);
      }
      if i :| 0 <= i < |list| && Eligible(list[i], e) && f == FiringOf(list[i]) {
        if i < n {
          assert list[..n][i] == list[i];
        }
      }
    }
  }

  /**
   * No early exit and registration order: if two binds of the list are both eligible,
   * the earlier one fires before the later one in the same pass.
   */
  lemma FiringsInListOrder(list: seq<Bind>, e: KeyEvent, i: nat, j: nat)
    requires i < j < |list|
    requires Eligible(list[i], e) && Eligible(list[j], e)
    ensures exists p, q ::
      0 <= p < q < |Firings(list, e)| &&
      Firings(list, e)[p] == FiringOf(list[i]) && Firings(list, e)[q] == FiringOf(list[j])
  {
    var front, back := list[..j], list[j..];
    assert list == front + back;
    FiringsAppend(front, back, e);
    var ff := Firings(front, e);
    assert front[i] == list[i];
    FiringsExactlyEligible(front, e, FiringOf(list[i]));
    var p :| 0 <= p < |ff| && ff[p] == FiringOf(list[i]);
    assert back == [list[j]] + back[1..];
    FiringsAppend([list[j]], back[1..], e);
    assert [list[j]][..0] == [];
    assert Firings([list[j]], e) == [FiringOf(list[j])];
    var fb := Firings(back, e);
    assert fb[0] == FiringOf(list[j]);
    assert Firings(list, e) == ff + fb;
    var q := |ff|;
    assert Firings(list, e)[p] == FiringOf(list[i]) && Firings(list, e)[q] == FiringOf(list[j]);
  }

  /** The binds that schedule their removal are among those that fire, with one-shot actions. */
  lemma {:induction false} OnceRemovalsFired(list: seq<Bind>, e: KeyEvent, b: Bind)
    ensures b in OnceRemovals(list, e) <==>
      b in list && Eligible(b, e) && b.action.CallThenRemove?
    decreases |list|
  {
    if list != [] {
      var n := |list| - 1;
      OnceRemovalsFired(list[..n], e, b);
      assert list == list[..n] + [list[n]];
    }
  }
}
