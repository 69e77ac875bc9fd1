/** The page component's state holder: the checked-state array that the click
    handlers replace, the storage key the effect writes it back to, and the
    count and percentage the header renders from it. */
module MilestonePage {
  import opened Checklist

  class Milestone {
    /** Whether the component runs in a browser (`typeof window !== "undefined"`). */
    const inBrowser: bool
    /** The current `checkedState` array. */
    var checkedState: array<Slot>
    /** What the storage key holds: after every change the effect writes the
        current state back (JSON round trips keep `Slot`s as they are). Outside
        a browser there is no storage, hence None. */
    ghost var stored: Option<seq<Slot>>

    /** The persistence effect has run for the current state, and outside a
        browser nothing was stored. */
    ghost predicate Valid()
      reads this, checkedState
    {
      stored == if inBrowser then Some(checkedState[..]) else None
    }

    /** Mounting the component: the state is initialised from storage and the
        effect then writes it straight back. */
    constructor (inBrowser: bool, saved: Option<seq<Slot>>)
      ensures Valid() && fresh(checkedState)
      ensures this.inBrowser == inBrowser
      ensures checkedState[..] == InitialState(inBrowser, saved)
    {
      var initial := InitialState(inBrowser, saved);
      this.inBrowser := inBrowser;
      var entries := new Slot[|initial|](k requires 0 <= k < |initial| => initial[k]);
      assert entries[..] == initial;
      checkedState := entries;
      stored := if inBrowser then Some(initial) else None;
    }

    /** `toggleCheckbox(index)`: the state becomes a fresh copy of the old array,
        grown to cover `index` if need be, with entry `index` flipped; the old
        array is left as it was. */
    method Toggle(index: nat)
      requires Valid()
      modifies this
      ensures Valid() && fresh(checkedState)
      ensures checkedState[..] == Flip(old(checkedState[..]), index)
      ensures old(checkedState)[..] == old(checkedState[..])
      ensures old(checkedState.Length) <= TotalCheckboxes && index < TotalCheckboxes
              ==> checkedState.Length <= TotalCheckboxes
    {
      var prev := checkedState;
      var n := if index < prev.Length then prev.Length else index + 1;
      var next := new Slot[n];
      var k := 0;
      while k < n
        invariant 0 <= k <= n
        invariant forall j :: 0 <= j < k ==> next[j] == At(prev[..], j)
      {
        next[k] := if k < prev.Length then prev[k] else Absent;
        k := k + 1;
      }
      next[index] := Value(!Truthy(next[index]));
      checkedState := next;
      stored := if inBrowser then Some(next[..]) else None;
      assert next[..] == Flip(prev[..], index);
    }

    /** The "Reset Progress" button: the state becomes a new empty array. */
    method Reset()
      requires Valid()
      modifies this
      ensures Valid() && fresh(checkedState)
      ensures checkedState[..] == []
      ensures CompletedCount() == 0
    {
      var empty := new Slot[0];
      assert empty[..] == [];
      checkedState := empty;
      stored := if inBrowser then Some([]) else None;
    }

    /** `completedCount`: how many entries of the current state are truthy. */
    function CompletedCount(): (n: nat)
      reads this, checkedState
      ensures n <= checkedState.Length
      ensures checkedState.Length <= TotalCheckboxes ==> n == |CheckedCells(checkedState[..])|
    {
      GridCountMatchesCellsIfShort(checkedState[..]);
      Count(checkedState[..])
    }

    /** `completionPercentage`, on the reals. */
    function CompletionPercentage(): (p: real)
      reads this, checkedState
      ensures p == CompletedCount() as real / 10.0
      ensures checkedState.Length <= TotalCheckboxes ==> 0.0 <= p <= 100.0
    {
      Percentage(CompletedCount())
    }
  }

  lemma GridCountMatchesCellsIfShort(s: seq<Slot>)
    ensures |s| <= TotalCheckboxes ==> Count(s) == |CheckedCells(s)|
  {
    if |s| <= TotalCheckboxes {
      GridCountMatchesCells(s);
    }
  }

  /** A click that the grid issues, twice on the same cell, brings every cell
      back to its rendered state and the count back to what it was. */
  method ClickTwice(page: Milestone, index: nat)
    requires page.Valid()
    modifies page
    ensures page.Valid()
    ensures forall k :: Truthy(At(page.checkedState[..], k)) == Truthy(At(old(page.checkedState[..]), k))
    ensures page.CompletedCount() == old(page.CompletedCount())
  {
    ghost var before := page.checkedState[..];
    page.Toggle(index);
    FlipCount(before, index);
    ghost var middle := page.checkedState[..];
    page.Toggle(index);
    FlipCount(middle, index);
    FlipTwice(before, index);
  }
}
