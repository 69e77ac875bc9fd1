/** The checklist state of the milestone page as a value: the array of checkbox
    entries, the toggle that the page's click handler applies to it, the count
    and percentage derived from it, and the sessions of clicks a user can make. */
module Checklist {

  /** The fixed number of checkboxes the page renders. */
  const TotalCheckboxes: nat := 1000

  datatype Option<T> = None | Some(value: T)

  /** One entry of the checked-state array as JavaScript sees it: a boolean, or
      nothing at all. `Absent` stands for a hole left when an assignment grows
      the array, the `undefined` a spread copy puts in its place, and the `null`
      that a JSON round trip turns it into; all three are falsy. */
  datatype Slot = Absent | Value(b: bool)

  /** The truthiness JavaScript gives to an entry (`Boolean(e)`, `!!e`). */
  predicate Truthy(e: Slot) {
    e.Value? && e.b
  }

  /** Reading index `k` of the array: past the end the read gives `undefined`. */
  function At(s: seq<Slot>, k: nat): Slot {
    if k < |s| then s[k] else Absent
  }

  /** The array after an assignment at index `n - 1` has grown it to length `n`:
      the entries it had are kept and every new one below `n - 1` is a hole. */
  function Pad(s: seq<Slot>, n: nat): (r: seq<Slot>)
    ensures |r| == if n <= |s| then |s| else n
    ensures r[..|s|] == s
    ensures forall k :: |s| <= k < |r| ==> r[k] == Absent
    ensures forall k :: 0 <= k < |r| ==> r[k] == At(s, k)
    decreases n - |s|
  {
    if n <= |s| then s else Pad(s + [Absent], n)
  }

  /** What `toggleCheckbox(index)` makes of the state `s`: a copy grown just
      enough to cover `index`, in which entry `index` is the negation of its old
      truthiness (an absent entry becomes `true`) and every other index keeps
      its old value, or is absent when the growth added it. */
  function Flip(s: seq<Slot>, index: nat): (r: seq<Slot>)
    ensures |r| == if index < |s| then |s| else index + 1
    ensures r[index] == Value(!Truthy(At(s, index)))
    ensures forall k :: 0 <= k < |r| && k != index ==> r[k] == At(s, k)
  {
    var grown := Pad(s, index + 1);
    grown[index := Value(!Truthy(grown[index]))]
  }

  /** `checkedState.filter(Boolean).length`: the number of truthy entries. */
  function Count(s: seq<Slot>): (n: nat)
    ensures n <= |s|
  {
    if s == [] then 0
    else Count(s[..|s| - 1]) + (if Truthy(s[|s| - 1]) then 1 else 0)
  }

  /** `(completedCount / TOTAL_CHECKBOXES) * 100`, on the reals. */
  function Percentage(count: nat): (p: real)
    ensures p == count as real / 10.0
    ensures 0.0 <= p
    ensures count <= TotalCheckboxes ==> p <= 100.0
  {
    (count as real / TotalCheckboxes as real) * 100.0
  }

  /** The state the page starts with. `saved` is None when the storage key is
      missing or holds the empty string (both make the code parse `"[]"`), and
      otherwise the array that `JSON.parse` makes of the stored text. Outside a
      browser there is no storage and the state is empty. */
  function InitialState(inBrowser: bool, saved: Option<seq<Slot>>): (s: seq<Slot>)
    ensures !inBrowser || saved.None? ==> s == []
    ensures inBrowser && saved.Some? ==> s == saved.value
  {
    if inBrowser then
      match saved
      case None => []
      case Some(parsed) => parsed
    else []
  }

  /** The indices whose entry is truthy: an independent account of the count. */
  ghost function TruthyIndices(s: seq<Slot>): set<nat> {
    set k: nat | k < |s| && Truthy(s[k])
  }

  /** The grid cells rendered as checked: cell `i` shows a tick exactly when
      `checkedState[i]` is truthy. */
  ghost function CheckedCells(s: seq<Slot>): set<nat> {
    set i: nat | i < TotalCheckboxes && Truthy(At(s, i))
  }

  // ---------------------------------------------------------------------------
  // The toggle

  /** Toggling the same index twice restores the truthiness of every entry, and
      restores the entry itself when it was a boolean; an entry that was absent
      comes back as `false`, not absent. */
  lemma FlipTwice(s: seq<Slot>, index: nat)
    ensures |Flip(Flip(s, index), index)| == |Flip(s, index)|
    ensures forall k :: Truthy(At(Flip(Flip(s, index), index), k)) == Truthy(At(s, k))
    ensures At(s, index) == Absent ==> Flip(Flip(s, index), index)[index] == Value(false)
    ensures index < |s| && s[index].Value? ==> Flip(Flip(s, index), index) == s
  {
  }

  // ---------------------------------------------------------------------------
  // The count

  /** The count is the number of indices holding a truthy entry. */
  lemma {:induction false} CountIsTruthyIndices(s: seq<Slot>)
    ensures Count(s) == |TruthyIndices(s)|
  {
    if s != [] {
      var front := s[..|s| - 1];
      CountIsTruthyIndices(front);
      var last := |s| - 1;
      if Truthy(s[last]) {
        assert TruthyIndices(s) == TruthyIndices(front) + {last};
        assert last !in TruthyIndices(front);
      } else {
        assert TruthyIndices(s) == TruthyIndices(front);
      }
    }
  }

  /** Appending an entry adds one to the count exactly when it is truthy. */
  lemma CountAppend(s: seq<Slot>, e: Slot)
    ensures Count(s + [e]) == Count(s) + (if Truthy(e) then 1 else 0)
  {
  }

  /** Replacing entry `k` changes the count by the truthiness of the new entry
      minus that of the old one. */
  lemma {:induction false} CountUpdate(s: seq<Slot>, k: nat, e: Slot)
    requires k < |s|
    ensures Count(s[k := e]) + (if Truthy(s[k]) then 1 else 0)
         == Count(s) + (if Truthy(e) then 1 else 0)
  {
    var last := |s| - 1;
    var t := s[k := e];
    if k == last {
      assert t[..last] == s[..last];
    } else {
      assert t[..last] == s[..last][k := e];
      CountUpdate(s[..last], k, e);
    }
  }

  /** The holes a growing assignment leaves are not counted. */
  lemma {:induction false} CountPad(s: seq<Slot>, n: nat)
    ensures Count(Pad(s, n)) == Count(s)
    decreases n - |s|
  {
    if n > |s| {
      CountPad(s + [Absent], n);
      CountAppend(s, Absent);
    }
  }

  /** A toggle raises the count by one when the entry was falsy and lowers it by
      one when it was truthy. */
  lemma FlipCount(s: seq<Slot>, index: nat)
    ensures Truthy(At(s, index)) ==> Count(Flip(s, index)) == Count(s) - 1
    ensures !Truthy(At(s, index)) ==> Count(Flip(s, index)) == Count(s) + 1
  {
    var grown := Pad(s, index + 1);
    CountPad(s, index + 1);
    CountUpdate(grown, index, Value(!Truthy(grown[index])));
  }

  /** While the state is no longer than the grid, the count shown in the header
      equals the number of grid cells rendered as checked. */
  lemma GridCountMatchesCells(s: seq<Slot>)
    requires |s| <= TotalCheckboxes
    ensures Count(s) == |CheckedCells(s)|
  {
    CountIsTruthyIndices(s);
    assert CheckedCells(s) == TruthyIndices(s);
  }

  // ---------------------------------------------------------------------------
  // Sessions of clicks

  /** What a user can do on the page: click the cell at an index, or click
      "Reset Progress". */
  datatype Action = Click(index: nat) | ResetProgress

  /** A click that the grid can issue: its cells carry the indices 0 to 999. */
  predicate OnGrid(a: Action) {
    a.Click? ==> a.index < TotalCheckboxes
  }

  /** The state after one action: a click toggles its cell, moving the count
      by one, and keeps a state no longer than the grid that way; a reset
      empties the state whatever it was, so the count drops to zero. */
  function Step(s: seq<Slot>, a: Action): (r: seq<Slot>)
    ensures a.ResetProgress? ==> r == [] && Count(r) == 0
    ensures a.Click? && Truthy(At(s, a.index)) ==> Count(r) + 1 == Count(s)
    ensures a.Click? && !Truthy(At(s, a.index)) ==> Count(r) == Count(s) + 1
    ensures a.Click? ==> forall k :: k != a.index ==> Truthy(At(r, k)) == Truthy(At(s, k))
    ensures OnGrid(a) && |s| <= TotalCheckboxes ==> |r| <= TotalCheckboxes
  {
    match a
    case Click(i) => FlipCount(s, i); Flip(s, i)
    case ResetProgress => []
  }

  function Run(s: seq<Slot>, actions: seq<Action>): seq<Slot>
    decreases |actions|
  {
    if actions == [] then s else Run(Step(s, actions[0]), actions[1..])
  }

  /** Starting no longer than the grid and clicking only grid cells, the state
      stays no longer than the grid, the count stays at most 1000 and the
      percentage stays between 0 and 100. */
  lemma {:induction false} GridRunStaysBounded(s: seq<Slot>, actions: seq<Action>)
    requires |s| <= TotalCheckboxes
    requires forall j :: 0 <= j < |actions| ==> OnGrid(actions[j])
    ensures |Run(s, actions)| <= TotalCheckboxes
    ensures Count(Run(s, actions)) <= TotalCheckboxes
    ensures 0.0 <= Percentage(Count(Run(s, actions))) <= 100.0
    decreases |actions|
  {
    if actions != [] {
      var next := Step(s, actions[0]);
      GridRunStaysBounded(next, actions[1..]);
    }
  }

  lemma {:induction false} RunAppend(s: seq<Slot>, first: seq<Action>, a: Action)
    ensures Run(s, first + [a]) == Step(Run(s, first), a)
    decreases |first|
  {
    if first == [] {
      assert first + [a] == [a];
    } else {
      assert (first + [a])[1..] == first[1..] + [a];
      RunAppend(Step(s, first[0]), first[1..], a);
    }
  }

  /** Clicking the cells 0, 1, ..., n-1 in turn. */
  function ClickFirst(n: nat): (actions: seq<Action>)
    ensures |actions| == n
    ensures forall j :: 0 <= j < n ==> actions[j] == Click(j)
  {
    if n == 0 then [] else ClickFirst(n - 1) + [Click(n - 1)]
  }

  /** A state of `n` checked entries. */
  function AllChecked(n: nat): (s: seq<Slot>)
    ensures |s| == n
    ensures forall k :: 0 <= k < n ==> s[k] == Value(true)
  {
    if n == 0 then [] else AllChecked(n - 1) + [Value(true)]
  }

  /** Clicking the first cell past a run of checked ones extends the run. */
  lemma ClickExtendsRun(m: nat)
    ensures Flip(AllChecked(m), m) == AllChecked(m + 1)
  {
  }

  lemma {:induction false} CountAllChecked(n: nat)
    ensures Count(AllChecked(n)) == n
  {
    if n > 0 {
      assert AllChecked(n)[..n - 1] == AllChecked(n - 1);
      CountAllChecked(n - 1);
    }
  }

  /** From the empty state, clicking the first `n` cells in turn checks exactly
      them, so the count is `n`; clicking the first hundred gives a count of 100
      and 10 percent. */
  lemma {:induction false} ClickFirstChecksThem(n: nat)
    ensures Run([], ClickFirst(n)) == AllChecked(n)
    ensures Count(Run([], ClickFirst(n))) == n
    ensures n == 100 ==> Percentage(Count(Run([], ClickFirst(n)))) == 10.0
  {
    if n > 0 {
      ClickFirstChecksThem(n - 1);
      assert ClickFirst(n) == ClickFirst(n - 1) + [Click(n - 1)];
      RunAppend([], ClickFirst(n - 1), Click(n - 1));
      ClickExtendsRun(n - 1);
    }
    CountAllChecked(n);
  }
}
