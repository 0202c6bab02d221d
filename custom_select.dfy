/**
  The custom select widgets of form.js: a styled list of options kept in
  step with the hidden native `<select>` before it. The widget state is
  whether it is active, whether its option list is hidden, the value text it
  shows, and per option the `aria-selected` attribute and the "highlight"
  class.
 */
module CustomSelect {

  /** The keys the keyup handler tells apart. */
  datatype Key = Escape | ArrowDown | ArrowUp | OtherKey

  /** The index the keyup handler commits, from the native selected index
      `i` and the number of options `n`: the arrows move by one and stop
      at the ends instead of wrapping. */
  function KeyTarget(key: Key, i: int, n: int): (j: int)
    ensures 0 <= i < n ==> 0 <= j < n
    ensures key == ArrowDown ==> j == if i < n - 1 then i + 1 else i
    ensures key == ArrowUp ==> j == if i > 0 then i - 1 else i
    ensures key == Escape || key == OtherKey ==> j == i
  {
    var down := if key == ArrowDown && i < n - 1 then i + 1 else i;
    if key == ArrowUp && down > 0 then down - 1 else down
  }

  /** The index after pressing the same key k times. */
  function Presses(key: Key, i: int, n: int, k: nat): int
    decreases k
  {
    if k == 0 then i else Presses(key, KeyTarget(key, i, n), n, k - 1)
  }

  function Min(a: int, b: int): int {
    if a <= b then a else b
  }

  function Max(a: int, b: int): int {
    if a >= b then a else b
  }

  /** k presses of ArrowDown from a valid index reach i + k, stopping at
      the last option. */
  lemma {:induction false} RepeatedDownClamps(i: int, n: int, k: nat)
    requires 0 <= i < n
    ensures Presses(ArrowDown, i, n, k) == Min(i + k, n - 1)
    decreases k
  {
    if k > 0 {
      RepeatedDownClamps(KeyTarget(ArrowDown, i, n), n, k - 1);
    }
  }

  /** k presses of ArrowUp from a valid index reach i - k, stopping at
      the first option. */
  lemma {:induction false} RepeatedUpClamps(i: int, n: int, k: nat)
    requires 0 <= i < n
    ensures Presses(ArrowUp, i, n, k) == Max(i - k, 0)
    decreases k
  {
    if k > 0 {
      RepeatedUpClamps(KeyTarget(ArrowUp, i, n), n, k - 1);
    }
  }

  /** With three options, two ArrowDowns from the first reach the last and
      a third one stays there; ArrowDown with nothing selected picks the
      first option. */
  lemma ArrowExamples()
    ensures Presses(ArrowDown, 0, 3, 2) == 2
    ensures Presses(ArrowDown, 0, 3, 3) == 2
    ensures KeyTarget(ArrowDown, -1, 3) == 0
  {
    RepeatedDownClamps(0, 3, 2);
    RepeatedDownClamps(0, 3, 3);
  }

  /** What the widget shows for the committed value. */
  datatype Selection = Selection(
    nativeIndex: int, valueText: string, valueSelected: bool, tabIndex: int, nativeTabIndex: int)

  /** One custom select: its options' texts, the native selected index,
      the classes and texts of its parts, and one flag per option for
      `aria-selected="true"` and for the "highlight" class. */
  class SelectWidget {
    const options: seq<string>
    const ariaSelected: array<bool>
    const highlight: array<bool>
    var nativeIndex: int        // nativeSelectField.selectedIndex
    var active: bool            // the widget has class "active"
    var listHidden: bool        // its .optList has class "hidden"
    var valueText: string       // its .value text
    var valueSelected: bool     // its .value has class "value--selected"
    var tabIndex: int
    var nativeTabIndex: int

    ghost predicate Valid()
      reads this
    {
      ariaSelected.Length == |options| && highlight.Length == |options| && ariaSelected != highlight
    }

    ghost function Committed(): Selection
      reads this
    {
      Selection(nativeIndex, valueText, valueSelected, tabIndex, nativeTabIndex)
    }

    /** The set-up of `handleCustomSelectFields`: the widget takes the
        keyboard focus instead of the native select. The initial
        `updateValue` call is commented out there, so no option is marked
        yet. */
    constructor (options: seq<string>, nativeIndex: int, listHidden: bool)
      ensures Valid() && fresh(ariaSelected) && fresh(highlight)
      ensures this.options == options && this.nativeIndex == nativeIndex && this.listHidden == listHidden
      ensures tabIndex == 0 && nativeTabIndex == -1 && !active
      ensures forall m | 0 <= m < |options| :: !ariaSelected[m] && !highlight[m]
    {
      this.options := options;
      ariaSelected := new bool[|options|](_ => false);
      highlight := new bool[|options|](_ => false);
      this.nativeIndex := nativeIndex;
      this.listHidden := listHidden;
      active := false;
      valueText := "";
      valueSelected := false;
      tabIndex := 0;
      nativeTabIndex := -1;
    }

    /** `highlightOption`: option k and no other carries the highlight. */
    method Highlight(k: nat)
      requires Valid() && k < |options|
      modifies highlight
      ensures forall m | 0 <= m < highlight.Length :: highlight[m] == (m == k)
    {
      var j := 0;
      while j < highlight.Length
        invariant 0 <= j <= highlight.Length
        invariant forall m | 0 <= m < j :: !highlight[m]
      {
        highlight[j] := false;
        j := j + 1;
      }
      highlight[k] := true;
    }

    /** `updateValue`: option i becomes the only selected and highlighted
        option, the native select follows, and the value text shows option i. */
    method UpdateValue(i: nat)
      requires Valid() && i < |options|
      modifies ariaSelected, highlight, this`nativeIndex, this`valueText, this`valueSelected
      ensures forall m | 0 <= m < |options| :: ariaSelected[m] == (m == i) && highlight[m] == (m == i)
      ensures nativeIndex == i && valueText == options[i] && valueSelected
    {
      var j := 0;
      while j < ariaSelected.Length
        invariant 0 <= j <= ariaSelected.Length
        invariant forall m | 0 <= m < j :: !ariaSelected[m]
      {
        ariaSelected[j] := false;
        j := j + 1;
      }
      ariaSelected[i] := true;
      nativeIndex := i;
      valueText := options[i];
      valueSelected := true;
      Highlight(i);
    }

    /** `deactivateSelect`: an active widget hides its list and becomes
        inactive; an inactive one is left alone. */
    method Deactivate()
      modifies this`active, this`listHidden
      ensures !active
      ensures listHidden == (old(listHidden) || old(active))
    {
      if !active {
        return;
      }
      listHidden := true;
      active := false;
    }

    /** `toggleOptList`: the list flips between hidden and shown. */
    method Toggle()
      modifies this`listHidden
      ensures listHidden == !old(listHidden)
    {
      listHidden := !listHidden;
    }

    /** `activeSelect`: on focus, an inactive widget first deactivates every
        widget of the form and then becomes the active one; an active
        widget ignores the focus. */
    method Focus(group: seq<SelectWidget>)
      modifies set w | w in group, this`active
      ensures active
      ensures listHidden == old(listHidden)
      ensures old(active) ==> forall w | w in group :: w.active == old(w.active) && w.listHidden == old(w.listHidden)
      ensures !old(active) ==> forall w | w in group && w != this ::
        !w.active && w.listHidden == (old(w.listHidden) || old(w.active))
      ensures forall w | w in group :: w.Committed() == old(w.Committed())
    {
      if active {
        return;
      }
      var i := 0;
      while i < |group|
        invariant 0 <= i <= |group|
        invariant !active && listHidden == old(listHidden)
        invariant forall w | w in group[..i] :: !w.active && w.listHidden == (old(w.listHidden) || old(w.active))
        invariant forall w | w in group && w !in group[..i] :: w.active == old(w.active) && w.listHidden == old(w.listHidden)
        invariant forall w | w in group :: w.Committed() == old(w.Committed())
      {
        group[i].Deactivate();
        assert group[..i + 1] == group[..i] + [group[i]];
        i := i + 1;
      }
      active := true;
    }

    /** The keyup handler: Escape deactivates the widget, the arrows move
        the native index by one within the list, and whatever the key, the
        resulting index is committed with `updateValue`. */
    method Keyup(key: Key)
      requires Valid()
      requires 0 <= KeyTarget(key, nativeIndex, |options|) < |options|
      modifies ariaSelected, highlight, this`nativeIndex, this`valueText, this`valueSelected,
        this`active, this`listHidden
      ensures nativeIndex == KeyTarget(key, old(nativeIndex), |options|)
      ensures forall m | 0 <= m < |options| :: ariaSelected[m] == (m == nativeIndex) && highlight[m] == (m == nativeIndex)
      ensures valueText == options[nativeIndex] && valueSelected
      ensures key == Escape ==> !active && listHidden == (old(listHidden) || old(active))
      ensures key != Escape ==> active == old(active) && listHidden == old(listHidden)
    {
      var index := nativeIndex;
      if key == Escape {
        Deactivate();
      }
      if key == ArrowDown && index < |options| - 1 {
        index := index + 1;
      }
      if key == ArrowUp && index > 0 {
        index := index - 1;
      }
      UpdateValue(index);
    }
  }
}
