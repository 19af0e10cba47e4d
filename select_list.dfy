/**
 * The keyboard-driven list of the menus: an active index that wraps at
 * both ends, Return to choose the active entry, Escape to leave when the
 * caller asked to hear about it, and a fresh start whenever the entries
 * change.
 */
module SelectList {
  import opened Options
  import opened Cursor

  datatype SelectItem = SelectItem(labelText: string, value: string, description: Option<string>)

  /** The keys the list reacts to; any other key leaves it as it is. */
  datatype SelectKey = Up | Down | Return | Escape | OtherKey

  /**
   * What a key press reports to the caller: nothing, the chosen entry
   * (`None` when the index is outside the list, as JavaScript then passes
   * `undefined`), or a cancellation.
   */
  datatype Outcome = NoAction | Selected(item: Option<SelectItem>) | Cancelled

  datatype Reaction = Reaction(index: int, outcome: Outcome)

  /** The key handler, on the active index. */
  function SelectStep(index: int, items: seq<SelectItem>, key: SelectKey, hasCancel: bool): (r: Reaction)
    ensures key != Up && key != Down ==> r.index == index
    ensures r.outcome.Selected? <==> key == Return
    ensures r.outcome.Cancelled? <==> key == Escape && hasCancel
    ensures key == Return && 0 <= index < |items| ==> r.outcome == Selected(Some(items[index]))
  {
    match key
    case Up => Reaction(WrapUp(index, |items|), NoAction)
    case Down => Reaction(WrapDown(index, |items|), NoAction)
    case Return => Reaction(index, Selected(if 0 <= index < |items| then Some(items[index]) else None))
    case Escape => Reaction(index, if hasCancel then Cancelled else NoAction)
    case OtherKey => Reaction(index, NoAction)
  }

  /** The state after a run of keys, from a given index. */
  function AfterKeys(index: int, items: seq<SelectItem>, keys: seq<SelectKey>, hasCancel: bool): int
    decreases |keys|
  {
    if keys == [] then index
    else AfterKeys(SelectStep(index, items, keys[0], hasCancel).index, items, keys[1..], hasCancel)
  }

  /** On a non-empty list the active index stays within the list, whatever keys arrive. */
  lemma {:induction false} IndexStaysInRange(index: int, items: seq<SelectItem>, keys: seq<SelectKey>, hasCancel: bool)
    requires 0 <= index < |items|
    ensures 0 <= AfterKeys(index, items, keys, hasCancel) < |items|
    decreases |keys|
  {
    if keys != [] {
      WrapInRange(index, |items|);
      IndexStaysInRange(SelectStep(index, items, keys[0], hasCancel).index, items, keys[1..], hasCancel);
    }
  }

  /** Up and down move round the list: up from the first entry is the last, down from the last is the first. */
  lemma UpAndDown(index: int, items: seq<SelectItem>, hasCancel: bool)
    requires 0 <= index < |items|
    ensures SelectStep(index, items, Up, hasCancel).index == (index - 1) % |items|
    ensures SelectStep(index, items, Down, hasCancel).index == (index + 1) % |items|
    ensures SelectStep(SelectStep(index, items, Up, hasCancel).index, items, Down, hasCancel).index == index
    ensures SelectStep(SelectStep(index, items, Down, hasCancel).index, items, Up, hasCancel).index == index
  {
    WrapInRange(index, |items|);
    WrapInverse(index, |items|);
  }

  /** The list as a component instance: its entries, whether a cancel handler was supplied, and the active index. */
  class SelectCursor {
    var items: seq<SelectItem>
    const hasCancel: bool
    var activeIndex: int

    /** A list starts on its first entry. */
    constructor (items: seq<SelectItem>, hasCancel: bool)
      ensures this.items == items && this.hasCancel == hasCancel && activeIndex == 0
    {
      this.items := items;
      this.hasCancel := hasCancel;
      activeIndex := 0;
    }

    /** New entries put the cursor back on the first one. */
    method SetItems(newItems: seq<SelectItem>)
      modifies this
      ensures items == newItems && activeIndex == 0
    {
      items := newItems;
      activeIndex := 0;
    }

    /** One key press: the new active index and what is reported to the caller. */
    method HandleKey(key: SelectKey) returns (outcome: Outcome)
      modifies this
      ensures items == old(items)
      ensures Reaction(activeIndex, outcome) == SelectStep(old(activeIndex), items, key, hasCancel)
    {
      if key == Up {
        activeIndex := if activeIndex <= 0 then |items| - 1 else activeIndex - 1;
        outcome := NoAction;
      } else if key == Down {
        activeIndex := if activeIndex >= |items| - 1 then 0 else activeIndex + 1;
        outcome := NoAction;
      } else if key == Return {
        outcome := Selected(if 0 <= activeIndex < |items| then Some(items[activeIndex]) else None);
      } else if key == Escape && hasCancel {
        outcome := Cancelled;
      } else {
        outcome := NoAction;
      }
    }
  }
}
