/** The terminal selector of `src/menu.rs`.

    A `Menu` holds a note, a list of items and the index of the selected item.
    `show` reads key presses one by one: Down and Up move the selection
    without wrapping around, Enter confirms it, `q`, Esc and Ctrl-C end the
    whole process with exit code 0, and every other key is ignored. When the
    keys run out or Enter is pressed, the selected item is returned.

    The key-by-key behaviour is the pure function `React`, folded over the
    key sequence by `Run`; the `Menu` class holds the mutable state and
    its `Show` method is proved to do what `Run` and `Choose` say. Drawing is reduced
    to what `redraw` decides for each item: where it goes and whether it gets
    the `o` marker. */
module Menus {

  /** The key events the selector distinguishes (`termion::event::Key`);
      every other key is `Other`. Enter arrives as `Char('\n')`. */
  datatype Key = Up | Down | Char(c: char) | Ctrl(c: char) | Esc | Other

  /** What one key does to the selection. */
  datatype Reaction = Move(selected: nat) | Confirm | Cancel

  /** How a session over a key sequence ended. */
  datatype Ending = Confirmed | Cancelled | KeysRanOut

  /** The selection when the session ended, and how it ended. */
  datatype Session = Session(selected: nat, ending: Ending)

  /** What `show` yields: the chosen item; the end of the whole process with
      exit code 0 (a cancel key); or a panic, because `&self.items[selected]`
      is out of bounds when the menu has no items. */
  datatype Shown = Picked(item: string) | Quit(code: int) | IndexPanic

  /** The reaction to one key, with `count` items and `selected` the current
      index. Down uses `checked_add(1)` and only moves when the new index is
      below `count`; Up uses `checked_sub(1)` and only moves above 0. */
  function React(count: nat, selected: nat, k: Key): Reaction
  {
    match k
    case Down => if selected + 1 < count then Move(selected + 1) else Move(selected)
    case Up => if selected > 0 then Move(selected - 1) else Move(selected)
    case Char(c) =>
      if c == '\n' then Confirm
      else if c == 'q' then Cancel
      else Move(selected)
    case Ctrl(c) => if c == 'c' then Cancel else Move(selected)
    case Esc => Cancel
    case Other => Move(selected)
  }

  /** The keys that end the process: `q`, Esc and Ctrl-C. */
  predicate IsCancelKey(k: Key)
  {
    k == Char('q') || k == Esc || k == Ctrl('c')
  }

  /** `React` folded over the keys: the loop in `show`, stopping at the
      first confirming or cancelling key. */
  function Run(count: nat, selected: nat, keys: seq<Key>): Session
    decreases |keys|
  {
    if keys == [] then Session(selected, KeysRanOut)
    else match React(count, selected, keys[0])
      case Move(s) => Run(count, s, keys[1..])
      case Confirm => Session(selected, Confirmed)
      case Cancel => Session(selected, Cancelled)
  }

  /** What `show` returns for a menu of `items`, starting at `selected`, when
      the user presses `keys`. */
  function Choose(items: seq<string>, selected: nat, keys: seq<Key>): Shown
  {
    var s := Run(|items|, selected, keys);
    if s.ending == Cancelled then Quit(0)
    else if s.selected < |items| then Picked(items[s.selected])
    else IndexPanic
  }

  // ---------------------------------------------------------------------------
  // Properties of a single key
  // ---------------------------------------------------------------------------

  /** Down moves to the next item only when there is one; at the last item it
      stays, without wrapping to the first. */
  lemma DownClamps(count: nat, selected: nat)
    ensures selected + 1 < count ==> React(count, selected, Down) == Move(selected + 1)
    ensures selected + 1 >= count ==> React(count, selected, Down) == Move(selected)
  {
  }

  /** Up moves to the previous item only above the first; at the first it
      stays, without wrapping to the last. */
  lemma UpClamps(count: nat, selected: nat)
    ensures selected > 0 ==> React(count, selected, Up) == Move(selected - 1)
    ensures selected == 0 ==> React(count, selected, Up) == Move(0)
  {
  }

  /** Exactly Enter confirms, exactly the cancel keys cancel, and every other
      key other than Up and Down leaves the selection where it is. */
  lemma KeyClasses(count: nat, selected: nat, k: Key)
    ensures React(count, selected, k) == Confirm <==> k == Char('\n')
    ensures React(count, selected, k) == Cancel <==> IsCancelKey(k)
    ensures k != Up && k != Down && k != Char('\n') && !IsCancelKey(k) ==>
              React(count, selected, k) == Move(selected)
  {
  }

  /** A key moves the selection by at most one, and never out of a non-empty
      list: the bound `selected < count` survives every key. */
  lemma ReactKeepsBounds(count: nat, selected: nat, k: Key)
    requires selected < count
    ensures React(count, selected, k).Move? ==>
              React(count, selected, k).selected < count &&
              -1 <= React(count, selected, k).selected - selected <= 1
  {
  }

  // ---------------------------------------------------------------------------
  // Properties of a whole session
  // ---------------------------------------------------------------------------

  /** With items present and the selection in range, the selection stays in
      range after every key the loop handles. */
  lemma {:induction false} RunKeepsBounds(count: nat, selected: nat, keys: seq<Key>)
    requires selected < count
    ensures Run(count, selected, keys).selected < count
    decreases |keys|
  {
    if keys != [] {
      ReactKeepsBounds(count, selected, keys[0]);
      var r := React(count, selected, keys[0]);
      if r.Move? {
        RunKeepsBounds(count, r.selected, keys[1..]);
      }
    }
  }

  /** On an empty menu no key moves the selection from 0. */
  lemma {:induction false} RunEmptyStaysAtZero(keys: seq<Key>)
    ensures Run(0, 0, keys).selected == 0
    decreases |keys|
  {
    if keys != [] {
      RunEmptyStaysAtZero(keys[1..]);
    }
  }

  /** The session ends at the first confirming or cancelling key: the keys
      after it are never read. */
  lemma {:induction false} RunStopsAtFirstEnding(count: nat, selected: nat, keys: seq<Key>, rest: seq<Key>)
    requires Run(count, selected, keys).ending != KeysRanOut
    ensures Run(count, selected, keys + rest) == Run(count, selected, keys)
    decreases |keys|
  {
    assert keys != [];
    assert (keys + rest)[0] == keys[0];
    assert (keys + rest)[1..] == keys[1..] + rest;
    var r := React(count, selected, keys[0]);
    if r.Move? {
      RunStopsAtFirstEnding(count, r.selected, keys[1..], rest);
    }
  }

  /** A session on a menu with items, starting in range, either returns one
      of the items or ends the process with code 0: it never panics. */
  lemma ChooseNeverPanics(items: seq<string>, selected: nat, keys: seq<Key>)
    requires selected < |items|
    ensures Choose(items, selected, keys).Picked? || Choose(items, selected, keys) == Quit(0)
    ensures Choose(items, selected, keys).Picked? ==> Choose(items, selected, keys).item in items
  {
    RunKeepsBounds(|items|, selected, keys);
  }

  /** On a menu without items, `show` can only end the process or panic:
      there is nothing to return. */
  lemma ChooseEmptyMenu(keys: seq<Key>)
    ensures Choose([], 0, keys) == Quit(0) || Choose([], 0, keys) == IndexPanic
  {
  }

  /** Items a, b, c with Down, Down, Down, Enter give "c": the third Down
      stays on the last item. */
  lemma DownPastLastExample()
    ensures Choose(["a", "b", "c"], 0, [Down, Down, Down, Char('\n')]) == Picked("c")
  {
    var keys := [Down, Down, Down, Char('\n')];
    assert keys[1..] == [Down, Down, Char('\n')];
    assert keys[1..][1..] == [Down, Char('\n')];
    assert keys[1..][1..][1..] == [Char('\n')];
  }

  /** Items a, b with Up, Enter give "a": Up on the first item stays. */
  lemma UpAtFirstExample()
    ensures Choose(["a", "b"], 0, [Up, Char('\n')]) == Picked("a")
  {
    var keys := [Up, Char('\n')];
    assert keys[1..] == [Char('\n')];
  }

  // ---------------------------------------------------------------------------
  // What `redraw` draws for each item
  // ---------------------------------------------------------------------------

  /** One item as `redraw` writes it: at column 5 of line 4 + i, behind the
      marker `o` (selected) or a blank, in bright (`rgb(5, 5, 5)`) or dim
      (`rgb(2, 2, 2)`) grey. */
  datatype ItemLine = ItemLine(column: nat, line: nat, sigil: char, bright: bool, text: string)

  /** The per-index decision of `redraw` for item `i`. */
  function DrawItem(items: seq<string>, selected: nat, i: nat): ItemLine
    requires i < |items|
  {
    if selected == i then ItemLine(5, 4 + i, 'o', true, items[i])
    else ItemLine(5, 4 + i, ' ', false, items[i])
  }

  /** The lines of all items, in item order. */
  function Frame(items: seq<string>, selected: nat): seq<ItemLine>
  {
    seq(|items|, i requires 0 <= i < |items| => DrawItem(items, selected, i))
  }

  /** Item i is drawn on line 4 + i with its own text, and the `o` marker
      is on exactly the selected item, whose text alone is bright: on one
      line when the selection is in range, on none otherwise. */
  lemma FrameMarksSelected(items: seq<string>, selected: nat)
    ensures var f := Frame(items, selected);
      |f| == |items| &&
      (forall i | 0 <= i < |f| ::
         f[i].line == 4 + i && f[i].column == 5 && f[i].text == items[i] &&
         (f[i].sigil == 'o' <==> i == selected) && f[i].bright == (f[i].sigil == 'o'))
  {
  }

  /** Whatever the selection, among the first n lines the marked ones are the
      selected one when it is in range and none otherwise, so their number is
      one or zero. */
  lemma MarkerCount(items: seq<string>, selected: nat, n: nat)
    requires n <= |items|
    ensures (set i | 0 <= i < n && Frame(items, selected)[i].sigil == 'o')
              == if selected < n then {selected} else {}
    ensures |set i | 0 <= i < n && Frame(items, selected)[i].sigil == 'o'|
              == if selected < n then 1 else 0
  {
    FrameMarksSelected(items, selected);
    var marked := set i | 0 <= i < n && Frame(items, selected)[i].sigil == 'o';
    if selected < n {
      assert selected in marked;
      assert marked == {selected};
    } else {
      assert marked == {};
    }
  }

  // ---------------------------------------------------------------------------
  // The selector object
  // ---------------------------------------------------------------------------

  /** `Menu`: a note, the items and the selected index. */
  class Menu {
    var note: string
    var items: seq<string>
    var selected: nat

    /** The selection is 0 on an empty menu and an item's index otherwise. */
    ghost predicate Valid()
      reads this
    {
      selected == 0 || selected < |items|
    }

    /** `Menu::new(note)`: no items, nothing selected beyond index 0. */
    constructor New(note: string)
      ensures Valid()
      ensures this.note == note && items == [] && selected == 0
    {
      this.note := note;
      items := [];
      selected := 0;
    }

    /** `Menu::from_vec(note, items)`: the items in the given order, the
        first one selected. */
    constructor FromVec(note: string, items: seq<string>)
      ensures Valid()
      ensures this.note == note && this.items == items && selected == 0
    {
      this.note := note;
      this.items := items;
      selected := 0;
    }

    /** `add_item`: one more item at the end; the rest is unchanged. */
    method AddItem(item: string)
      requires Valid()
      modifies this
      ensures Valid()
      ensures items == old(items) + [item]
      ensures note == old(note) && selected == old(selected)
    {
      items := items + [item];
    }

    /** `show`, with the key presses read from the terminal given as `keys`.
        The selection is left where the session ended, the items are
        untouched, and the result is what `Choose` says. */
    method Show(keys: seq<Key>) returns (r: Shown)
      requires Valid()
      modifies this
      ensures Valid()
      ensures items == old(items) && note == old(note)
      ensures selected == Run(|items|, old(selected), keys).selected
      ensures r == Choose(items, old(selected), keys)
    {
      ghost var start := selected;
      var i := 0;
      while i < |keys|
        invariant 0 <= i <= |keys|
        invariant items == old(items) && note == old(note)
        invariant Valid()
        invariant Run(|items|, start, keys) == Run(|items|, selected, keys[i..])
      {
        assert keys[i..][1..] == keys[i + 1..];
        match React(|items|, selected, keys[i]) {
          case Move(s) =>
            if |items| > 0 {
              ReactKeepsBounds(|items|, selected, keys[i]);
            }
            selected := s;
          case Confirm =>
            break;
          case Cancel =>
            // cleanup, then `process::exit(0)`
            return Quit(0);
        }
        i := i + 1;
      }
      if selected < |items| {
        r := Picked(items[selected]);
      } else {
        r := IndexPanic;
      }
    }

    /** The lines `redraw` writes for the items, built item by item. */
    method Redraw() returns (lines: seq<ItemLine>)
      ensures lines == Frame(items, selected)
    {
      lines := [];
      for i := 0 to |items|
        invariant lines == Frame(items[..i], selected)
      {
        assert DrawItem(items[..i + 1], selected, i) == DrawItem(items, selected, i);
        lines := lines + [DrawItem(items, selected, i)];
      }
      assert items[..|items|] == items;
    }
  }
}
