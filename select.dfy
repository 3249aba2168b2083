/**
 * The value logic of the drop-down of src/js/components/Select/Select.tsx: the option list
 * with its optional empty entry, the normalised value, single and multiple selection, the
 * open/closed flag and the comma-joined text of the selected options.
 */
module Select {
  import opened Wrappers

  /** `ISelectItem`: an option's key and its display text. */
  datatype Item = Item(key: string, text: string)

  /** The `value` prop: absent, one string, or an array of strings. */
  datatype ValueProp = Absent | One(s: string) | Many(keys: seq<string>)

  /**
   * The props the logic reads. `required` and `multi` are taken by truthiness;
   * `hasOnChange` says whether an `onChange` handler was given.
   */
  datatype Props = Props(
    items: seq<Item>,
    required: bool,
    emptyItemText: Option<string>,
    multi: bool,
    value: ValueProp,
    hasOnChange: bool)

  /** One rendered `<li>`: the option's key and text, and whether it is marked selected. */
  datatype Row = Row(key: string, text: string, selected: bool)

  /** The component state `getState` builds. */
  datatype State = State(items: seq<Row>, value: seq<string>, isOpen: bool)

  /**
   * The empty option. A missing `emptyItemText` leaves the text `undefined`, which renders
   * as nothing and joins as the empty string, so it is the empty text here.
   */
  function EmptyItem(p: Props): Item {
    Item("", if p.emptyItemText.Some? then p.emptyItemText.value else "")
  }

  /** The option list of `getState`: the props' items, after the empty option unless `required`. */
  function Options(p: Props): (r: seq<Item>)
    ensures p.required ==> r == p.items
    ensures !p.required ==> |r| == |p.items| + 1 && r[0].key == "" && r[1..] == p.items
  {
    (if p.required then [] else [EmptyItem(p)]) + p.items
  }

  /**
   * The normalised value: an array is copied, a non-empty string becomes a one-element
   * list, and a falsy value (absent or the empty string) becomes the empty list.
   */
  function Normalize(v: ValueProp): (r: seq<string>)
    ensures v.Many? ==> r == v.keys
    ensures v.One? && v.s != "" ==> r == [v.s]
    ensures v.Absent? || (v.One? && v.s == "") ==> r == []
  {
    match v
    case Absent => []
    case One(s) => if s == "" then [] else [s]
    case Many(keys) => keys
  }

  /** `value.filter(item => item !== key)`. */
  function Without(value: seq<string>, key: string): (r: seq<string>)
    ensures key !in r
    ensures key !in value ==> r == value
    ensures |r| <= |value|
  {
    if value == [] then []
    else (if value[0] == key then [] else [value[0]]) + Without(value[1..], key)
  }

  /** The filter keeps every other key that was there and adds none. */
  lemma {:induction false} WithoutKeepsOthers(value: seq<string>, key: string, x: string)
    requires x != key
    ensures x in Without(value, key) <==> x in value
    decreases |value|
  {
    if value != [] {
      WithoutKeepsOthers(value[1..], key, x);
      assert value == [value[0]] + value[1..];
    }
  }

  /**
   * The filter laws: a single entry is kept exactly when it is not the key, and the filter
   * of a concatenation is the concatenation of the filters, so order and repeats of the
   * other entries are kept.
   */
  lemma {:induction false} WithoutIsFilter(x: seq<string>, y: seq<string>, key: string, v: string)
    ensures Without([v], key) == if v == key then [] else [v]
    ensures Without(x + y, key) == Without(x, key) + Without(y, key)
    decreases |x|
  {
    assert [v][1..] == [];
    if x == [] {
      assert x + y == y;
    } else {
      var head := if x[0] == key then [] else [x[0]];
      assert (x + y)[0] == x[0] && (x + y)[1..] == x[1..] + y;
      WithoutIsFilter(x[1..], y, key, v);
      assert Without(x + y, key) == head + (Without(x[1..], key) + Without(y, key));
    }
  }

  /**
   * The value after choosing `key`: in multiple mode the key is removed when present and
   * appended when absent; in single mode the value becomes exactly `[key]`.
   */
  function NewValue(multi: bool, value: seq<string>, key: string): (r: seq<string>)
    ensures multi && key in value ==> key !in r
    ensures multi && key !in value ==> r == value + [key]
    ensures !multi ==> r == [key]
  {
    if multi then (if key in value then Without(value, key) else value + [key]) else [key]
  }

  /**
   * In multiple mode choosing a key toggles its membership and leaves the membership of
   * every other key as it was.
   */
  lemma MultiSelectToggles(value: seq<string>, key: string, x: string)
    ensures key in NewValue(true, value, key) <==> key !in value
    ensures x != key ==> (x in NewValue(true, value, key) <==> x in value)
  {
    if x != key && key in value {
      WithoutKeepsOthers(value, key, x);
    }
  }

  /** In multiple mode, choosing an unselected key twice gives back the original value. */
  lemma SelectTwiceRestores(value: seq<string>, key: string)
    requires key !in value
    ensures NewValue(true, NewValue(true, value, key), key) == value
  {
    var v := value + [key];
    assert key in v;
    WithoutLast(value, key);
  }

  /** Removing a key from a list that only ends with it drops that last entry. */
  lemma {:induction false} WithoutLast(value: seq<string>, key: string)
    requires key !in value
    ensures Without(value + [key], key) == value
    decreases |value|
  {
    if value == [] {
      assert [key][1..] == [];
    } else {
      assert (value + [key])[1..] == value[1..] + [key];
      WithoutLast(value[1..], key);
    }
  }

  /** The rendered rows: every option in order, marked selected when its key is in the value. */
  function Rows(items: seq<Item>, value: seq<string>): (r: seq<Row>)
    ensures |r| == |items|
    ensures forall j :: 0 <= j < |items| ==>
      r[j].key == items[j].key && r[j].text == items[j].text && (r[j].selected <==> items[j].key in value)
  {
    seq(|items|, j requires 0 <= j < |items| => Row(items[j].key, items[j].text, items[j].key in value))
  }

  /** The texts of the options whose key is in the value, in option order. */
  function SelectedTexts(items: seq<Item>, value: seq<string>): (r: seq<string>)
    ensures |r| <= |items|
  {
    if items == [] then []
    else
      var last := items[|items| - 1];
      SelectedTexts(items[..|items| - 1], value) + (if last.key in value then [last.text] else [])
  }

  /** `Array.prototype.join`. */
  function Join(parts: seq<string>, sep: string): string {
    if parts == [] then ""
    else if |parts| == 1 then parts[0]
    else Join(parts[..|parts| - 1], sep) + sep + parts[|parts| - 1]
  }

  /**
   * A text is among the selected texts exactly when some option with that text has its key
   * in the value.
   */
  lemma {:induction false} SelectedTextsMembers(items: seq<Item>, value: seq<string>, t: string)
    ensures t in SelectedTexts(items, value) <==>
      exists j :: 0 <= j < |items| && items[j].key in value && items[j].text == t
    decreases |items|
  {
    if items != [] {
      var init := items[..|items| - 1];
      SelectedTextsMembers(init, value, t);
      if exists j :: 0 <= j < |init| && init[j].key in value && init[j].text == t {
        var j :| 0 <= j < |init| && init[j].key in value && init[j].text == t;
        assert items[j] == init[j];
      }
      if exists j :: 0 <= j < |items| && items[j].key in value && items[j].text == t {
        var j :| 0 <= j < |items| && items[j].key in value && items[j].text == t;
        if j < |init| {
          assert init[j] == items[j];
        }
      }
    }
  }

  /**
   * With distinct option keys, choosing the key of option `j` in single mode leaves that
   * option's text, alone, as the selected text.
   */
  lemma {:induction false} SingleSelectionText(items: seq<Item>, j: nat)
    requires j < |items|
    requires forall a, b :: 0 <= a < b < |items| ==> items[a].key != items[b].key
    ensures SelectedTexts(items, [items[j].key]) == [items[j].text]
    ensures Join(SelectedTexts(items, [items[j].key]), ", ") == items[j].text
    decreases |items|
  {
    var init := items[..|items| - 1];
    var key := items[j].key;
    if j == |items| - 1 {
      assert forall a :: 0 <= a < |init| ==> init[a].key !in [key] by {
        forall a | 0 <= a < |init| ensures init[a].key !in [key] {
          assert init[a] == items[a];
        }
      }
      NoneSelected(init, [key]);
    } else {
      assert init[j] == items[j];
      SingleSelectionText(init, j);
      assert items[|items| - 1].key != key;
    }
  }

  /** When no option's key is in the value, nothing is selected. */
  lemma {:induction false} NoneSelected(items: seq<Item>, value: seq<string>)
    requires forall a :: 0 <= a < |items| ==> items[a].key !in value
    ensures SelectedTexts(items, value) == []
    decreases |items|
  {
    if items != [] {
      NoneSelected(items[..|items| - 1], value);
    }
  }

  /** The component. Its state fields are `items`, `value` and `isOpen`. */
  class Select {
    const props: Props
    var items: seq<Row>
    var value: seq<string>
    var isOpen: bool
    /** The text of the selected options, written by every `renderItems`. */
    var selectedText: string
    /** The values handed to `onChange`, in order. */
    var changes: seq<seq<string>>
    /** The option list the rows were last rendered from. */
    ghost var listed: seq<Item>

    /**
     * The rows and the selected text describe the current value over the option list last
     * rendered, which is the full list (with the empty option unless required) or, after a
     * selection, the props' items alone.
     */
    ghost predicate Valid()
      reads this
    {
      && items == Rows(listed, value)
      && selectedText == Join(SelectedTexts(listed, value), ", ")
      && (listed == Options(props) || listed == props.items)
    }

    /** `renderItems(items, value)`: the rows, and the selected text written as a side effect. */
    method RenderItems(options: seq<Item>, selection: seq<string>) returns (rows: seq<Row>)
      modifies this`selectedText
      ensures rows == Rows(options, selection)
      ensures selectedText == Join(SelectedTexts(options, selection), ", ")
    {
      var selectedTexts: seq<string> := [];
      rows := [];
      var n := 0;
      while n < |options|
        invariant 0 <= n <= |options|
        invariant rows == Rows(options[..n], selection)
        invariant selectedTexts == SelectedTexts(options[..n], selection)
      {
        var item := options[n];
        var isSelected := item.key in selection;
        if isSelected {
          selectedTexts := selectedTexts + [item.text];
        }
        rows := rows + [Row(item.key, item.text, isSelected)];
        assert options[..n + 1][..n] == options[..n];
        n := n + 1;
      }
      assert options[..n] == options;
      selectedText := Join(selectedTexts, ", ");
    }

    /** `getState(props)`: the full option list rendered against the normalised value, closed. */
    method GetState(p: Props) returns (st: State)
      modifies this`selectedText
      ensures st.value == Normalize(p.value) && !st.isOpen
      ensures st.items == Rows(Options(p), st.value)
      ensures selectedText == Join(SelectedTexts(Options(p), st.value), ", ")
    {
      var options := Options(p);
      var v := Normalize(p.value);
      var rows := RenderItems(options, v);
      st := State(rows, v, false);
    }

    constructor(p: Props)
      ensures Valid() && props == p
      ensures value == Normalize(p.value) && !isOpen && changes == []
      ensures listed == Options(p)
    {
      props := p;
      items := [];
      value := [];
      isOpen := false;
      selectedText := "";
      changes := [];
      listed := [];
      new;
      var st := GetState(p);
      items := st.items;
      value := st.value;
      isOpen := st.isOpen;
      listed := Options(p);
    }

    /**
     * `selectKey(key)`: the new value, rows re-rendered from the props' items (without the
     * empty option), open afterwards exactly in multiple mode, and `onChange` told.
     */
    method SelectKey(key: string)
      requires Valid()
      modifies this
      ensures Valid()
      ensures value == NewValue(props.multi, old(value), key)
      ensures listed == props.items
      ensures isOpen == props.multi
      ensures changes == old(changes) + (if props.hasOnChange then [value] else [])
    {
      var newValue := NewValue(props.multi, value, key);
      value := newValue;
      listed := props.items;
      items := RenderItems(props.items, newValue);
      isOpen := props.multi;
      if props.hasOnChange {
        changes := changes + [newValue];
      }
    }

    /** `toggle()`, also what a click outside the component does: closes the list. */
    method Toggle()
      requires Valid()
      modifies this`isOpen
      ensures Valid() && !isOpen
    {
      isOpen := false;
    }

    /** `handleClickOutside()`. */
    method HandleClickOutside()
      requires Valid()
      modifies this`isOpen
      ensures Valid() && !isOpen
    {
      Toggle();
    }

    /** `toggleItems()`: opens a closed list and closes an open one. */
    method ToggleItems()
      requires Valid()
      modifies this`isOpen
      ensures Valid() && isOpen == !old(isOpen)
    {
      isOpen := !isOpen;
    }
  }
}
