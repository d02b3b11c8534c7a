/**
 * The list-value editor (ViewModels/ListEditorViewModel.cs). A value is
 * decoded into items by splitting on ';', dropping the empty segments and
 * trimming the survivors; items are encoded back by dropping the blank ones
 * and joining the rest with ';'. The editor holds the items, a selection
 * and an edit text, and offers add, remove, update and cancel.
 */
module ListEditor {
  import opened Text
  import opened Collections

  datatype Option<T> = None | Some(value: T)

  /** `StringSplitOptions.RemoveEmptyEntries`: the non-empty segments, in order. */
  function DropEmpty(parts: seq<string>): (r: seq<string>)
    ensures |r| <= |parts|
    ensures forall x :: x in r <==> x in parts && x != ""
  {
    if parts == [] then []
    else
      assert parts == [parts[0]] + parts[1..];
      if parts[0] == "" then DropEmpty(parts[1..])
      else [parts[0]] + DropEmpty(parts[1..])
  }

  /** `Where(i => !string.IsNullOrWhiteSpace(i))`: the non-blank items, in order. */
  function DropBlank(items: seq<string>): (r: seq<string>)
    ensures |r| <= |items|
    ensures forall x :: x in r <==> x in items && !IsBlank(x)
    ensures (forall i :: 0 <= i < |items| ==> !IsBlank(items[i])) ==> r == items
  {
    if items == [] then []
    else
      assert items == [items[0]] + items[1..];
      if IsBlank(items[0]) then DropBlank(items[1..])
      else [items[0]] + DropBlank(items[1..])
  }

  /** Every non-empty segment survives as often as it occurs. */
  lemma {:induction false} DropEmptyCount(parts: seq<string>)
    ensures forall x :: multiset(DropEmpty(parts))[x] == if x == "" then 0 else multiset(parts)[x]
  {
    if parts != [] {
      assert parts == [parts[0]] + parts[1..];
      DropEmptyCount(parts[1..]);
    }
  }

  /** Every non-blank item survives as often as it occurs. */
  lemma {:induction false} DropBlankCount(items: seq<string>)
    ensures forall x :: multiset(DropBlank(items))[x] == if IsBlank(x) then 0 else multiset(items)[x]
  {
    if items != [] {
      assert items == [items[0]] + items[1..];
      DropBlankCount(items[1..]);
    }
  }

  /** Dropping empty segments works piecewise, so the survivors keep their order. */
  lemma {:induction false} DropEmptyConcat(a: seq<string>, b: seq<string>)
    ensures DropEmpty(a + b) == DropEmpty(a) + DropEmpty(b)
  {
    if a == [] {
      assert a + b == b;
    } else {
      assert (a + b)[0] == a[0];
      assert (a + b)[1..] == a[1..] + b;
      DropEmptyConcat(a[1..], b);
    }
  }

  /** Dropping blank items works piecewise, so the survivors keep their order. */
  lemma {:induction false} DropBlankConcat(a: seq<string>, b: seq<string>)
    ensures DropBlank(a + b) == DropBlank(a) + DropBlank(b)
  {
    if a == [] {
      assert a + b == b;
    } else {
      assert (a + b)[0] == a[0];
      assert (a + b)[1..] == a[1..] + b;
      DropBlankConcat(a[1..], b);
    }
  }

  /** The items `Initialize` builds from a value. */
  function Decode(value: string): (r: seq<string>)
    ensures value == "" ==> r == []
    ensures |r| <= |Split(value, ';')|
    ensures forall i :: 0 <= i < |r| ==> IsTrimmed(r[i]) && ';' !in r[i]
  {
    var parts := DropEmpty(Split(value, ';'));
    assert value == "" ==> Split(value, ';') == [""];
    assert forall i :: 0 <= i < |parts| ==> ';' !in parts[i] by {
      forall i | 0 <= i < |parts| ensures ';' !in parts[i] {
        assert parts[i] in Split(value, ';');
      }
    }
    TrimEach(parts)
  }

  /** Each segment trimmed, in order. */
  function TrimEach(parts: seq<string>): (r: seq<string>)
    ensures |r| == |parts|
    ensures forall i :: 0 <= i < |r| ==> r[i] == Trim(parts[i])
  {
    if parts == [] then [] else [Trim(parts[0])] + TrimEach(parts[1..])
  }

  /** The value `GetResultValue` builds from the items. */
  function Encode(items: seq<string>): (r: string)
    ensures r == "" <==> forall i :: 0 <= i < |items| ==> IsBlank(items[i])
  {
    var kept := DropBlank(items);
    JoinEmptyIff(kept);
    assert kept == [] <==> forall i :: 0 <= i < |items| ==> IsBlank(items[i]) by {
      if kept != [] {
        assert kept[0] in kept;
      }
      if exists i :: 0 <= i < |items| && !IsBlank(items[i]) {
        var i :| 0 <= i < |items| && !IsBlank(items[i]);
        assert items[i] in kept;
      }
    }
    Join(";", kept)
  }

  /** Joining non-blank items gives the empty string only for no items. */
  lemma {:induction false} JoinEmptyIff(xs: seq<string>)
    requires forall x :: x in xs ==> !IsBlank(x)
    ensures Join(";", xs) == "" <==> xs == []
  {
    if xs != [] {
      assert xs[0] in xs;
      assert |xs[0]| > 0;
    }
  }

  /** Items that are exactly what decoding can give back: non-blank,
      trimmed, and free of the separator. */
  predicate Canonical(items: seq<string>) {
    forall i :: 0 <= i < |items| ==> !IsBlank(items[i]) && IsTrimmed(items[i]) && ';' !in items[i]
  }

  /** Canonical items survive an encode/decode round trip unchanged. */
  lemma RoundTrip(items: seq<string>)
    requires Canonical(items)
    ensures Decode(Encode(items)) == items
  {
    assert DropBlank(items) == items;
    var s := Join(";", items);
    if items == [] {
      assert Split(s, ';') == [""];
      assert DropEmpty([""]) == DropEmpty([""][1..]);
    } else {
      SplitJoin(items, ';');
      assert forall i :: 0 <= i < |items| ==> items[i] != "";
      NoEmptyKept(items);
    }
  }

  lemma {:induction false} NoEmptyKept(parts: seq<string>)
    requires forall i :: 0 <= i < |parts| ==> parts[i] != ""
    ensures DropEmpty(parts) == parts
  {
    if parts != [] {
      NoEmptyKept(parts[1..]);
    }
  }

  /** Dropping the blank items of a decoded value leaves canonical items. */
  lemma DecodeThenDropIsCanonical(value: string)
    ensures Canonical(DropBlank(Decode(value)))
  {
    var d := Decode(value);
    var r := DropBlank(d);
    forall i | 0 <= i < |r| ensures IsTrimmed(r[i]) && ';' !in r[i] {
      assert r[i] in d;
    }
  }

  lemma {:induction false} DropBlankTwice(items: seq<string>)
    ensures DropBlank(DropBlank(items)) == DropBlank(items)
  {
    var r := DropBlank(items);
    assert forall i :: 0 <= i < |r| ==> r[i] in r;
  }

  /** Encoding a decoded value and decoding again gives the decoded items
      without the blank ones; encoding once more changes nothing. */
  lemma DecodeEncodeIdempotent(value: string)
    ensures Decode(Encode(Decode(value))) == DropBlank(Decode(value))
    ensures Encode(Decode(Encode(Decode(value)))) == Encode(Decode(value))
  {
    var kept := DropBlank(Decode(value));
    DecodeThenDropIsCanonical(value);
    DropBlankTwice(Decode(value));
    assert Encode(Decode(value)) == Encode(kept);
    RoundTrip(kept);
  }

  /** A value that is not a list value decodes to at most one item. */
  lemma NonListDecodesToAtMostOne(value: string)
    requires ';' !in value
    ensures |Decode(value)| <= 1
  {
    SplitIsSingleIff(value, ';');
  }

  /** Three canonical items joined with ';' decode to themselves, and
      encoding gives the same value back. */
  lemma ThreeItems(x: string, y: string, z: string)
    requires Canonical([x, y, z])
    ensures Decode(x + ";" + y + ";" + z) == [x, y, z]
    ensures Encode(Decode(x + ";" + y + ";" + z)) == x + ";" + y + ";" + z
  {
    JoinThree(x, y, z);
    RoundTrip([x, y, z]);
  }

  /** A blank segment between two items survives decoding as an empty
      item (empty segments are dropped before trimming, blank ones are
      not); encoding then leaves it out. */
  lemma BlankSegment(x: string, w: string, y: string)
    requires Canonical([x, y])
    requires w != "" && IsBlank(w)
    ensures Decode(x + ";" + w + ";" + y) == [x, "", y]
    ensures Encode(Decode(x + ";" + w + ";" + y)) == x + ";" + y
  {
    var parts := [x, w, y];
    assert !IsBlank(x) && IsTrimmed(x) && ';' !in x && !IsBlank(y) && IsTrimmed(y) && ';' !in y by {
      assert [x, y][0] == x && [x, y][1] == y;
    }
    JoinThree(x, w, y);
    SplitJoin(parts, ';');
    NoEmptyKept(parts);
    DecodeSteps(x + ";" + w + ";" + y, parts);
    assert TrimEach(parts) == [x, "", y];
    DropBlankMiddle(x, y);
    assert [x, y][1..] == [y];
    assert Join(";", [x, y]) == x + ";" + y;
  }

  lemma DropBlankMiddle(x: string, y: string)
    requires !IsBlank(x) && !IsBlank(y)
    ensures DropBlank([x, "", y]) == [x, y]
  {
    assert DropBlank([y]) == [y] by {
      assert [y][1..] == [];
    }
    assert DropBlank(["", y]) == [y] by {
      assert ["", y][1..] == [y];
    }
    assert [x, "", y][1..] == ["", y];
  }

  /** `Decode` is trimming after splitting and dropping empty segments. */
  lemma DecodeSteps(value: string, parts: seq<string>)
    requires DropEmpty(Split(value, ';')) == parts
    ensures Decode(value) == TrimEach(parts)
  {
  }

  lemma JoinThree(x: string, y: string, z: string)
    ensures Join(";", [x, y, z]) == x + ";" + y + ";" + z
  {
    assert [x, y, z][1..] == [y, z];
    assert [y, z][1..] == [z];
    assert Join(";", [y, z]) == y + ";" + z;
    assert x + ";" + (y + ";" + z) == x + ";" + y + ";" + z;
  }

  /** The item-building part of `Initialize`: nothing for the empty value,
      otherwise each non-empty segment, trimmed, in order. */
  method DecodeItems(value: string) returns (items: seq<string>)
    ensures items == Decode(value)
  {
    items := [];
    if value != "" {
      var parts := DropEmpty(Split(value, ';'));
      items := TrimAll(parts);
      DecodeSteps(value, parts);
    }
  }

  /** The `foreach` loop of `Initialize`: appends each part, trimmed. */
  method TrimAll(parts: seq<string>) returns (items: seq<string>)
    ensures items == TrimEach(parts)
  {
    ghost var trimmed := TrimEach(parts);
    items := [];
    for i := 0 to |parts|
      invariant items == trimmed[..i]
    {
      TakeSnoc(trimmed, i);
      var item := Trim(parts[i]);
      assert item == trimmed[i];
      items := items + [item];
    }
    assert trimmed[..|parts|] == trimmed;
  }

  class ListEditorViewModel {
    var items: seq<string>
    var variableName: string
    var selectedItem: Option<string>
    var originalValue: string
    var editText: string

    constructor ()
      ensures items == [] && variableName == "" && selectedItem == None
      ensures originalValue == "" && editText == ""
    {
      items := [];
      variableName := "";
      selectedItem := None;
      originalValue := "";
      editText := "";
    }

    /** The `SelectedItem` setter: only an actual change of selection runs
        the change handler, which copies the selection into the edit text. */
    method SetSelectedItem(value: Option<string>)
      modifies this
      ensures selectedItem == value
      ensures editText == if old(selectedItem) == value then old(editText)
                          else if value.Some? then value.value else ""
      ensures items == old(items) && variableName == old(variableName)
      ensures originalValue == old(originalValue)
    {
      if selectedItem != value {
        selectedItem := value;
        editText := if value.Some? then value.value else "";
      }
    }

    /** The `EditText` setter the text box binds to. */
    method SetEditText(value: string)
      modifies this
      ensures editText == value
      ensures items == old(items) && selectedItem == old(selectedItem)
      ensures variableName == old(variableName) && originalValue == old(originalValue)
    {
      editText := value;
    }

    /** Loads a value: its decoded items, the first one selected. */
    method Initialize(name: string, value: string)
      modifies this
      ensures variableName == name && originalValue == value
      ensures items == Decode(value)
      ensures selectedItem == if items == [] then None else Some(items[0])
      ensures editText == if old(selectedItem) == selectedItem then old(editText)
                          else if selectedItem.Some? then selectedItem.value else ""
    {
      variableName := name;
      originalValue := value;
      items := DecodeItems(value);
      SetSelectedItem(if items == [] then None else Some(items[0]));
    }

    /** Appends "New Item" and selects it. */
    method AddItem()
      modifies this
      ensures items == old(items) + ["New Item"]
      ensures selectedItem == Some("New Item")
      ensures editText == if old(selectedItem) == Some("New Item") then old(editText) else "New Item"
      ensures variableName == old(variableName) && originalValue == old(originalValue)
    {
      items := items + ["New Item"];
      SetSelectedItem(Some(items[|items| - 1]));
    }

    /** Removes the first occurrence of the selection and selects the item
        that moved into its place, else the one before it, else nothing. */
    method RemoveItem()
      modifies this
      ensures !(old(selectedItem).Some? && old(selectedItem).value in old(items)) ==>
        items == old(items) && selectedItem == old(selectedItem) && editText == old(editText)
      ensures old(selectedItem).Some? && old(selectedItem).value in old(items) ==>
        var i := IndexOf(old(items), old(selectedItem).value);
        && items == RemoveFirst(old(items), old(selectedItem).value)
        && |items| == |old(items)| - 1
        && selectedItem == (if i < |items| then Some(items[i])
                            else if items != [] then Some(items[i - 1])
                            else None)
        && editText == (if selectedItem == old(selectedItem) then old(editText)
                        else if selectedItem.Some? then selectedItem.value else "")
      ensures variableName == old(variableName) && originalValue == old(originalValue)
    {
      if selectedItem.Some? && selectedItem.value in items {
        var index := IndexOf(items, selectedItem.value);
        items := RemoveFirst(items, selectedItem.value);
        if |items| > 0 {
          if index < |items| {
            SetSelectedItem(Some(items[index]));
          } else if index > 0 {
            SetSelectedItem(Some(items[index - 1]));
          } else {
            assert false;
          }
        } else {
          SetSelectedItem(None);
          editText := "";
        }
      }
    }

    /** Replaces the first occurrence of the selection with the edit text,
        which becomes the selection; blank edit text changes nothing. */
    method UpdateItem()
      modifies this
      ensures (old(selectedItem).Some? && old(selectedItem).value in old(items) && !IsBlank(old(editText))) ==>
        && items == old(items)[IndexOf(old(items), old(selectedItem).value) := old(editText)]
        && selectedItem == Some(old(editText))
      ensures !(old(selectedItem).Some? && old(selectedItem).value in old(items) && !IsBlank(old(editText))) ==>
        items == old(items) && selectedItem == old(selectedItem)
      ensures editText == old(editText)
      ensures variableName == old(variableName) && originalValue == old(originalValue)
    {
      if selectedItem.Some? && selectedItem.value in items && !IsBlank(editText) {
        var index := IndexOf(items, selectedItem.value);
        if index >= 0 {
          items := items[index := editText];
          SetSelectedItem(Some(editText));
        }
      }
    }

    /** Whenever `RemoveItem` would remove something, the command is enabled;
        it is disabled without a selection or without items. */
    function CanRemoveItem(): (r: bool)
      reads this
      ensures selectedItem.Some? && selectedItem.value in items ==> r
      ensures r ==> selectedItem.Some? && items != []
    {
      selectedItem.Some? && |items| > 0
    }

    /** Whenever `UpdateItem` would replace something, the command is enabled;
        it is disabled without a selection or with a blank edit text. */
    function CanUpdateItem(): (r: bool)
      reads this
      ensures selectedItem.Some? && selectedItem.value in items && !IsBlank(editText) ==> r
      ensures r ==> selectedItem.Some? && !IsBlank(editText)
    {
      selectedItem.Some? && !IsBlank(editText)
    }

    /** Throws away every edit: the items are those the original value decodes to. */
    method Cancel()
      modifies this
      ensures items == Decode(old(originalValue))
      ensures variableName == old(variableName) && originalValue == old(originalValue)
      ensures selectedItem == if items == [] then None else Some(items[0])
      ensures editText == if old(selectedItem) == selectedItem then old(editText)
                          else if selectedItem.Some? then selectedItem.value else ""
    {
      Initialize(variableName, originalValue);
    }

    /** The value handed back to the caller: the non-blank items joined with ';'.
        Canonical items come back unchanged when the result is decoded again. */
    function GetResultValue(): (r: string)
      reads this
      ensures r == "" <==> forall i :: 0 <= i < |items| ==> IsBlank(items[i])
      ensures Canonical(items) ==> Decode(r) == items
    {
      if Canonical(items) then RoundTrip(items); Encode(items) else Encode(items)
    }
  }
}
