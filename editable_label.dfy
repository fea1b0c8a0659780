/**
 * The inline label editor of src/components/EditableLabel.tsx: a span that
 * turns into a text input on click, and an edit that is either submitted
 * (emitting the text unless it is blank) or cancelled (restoring the shown
 * value).
 */
module EditableLabel {
  import opened Text

  /** What `handleSubmit` passes to `onChange` for the text `v`: the untrimmed text, unless it is blank. */
  function Emission(v: string): (r: seq<string>)
    ensures |r| <= 1
    ensures r == [v] <==> !IsBlank(v)
    ensures r == [] <==> IsBlank(v)
  {
    TrimEmptyIffBlank(v);
    if Trim(v) != [] then [v] else []
  }

  /** Appending an emission to values none of which is blank leaves none blank. */
  lemma EmissionKeepsNonBlank(before: seq<string>, v: string)
    ensures (forall i :: 0 <= i < |before| ==> !IsBlank(before[i])) ==>
      forall i :: 0 <= i < |before + Emission(v)| ==> !IsBlank((before + Emission(v))[i])
  {
  }

  /** The keys the input reacts to. */
  const EnterKey: string := "Enter"
  const EscapeKey: string := "Escape"

  /**
   * One mounted label. `value` is the prop it shows, `isEditing` and
   * `editValue` its two state variables, and `emitted` the values it has
   * passed to `onChange`, in order.
   */
  class LabelEditor {
    var value: string
    var isEditing: bool
    var editValue: string
    var emitted: seq<string>

    /** Nothing blank is ever passed to `onChange`. */
    ghost predicate Valid()
      reads this
    {
      forall i :: 0 <= i < |emitted| ==> !IsBlank(emitted[i])
    }

    /** Mounting with the prop `value`: not editing, the edit text is the value. */
    constructor (value: string)
      ensures this.value == value && !isEditing && editValue == value && emitted == []
      ensures Valid()
    {
      this.value, isEditing, editValue, emitted := value, false, value, [];
    }

    /** A new `value` prop: `useState` keeps the edit text it started with. */
    method Rerender(v: string)
      modifies this`value
      ensures value == v
    {
      value := v;
    }

    /** A click on the span: editing starts; the edit text is left as it was. */
    method Click()
      modifies this`isEditing
      ensures isEditing
    {
      isEditing := true;
    }

    /** The input's `onChange`: the edit text becomes what the input holds. */
    method Type(text: string)
      modifies this`editValue
      ensures editValue == text
    {
      editValue := text;
    }

    /** `handleSubmit`: emit the edit text unless it is blank, and stop editing in either case. */
    method Submit()
      modifies this`isEditing, this`emitted
      ensures !isEditing
      ensures emitted == old(emitted) + Emission(editValue)
      ensures old(Valid()) ==> Valid()
    {
      ghost var before := emitted;
      if Trim(editValue) != [] {
        emitted := emitted + [editValue];
      }
      EmissionKeepsNonBlank(before, editValue);
      isEditing := false;
    }

    /** `handleCancel`: the edit text goes back to the shown value, editing stops, nothing is emitted. */
    method Cancel()
      modifies this`editValue, this`isEditing
      ensures editValue == value && !isEditing
    {
      editValue := value;
      isEditing := false;
    }

    /** The input's `onKeyDown`: Enter submits, Escape cancels, any other key does nothing. */
    method KeyDown(key: string)
      modifies this`isEditing, this`editValue, this`emitted
      ensures key == EnterKey ==> !isEditing && editValue == old(editValue) && emitted == old(emitted) + Emission(old(editValue))
      ensures key == EscapeKey ==> !isEditing && editValue == value && emitted == old(emitted)
      ensures key != EnterKey && key != EscapeKey ==> unchanged(this)
      ensures old(Valid()) ==> Valid()
    {
      if key == EnterKey {
        Submit();
      }
      if key == EscapeKey {
        Cancel();
      }
    }
  }
}
