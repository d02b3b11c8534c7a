/**
 * The row wrapper around an entry (ViewModels/EnvironmentVariableViewModel.cs).
 * `Name` and `Value` write through to the wrapped entry and report a change
 * only when the new text differs; that report is what the session turns
 * into its pending-changes flag. The delete callback is the session handler
 * the row was created with.
 */
module ViewModels {
  import opened Text
  import opened Models

  /** The delete callback a row carries: none, or one of the session's two handlers. */
  datatype DeleteHandler = NoHandler | UserHandler | SystemHandler

  class EnvironmentVariableViewModel {
    const model: EnvironmentVariable
    const onDelete: DeleteHandler
    /** Only the constructor sets these two; nothing reassigns them. */
    const isReadOnly: bool
    const canEdit: bool

    constructor (model: EnvironmentVariable, isReadOnly: bool, onDelete: DeleteHandler)
      ensures this.model == model && this.onDelete == onDelete
      ensures this.isReadOnly == isReadOnly && canEdit == !isReadOnly
    {
      this.model := model;
      this.onDelete := onDelete;
      this.isReadOnly := isReadOnly;
      this.canEdit := !isReadOnly;
    }

    /** The `Name` setter: writes through, and reports whether anything
        changed. It does not consult `isReadOnly`. */
    method SetName(value: string) returns (changed: bool)
      modifies model
      ensures changed <==> old(model.name) != value
      ensures model.name == value
      ensures model.value == old(model.value)
    {
      changed := model.name != value;
      if changed {
        model.name := value;
      }
    }

    /** The `Value` setter: writes through, and reports whether anything
        changed (the list-value flag is re-announced with it). */
    method SetValue(value: string) returns (changed: bool)
      modifies model
      ensures changed <==> old(model.value) != value
      ensures model.value == value
      ensures model.name == old(model.name)
      ensures !changed ==> model.IsListValue() == old(model.IsListValue())
    {
      changed := model.value != value;
      if changed {
        model.value := value;
      }
    }

    /** The row shows the entry's list-value flag: more than one `;` segment. */
    function IsListValue(): (r: bool)
      reads model
      ensures r <==> |Split(model.value, ';')| >= 2
      ensures r ==> ';' in model.value
    {
      model.IsListValue()
    }

    /** The list editor can be opened exactly for list values. */
    function CanOpenListEditor(): (r: bool)
      reads model
      ensures r <==> model.value != "" && ';' in model.value
    {
      SplitIsSingleIff(model.value, ';');
      IsListValue()
    }
  }
}
