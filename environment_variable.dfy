/**
 * The entry record of the editor (Models/EnvironmentVariable.cs): a mutable
 * name/value/scope triple whose `IsListValue` is derived from the value.
 */
module Models {
  import opened Text

  /** `EnvironmentVariableTarget`; `Process` is the enum's default value. */
  datatype Target = Process | User | Machine

  class EnvironmentVariable {
    var name: string
    var value: string
    const target: Target

    /** A fresh entry: empty name and value, default (`Process`) scope. */
    constructor ()
      ensures name == "" && value == "" && target == Process
    {
      name := "";
      value := "";
      target := Process;
    }

    /** An entry built with an object initializer setting all three properties. */
    constructor Init(name: string, value: string, target: Target)
      ensures this.name == name && this.value == value && this.target == target
    {
      this.name := name;
      this.value := value;
      this.target := target;
    }

    /** The value is a list value exactly when splitting it on ';' gives more
        than one segment; the empty value never is one. */
    function IsListValue(): (r: bool)
      reads this
      ensures r <==> |Split(value, ';')| >= 2
      ensures value == "" ==> !r
    {
      SplitIsSingleIff(value, ';');
      value != "" && ';' in value
    }

    /** A value with a ';' between two paths is a list value; a plain value is not. */
    lemma ListValueExamples()
      ensures value == "C:\\Path1;C:\\Path2" ==> IsListValue()
      ensures value == "SimpleValue" ==> !IsListValue()
    {
      if value == "C:\\Path1;C:\\Path2" {
        assert value[8] == ';';
      }
    }
  }
}
