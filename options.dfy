/**
 * The option table: a sparse map from option names to values, read with a
 * fallback default and written by the `--set-option` and `--clear-option`
 * commands.
 */
module OptionStore {

  class OptionTable {
    /** The stored option records, by name. */
    var values: map<string, string>

    constructor ()
      ensures values == map[]
    {
      values := map[];
    }

    /** `Options.get(key, default_value)`: the stored value, or the default when no record has that name. */
    function Get(key: string, default: string): (v: string)
      reads this
      ensures key in values ==> v == values[key]
      ensures key !in values ==> v == default
    {
      if key in values then values[key] else default
    }

    /**
     * `--set-option name value`: overwrites the record for `name`, or
     * creates one (`created`) when there was none; no other name changes.
     */
    method SetOption(name: string, value: string) returns (created: bool)
      modifies this
      ensures created <==> name !in old(values)
      ensures values == old(values)[name := value]
      ensures forall default :: Get(name, default) == value
      ensures forall key, default :: key != name ==> Get(key, default) == old(Get(key, default))
    {
      created := name !in values;
      values := values[name := value];
    }

    /**
     * `--clear-option name`: deletes the record for `name`, after which
     * reading it gives the default; when there is no such record the
     * command fails (`found` is false) and nothing changes.
     */
    method ClearOption(name: string) returns (found: bool)
      modifies this
      ensures found <==> name in old(values)
      ensures !found ==> values == old(values)
      ensures values == old(values) - {name}
      ensures forall default :: Get(name, default) == default
      ensures forall key, default :: key != name ==> Get(key, default) == old(Get(key, default))
    {
      found := name in values;
      if !found {
        return;
      }
      values := values - {name};
    }
  }
}
