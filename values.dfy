/** How zbackup reads one property out of a filesystem's property set:
    `none` counts as no value, and a count must be an integer. */
module Values {
  import opened Wrappers
  import opened Integers
  import opened Properties

  /** The `badly formed ... (should be integer)` warning: which filesystem,
      which property, and the `(value, source)` pair found there. */
  datatype Malformed = Malformed(filesystem: string, property: string, found: PropValue)

  /** What `property_int_value_or_none` returns, `(value, source)`, together
      with the warning it prints, if any. */
  datatype IntLookup = IntLookup(value: Option<int>, source: Option<string>, warning: Option<Malformed>)

  /** Whether the property is present with a value other than `none`. */
  function PropertyHasValue(properties: map<string, PropValue>, name: string): (has: bool)
    ensures has <==> name in properties && properties[name].value != "none"
  {
    if name in properties then properties[name].value != "none" else false
  }

  /** The integer a property holds, when it holds one: `None` when it is
      absent, `none`, or not an integer. */
  function IntProperty(properties: map<string, PropValue>, name: string): Option<int>
  {
    if name in properties && properties[name].value != "none" then ParseInt(properties[name].value) else None
  }

  /** `property_int_value_or_none`: an absent or `none` property gives
      `(None, None)`; a present one gives its source, with its value when the
      value is an integer and with a warning when it is not. */
  function PropertyIntValueOrNone(filesystem: string, properties: map<string, PropValue>, name: string): (r: IntLookup)
    ensures !(name in properties && properties[name].value != "none") ==> r == IntLookup(None, None, None)
    ensures name in properties && properties[name].value != "none" ==>
              && r.source == Some(properties[name].source)
              && r.value == ParseInt(properties[name].value)
              && (r.warning.Some? <==> r.value.None?)
              && (r.warning.Some? ==> r.warning.value == Malformed(filesystem, name, properties[name]))
  {
    if PropertyHasValue(properties, name) then
      var found := properties[name];
      match ParseInt(found.value)
      case Some(n) => IntLookup(Some(n), Some(found.source), None)
      case None => IntLookup(None, Some(found.source), Some(Malformed(filesystem, name, found)))
    else IntLookup(None, None, None)
  }

}
