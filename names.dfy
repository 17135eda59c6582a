// The name tables of the converter: the thirteen IFC months, the seven days
// of the week, and their three-letter forms.
module IfcNames {

  import opened Decimal

  /** `ifcMonthNames`: the 13 IFC months, Sol between June and July. */
  const IfcMonthNames: seq<string> :=
    ["January", "February", "March", "April", "May", "June", "Sol",
     "July", "August", "September", "October", "November", "December"]

  /** `ifcShortMonthNames`, written out; `ShortMonthNamesAreMapped` shows it is
      `ifcMonthNames.map(name => name.substring(0, 3))`. */
  const IfcShortMonthNames: seq<string> :=
    ["Jan", "Feb", "Mar", "Apr", "May", "Jun", "Sol", "Jul", "Aug", "Sep", "Oct", "Nov", "Dec"]

  /** `dayNames`: the week as the IFC table lists it, starting on Saturday. */
  const DayNames: seq<string> :=
    ["Saturday", "Sunday", "Monday", "Tuesday", "Wednesday", "Thursday", "Friday"]

  /** `shortDayNames`, written out; `ShortDayNamesAreMapped` shows it is
      `dayNames.map(name => name.substring(0, 3))`. */
  const ShortDayNames: seq<string> := ["Sat", "Sun", "Mon", "Tue", "Wed", "Thu", "Fri"]

  /** `names.map(name => name.substring(0, 3))`. */
  function ShortNames(names: seq<string>): (r: seq<string>)
    ensures |r| == |names|
    ensures forall i :: 0 <= i < |r| ==> r[i] == Prefix(names[i], 3)
  {
    if names == [] then [] else [Prefix(names[0], 3)] + ShortNames(names[1..])
  }

  /** A table is `ShortNames(names)` exactly when each entry is the prefix of its name. */
  lemma ShortNamesUnique(names: seq<string>, short: seq<string>)
    requires |short| == |names|
    requires forall i :: 0 <= i < |short| ==> short[i] == Prefix(names[i], 3)
    ensures ShortNames(names) == short
  {
    var r := ShortNames(names);
    assert forall i :: 0 <= i < |r| ==> r[i] == short[i];
  }

  lemma ShortMonthNamesAreMapped()
    ensures ShortNames(IfcMonthNames) == IfcShortMonthNames
  {
    EachShortMonthName();
    ShortNamesUnique(IfcMonthNames, IfcShortMonthNames);
  }

  lemma EachShortMonthName()
    ensures |IfcShortMonthNames| == |IfcMonthNames|
    ensures forall i :: 0 <= i < |IfcShortMonthNames| ==> IfcShortMonthNames[i] == Prefix(IfcMonthNames[i], 3)
  {
  }

  lemma ShortDayNamesAreMapped()
    ensures ShortNames(DayNames) == ShortDayNames
  {
    EachShortDayName();
    ShortNamesUnique(DayNames, ShortDayNames);
  }

  lemma EachShortDayName()
    ensures |ShortDayNames| == |DayNames|
    ensures forall i :: 0 <= i < |ShortDayNames| ==> ShortDayNames[i] == Prefix(DayNames[i], 3)
  {
  }

  /** Every month's short name has three letters and differs from those of the
      months before it. */
  lemma ShortMonthNameShape(m: int)
    requires 0 <= m < |IfcShortMonthNames|
    ensures |IfcShortMonthNames[m]| == 3
    ensures forall j :: 0 <= j < m ==> IfcShortMonthNames[j] != IfcShortMonthNames[m]
  {
  }

  /** Every day's short name has three letters. */
  lemma ShortDayNameShape(w: int)
    requires 0 <= w < |ShortDayNames|
    ensures |ShortDayNames[w]| == 3
  {
  }
}
