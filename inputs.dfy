/** The creation form's rows (src/App.js:47-50, 86-99): three parallel
    arrays of texts — URLs, validities and custom codes — one element per
    row, starting with one empty row and growing to at most five. */
module Inputs {

  /** `addInputField` refuses to add a row once there are this many. */
  const MaxRows: nat := 5

  datatype Rows = Rows(urls: seq<string>, validities: seq<string>, shortcodes: seq<string>)

  /** The three arrays the form starts with: `useState([''])` each. */
  function Initial(): (r: Rows)
    ensures WellFormed(r) && |r.urls| == 1
    ensures r.urls[0] == "" && r.validities[0] == "" && r.shortcodes[0] == ""
  {
    Rows([""], [""], [""])
  }

  /** What the form keeps true: the arrays are parallel, and there is at
      least one and at most `MaxRows` rows. */
  predicate WellFormed(r: Rows)
  {
    && |r.validities| == |r.urls|
    && |r.shortcodes| == |r.urls|
    && 1 <= |r.urls| <= MaxRows
  }

  /** `updateArray`'s copy-and-set: a copy of `prev` with `value` at
      `index`, the same length, and every other element as it was. */
  function UpdateArray<T>(prev: seq<T>, index: nat, value: T): (updated: seq<T>)
    requires index < |prev|
    ensures |updated| == |prev|
    ensures updated[index] == value
    ensures forall j :: 0 <= j < |prev| && j != index ==> updated[j] == prev[j]
  {
    prev[index := value]
  }

  /** `addInputField`: one more empty row in all three arrays, unless the
      URL array already has `MaxRows` elements, in which case nothing
      changes. Only the URL array's length is tested. */
  function AddInputField(r: Rows): (r': Rows)
    ensures |r.urls| >= MaxRows ==> r' == r
    ensures |r.urls| < MaxRows ==>
              && |r'.urls| == |r.urls| + 1 && r'.urls[..|r.urls|] == r.urls && r'.urls[|r.urls|] == ""
              && |r'.validities| == |r.validities| + 1 && r'.validities[..|r.validities|] == r.validities
              && r'.validities[|r.validities|] == ""
              && |r'.shortcodes| == |r.shortcodes| + 1 && r'.shortcodes[..|r.shortcodes|] == r.shortcodes
              && r'.shortcodes[|r.shortcodes|] == ""
  {
    if |r.urls| >= MaxRows then r
    else Rows(r.urls + [""], r.validities + [""], r.shortcodes + [""])
  }

  /** The three text fields of a row, each bound to one array. */
  datatype Column = Urls | Validities | Shortcodes

  function ColumnOf(r: Rows, column: Column): seq<string>
  {
    match column
    case Urls => r.urls
    case Validities => r.validities
    case Shortcodes => r.shortcodes
  }

  /** A change in one text field: `updateArray` through that column's setter. */
  function Edit(r: Rows, column: Column, index: nat, value: string): (r': Rows)
    requires index < |ColumnOf(r, column)|
    ensures ColumnOf(r', column) == UpdateArray(ColumnOf(r, column), index, value)
    ensures forall other :: other != column ==> ColumnOf(r', other) == ColumnOf(r, other)
  {
    match column
    case Urls => r.(urls := UpdateArray(r.urls, index, value))
    case Validities => r.(validities := UpdateArray(r.validities, index, value))
    case Shortcodes => r.(shortcodes := UpdateArray(r.shortcodes, index, value))
  }

  /** What a user can do to the rows: press "Add More", or type into the
      field of `column` in row `index`. */
  datatype Event = AddMore | Typed(column: Column, index: nat, value: string)

  /** The rows after one event. A field is rendered only for a row of the
      URL array (`urls.map`), so typing into row `index` can happen only
      when `index < |urls|`; any other event leaves the rows as they are. */
  function Apply(r: Rows, ev: Event): Rows
  {
    match ev
    case AddMore => AddInputField(r)
    case Typed(column, index, value) =>
      if index < |r.urls| && index < |ColumnOf(r, column)| then Edit(r, column, index, value) else r
  }

  /** The rows after a sequence of events, in order. */
  function Run(r: Rows, evs: seq<Event>): Rows
    decreases |evs|
  {
    if evs == [] then r else Run(Apply(r, evs[0]), evs[1..])
  }

  /** One event keeps the rows well formed: "Add More" stops at `MaxRows`
      and grows all three arrays together, and typing keeps every length. */
  lemma {:induction false} ApplyKeepsWellFormed(r: Rows, ev: Event)
    requires WellFormed(r)
    ensures WellFormed(Apply(r, ev))
    ensures |Apply(r, ev).urls| == if ev.AddMore? && |r.urls| < MaxRows then |r.urls| + 1 else |r.urls|
  {
  }

  /** Whatever the user does, starting from the initial form the three
      arrays stay parallel and never hold more than `MaxRows` rows. */
  lemma {:induction false} RunKeepsWellFormed(r: Rows, evs: seq<Event>)
    requires WellFormed(r)
    ensures WellFormed(Run(r, evs))
    decreases |evs|
  {
    if evs != [] {
      ApplyKeepsWellFormed(r, evs[0]);
      RunKeepsWellFormed(Apply(r, evs[0]), evs[1..]);
    }
  }

  /** The form as it can be reached from its initial state is well formed. */
  lemma {:induction false} ReachableWellFormed(evs: seq<Event>)
    ensures WellFormed(Run(Initial(), evs))
    ensures |Run(Initial(), evs).urls| <= MaxRows
  {
    RunKeepsWellFormed(Initial(), evs);
  }
}
