/** The `Home` component's state and handlers (src/App.js:46-99): the
    form's three row arrays, the last batch's results, and the handlers
    that change them. Rendering is not modelled. */
module App {
  import opened Links
  import opened Inputs
  import Shorten

  class Home {
    var urls: seq<string>
    var validities: seq<string>
    var shortcodes: seq<string>
    var results: seq<Shorten.ShortenResult>

    function RowsOf(): Rows
      reads this
    {
      Rows(urls, validities, shortcodes)
    }

    ghost predicate Valid()
      reads this
    {
      WellFormed(RowsOf())
    }

    /** The component's initial state: one empty row, no results. */
    constructor ()
      ensures RowsOf() == Initial() && results == []
      ensures Valid()
    {
      urls, validities, shortcodes := [""], [""], [""];
      results := [];
    }

    /** `handleShorten`: one load, the rows processed in order against the
        loaded mapping, one save of the whole mapping, then the results are
        shown. The rows themselves are not changed. */
    method HandleShorten(storage: ShortUrlStorage, isValidURL: string -> bool,
                         parseInt: string -> Option<int>, generated: seq<string>, now: int)
      requires Valid() && |generated| == |urls|
      modifies this`results, storage
      ensures RowsOf() == old(RowsOf())
      ensures Valid() && |results| <= MaxRows
      ensures (storage.saved, results) ==
              Shorten.Batch(old(storage.saved),
                            Shorten.Entries(urls, validities, shortcodes, isValidURL, parseInt, generated), now)
      ensures |results| == |urls|
    {
      var shortUrlStorage := storage.Load();
      var newResults;
      shortUrlStorage, newResults :=
        Shorten.ShortenBatch(shortUrlStorage, urls, validities, shortcodes, isValidURL, parseInt, generated, now);
      storage.Save(shortUrlStorage);
      results := newResults;
    }

    /** `updateArray(setter, index, value)`, with the setter named by the
        column it sets. */
    method UpdateArray(setter: Column, index: nat, value: string)
      requires index < |ColumnOf(RowsOf(), setter)|
      modifies this`urls, this`validities, this`shortcodes
      ensures RowsOf() == Edit(old(RowsOf()), setter, index, value)
      ensures Valid() <==> old(Valid())
    {
      match setter
      case Urls => urls := Inputs.UpdateArray(urls, index, value);
      case Validities => validities := Inputs.UpdateArray(validities, index, value);
      case Shortcodes => shortcodes := Inputs.UpdateArray(shortcodes, index, value);
    }

    /** `addInputField`: one more empty row unless there are already five. */
    method AddInputField()
      modifies this`urls, this`validities, this`shortcodes
      ensures RowsOf() == Inputs.AddInputField(old(RowsOf()))
      ensures old(Valid()) ==> Valid()
    {
      if |urls| >= MaxRows {
        return;
      }
      urls := urls + [""];
      validities := validities + [""];
      shortcodes := shortcodes + [""];
    }
  }
}
