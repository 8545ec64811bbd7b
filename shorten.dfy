/** Batch shortening: `handleShorten` (src/App.js:52-84).

    The whole mapping is loaded once, the submitted rows are processed in
    order against that one in-memory mapping, and the mapping is saved once.
    Each row ends in exactly one of three outcomes: `Invalid URL`,
    `Shortcode already exists`, or a new record under a new code.

    The browser's URL parser (`isValidURL`), `parseInt` and the random code
    generator are not modelled: each row carries their answers (see `Entry`). */
module Shorten {
  import opened Links
  import opened Text

  datatype ShortenError = InvalidUrl | ShortcodeExists

  /** The `error` text shown for each failure. */
  function Message(e: ShortenError): string
  {
    match e
    case InvalidUrl => "Invalid URL"
    case ShortcodeExists => "Shortcode already exists"
  }

  /** `{ error }` or `{ code, longUrl }`, one per submitted row. */
  datatype ShortenResult = Failed(error: ShortenError) | Shortened(code: string, longUrl: string)

  /** One submitted row as the `urls.map` callback first sees it: the URL,
      `shortcodes[idx]?.trim()` (the empty string standing also for
      `undefined`, as both are falsy in the `||` that follows), what
      `parseInt` made of the validity text, whether the URL parser accepted
      the URL, and the code `generateShortCode` would produce if this row
      needs one. */
  datatype Entry = Entry(url: string, customCode: string, parsedValidity: Option<int>,
                         urlIsValid: bool, generatedCode: string)

  /** Row `idx` of the form's three parallel arrays. `parseInt(undefined)`
      is NaN, so a missing validity text parses to None. */
  function EntryAt(urls: seq<string>, validities: seq<string>, shortcodes: seq<string>,
                   isValidURL: string -> bool, parseInt: string -> Option<int>,
                   generated: seq<string>, idx: nat): (e: Entry)
    requires idx < |urls| && idx < |generated|
    ensures e.url == urls[idx] && e.urlIsValid == isValidURL(urls[idx]) && e.generatedCode == generated[idx]
    ensures e.customCode == if idx < |shortcodes| then Trim(shortcodes[idx]) else ""
    ensures e.parsedValidity == if idx < |validities| then parseInt(validities[idx]) else None
  {
    Entry(urls[idx],
          if idx < |shortcodes| then Trim(shortcodes[idx]) else "",
          if idx < |validities| then parseInt(validities[idx]) else None,
          isValidURL(urls[idx]),
          generated[idx])
  }

  /** All rows of a submission, in the order `urls.map` visits them. */
  function Entries(urls: seq<string>, validities: seq<string>, shortcodes: seq<string>,
                   isValidURL: string -> bool, parseInt: string -> Option<int>,
                   generated: seq<string>): (es: seq<Entry>)
    requires |generated| == |urls|
    ensures |es| == |urls|
    ensures forall i :: 0 <= i < |urls| ==>
              es[i] == EntryAt(urls, validities, shortcodes, isValidURL, parseInt, generated, i)
  {
    seq(|urls|, i requires 0 <= i < |urls| =>
                  EntryAt(urls, validities, shortcodes, isValidURL, parseInt, generated, i))
  }

  /** `customCode || generateShortCode()`: the trimmed custom code when it
      is not empty, otherwise the generated code. */
  function ChosenCode(e: Entry): (code: string)
    ensures e.customCode != "" ==> code == e.customCode
    ensures e.customCode == "" ==> code == e.generatedCode
    ensures e.generatedCode != "" ==> code != ""
  {
    if e.customCode != "" then e.customCode else e.generatedCode
  }

  /** A row whose custom-code text is missing or only whitespace gets the
      generated code; any other row gets its custom code, trimmed. */
  lemma {:induction false} BlankCustomCodeFallsBack(urls: seq<string>, validities: seq<string>, shortcodes: seq<string>,
                                                     isValidURL: string -> bool, parseInt: string -> Option<int>,
                                                     generated: seq<string>, idx: nat)
    requires idx < |urls| && idx < |generated|
    ensures var e := EntryAt(urls, validities, shortcodes, isValidURL, parseInt, generated, idx);
            (idx < |shortcodes| ==> AllWhitespace(shortcodes[idx])) ==> ChosenCode(e) == generated[idx]
    ensures var e := EntryAt(urls, validities, shortcodes, isValidURL, parseInt, generated, idx);
            idx < |shortcodes| && !AllWhitespace(shortcodes[idx]) ==>
              ChosenCode(e) == Trim(shortcodes[idx]) != ""
  {
    if idx < |shortcodes| {
      TrimEmptyIff(shortcodes[idx]);
    }
  }

  /** `m2` keeps every record of `m1` unchanged (and may have more). */
  predicate Extends(m1: Mapping, m2: Mapping)
  {
    forall k :: k in m1 ==> k in m2 && m2[k] == m1[k]
  }

  /** The record a successful row stores. */
  function RecordFor(e: Entry, now: int): LinkRecord
  {
    NewRecord(e.url, now, ValidityMinutes(e.parsedValidity))
  }

  /** One row of `urls.map` (src/App.js:56-79) against the mapping `m` as it
      stands when the row is reached. */
  function Step(m: Mapping, e: Entry, now: int): (r: (Mapping, ShortenResult))
    ensures r.1 == Failed(InvalidUrl) <==> !e.urlIsValid
    ensures r.1 == Failed(ShortcodeExists) <==> e.urlIsValid && ChosenCode(e) in m
    ensures r.1.Failed? ==> r.0 == m
    ensures r.1.Shortened? ==>
              && r.1 == Shortened(ChosenCode(e), e.url)
              && ChosenCode(e) !in m
              && r.0 == m[ChosenCode(e) := RecordFor(e, now)]
  {
    if !e.urlIsValid then
      (m, Failed(InvalidUrl))
    else
      var code := ChosenCode(e);
      if code in m then
        (m, Failed(ShortcodeExists))
      else
        (m[code := RecordFor(e, now)], Shortened(code, e.url))
  }

  /** A successful row adds exactly one key, the new code, and keeps every
      record that was there. */
  lemma {:induction false} StepAddsOneKey(m: Mapping, e: Entry, now: int)
    ensures Extends(m, Step(m, e, now).0)
    ensures Step(m, e, now).1.Shortened? ==>
              && Step(m, e, now).0.Keys == m.Keys + {ChosenCode(e)}
              && |Step(m, e, now).0| == |m| + 1
  {
  }

  /** The mapping and the results after the rows `es`, in order, each one
      seeing the mapping as the rows before it left it. */
  function Batch(m: Mapping, es: seq<Entry>, now: int): (r: (Mapping, seq<ShortenResult>))
    decreases |es|
    ensures |r.1| == |es|
  {
    if es == [] then
      (m, [])
    else
      var prior := Batch(m, es[..|es| - 1], now);
      var step := Step(prior.0, es[|es| - 1], now);
      (step.0, prior.1 + [step.1])
  }

  /** A batch never overwrites or removes a record: every record of the
      loaded mapping is in the saved one, unchanged. */
  lemma {:induction false} BatchExtends(m: Mapping, es: seq<Entry>, now: int)
    ensures Extends(m, Batch(m, es, now).0)
    decreases |es|
  {
    if es != [] {
      var prior := Batch(m, es[..|es| - 1], now);
      BatchExtends(m, es[..|es| - 1], now);
      StepAddsOneKey(prior.0, es[|es| - 1], now);
    }
  }

  /** The mapping just before row `i` is processed. */
  function StoreBefore(m: Mapping, es: seq<Entry>, now: int, i: nat): Mapping
    requires i <= |es|
  {
    Batch(m, es[..i], now).0
  }

  /** Processing `a + b` is processing `a`, then `b` from where `a` left the
      mapping; the results are concatenated. */
  lemma {:induction false} BatchAppend(m: Mapping, a: seq<Entry>, b: seq<Entry>, now: int)
    ensures Batch(m, a + b, now) ==
            (Batch(Batch(m, a, now).0, b, now).0, Batch(m, a, now).1 + Batch(Batch(m, a, now).0, b, now).1)
    decreases |b|
  {
    if b == [] {
      assert a + b == a;
      assert Batch(m, a, now).1 + [] == Batch(m, a, now).1;
    } else {
      var b' := b[..|b| - 1];
      assert (a + b)[..|a + b| - 1] == a + b';
      assert (a + b)[|a + b| - 1] == b[|b| - 1];
      BatchAppend(m, a, b', now);
      var left := Batch(m, a, now);
      var mid := Batch(left.0, b', now);
      var step := Step(mid.0, b[|b| - 1], now);
      assert Batch(m, a + b, now) == (step.0, (left.1 + mid.1) + [step.1]);
      assert Batch(left.0, b, now) == (step.0, mid.1 + [step.1]);
      assert (left.1 + mid.1) + [step.1] == left.1 + (mid.1 + [step.1]);
    }
  }

  /** Processing one more row. */
  lemma {:induction false} BatchSnoc(m: Mapping, es: seq<Entry>, now: int, i: nat)
    requires i < |es|
    ensures Batch(m, es[..i + 1], now) ==
            var prior := Batch(m, es[..i], now);
            var step := Step(prior.0, es[i], now);
            (step.0, prior.1 + [step.1])
  {
    assert es[..i + 1][..i] == es[..i];
    assert es[..i + 1][i] == es[i];
  }

  /** Result `i` describes row `i`: it is what row `i` yields against the
      mapping the earlier rows of the same batch left. */
  lemma {:induction false} BatchResultAt(m: Mapping, es: seq<Entry>, now: int, i: nat)
    requires i < |es|
    ensures Batch(m, es, now).1[i] == Step(StoreBefore(m, es, now, i), es[i], now).1
    ensures Batch(m, es[..i + 1], now).0 == Step(StoreBefore(m, es, now, i), es[i], now).0
  {
    assert es == es[..i + 1] + es[i + 1..];
    BatchAppend(m, es[..i + 1], es[i + 1..], now);
    assert es[..i + 1][..i] == es[..i];
  }

  /** Later mappings of a batch keep every record of earlier ones. */
  lemma {:induction false} BatchGrows(m: Mapping, es: seq<Entry>, now: int, i: nat, j: nat)
    requires i <= j <= |es|
    ensures Extends(StoreBefore(m, es, now, i), StoreBefore(m, es, now, j))
  {
    assert es[..j] == es[..i] + es[i..j];
    assert es[..j][..i] == es[..i];
    BatchAppend(m, es[..i], es[i..j], now);
    BatchExtends(StoreBefore(m, es, now, i), es[i..j], now);
  }

  /** A code taken by an earlier row of the same batch (whether that row
      added it or it already existed) makes a later row with a valid URL
      and the same code fail with `Shortcode already exists`. */
  lemma {:induction false} DuplicateInBatchFails(m: Mapping, es: seq<Entry>, now: int, i: nat, j: nat)
    requires i < j < |es|
    requires es[i].urlIsValid && es[j].urlIsValid
    requires ChosenCode(es[i]) == ChosenCode(es[j])
    ensures Batch(m, es, now).1[j] == Failed(ShortcodeExists)
  {
    BatchResultAt(m, es, now, i);
    var after := Batch(m, es[..i + 1], now).0;
    assert ChosenCode(es[i]) in after;
    assert es[..i + 1] == es[..j][..i + 1];
    BatchGrows(m, es, now, i + 1, j);
    BatchResultAt(m, es, now, j);
  }

  /** A row with a valid URL whose code was already stored before the batch
      fails with `Shortcode already exists`: submitting a taken code again
      never replaces its record. */
  lemma {:induction false} StoredCodeFails(m: Mapping, es: seq<Entry>, now: int, j: nat)
    requires j < |es| && es[j].urlIsValid && ChosenCode(es[j]) in m
    ensures Batch(m, es, now).1[j] == Failed(ShortcodeExists)
  {
    BatchResultAt(m, es, now, j);
    assert es[..0] == [];
    BatchGrows(m, es, now, 0, j);
  }

  /** The codes of successful rows of one batch are pairwise distinct. */
  lemma {:induction false} SuccessfulCodesDistinct(m: Mapping, es: seq<Entry>, now: int, i: nat, j: nat)
    requires i < j < |es|
    requires Batch(m, es, now).1[i].Shortened? && Batch(m, es, now).1[j].Shortened?
    ensures Batch(m, es, now).1[i].code != Batch(m, es, now).1[j].code
  {
    BatchResultAt(m, es, now, i);
    BatchResultAt(m, es, now, j);
    if Batch(m, es, now).1[i].code == Batch(m, es, now).1[j].code {
      DuplicateInBatchFails(m, es, now, i, j);
    }
  }

  /** A successful row's record is in the mapping that is saved, exactly as
      it was created: its URL, no clicks, and expiry `now + validity` minutes. */
  lemma {:induction false} BatchRecordAt(m: Mapping, es: seq<Entry>, now: int, i: nat)
    requires i < |es| && Batch(m, es, now).1[i].Shortened?
    ensures var code := Batch(m, es, now).1[i].code;
            && code == ChosenCode(es[i])
            && code !in m
            && code in Batch(m, es, now).0
            && Batch(m, es, now).0[code] == RecordFor(es[i], now)
  {
    BatchResultAt(m, es, now, i);
    var code := ChosenCode(es[i]);
    BatchGrows(m, es, now, 0, i);
    assert es[..0] == [];
    assert es[..i + 1] == es[..|es|][..i + 1];
    BatchGrows(m, es, now, i + 1, |es|);
    assert es[..|es|] == es;
  }

  /** The code a result reports, if it reports one. */
  function CodeOf(x: ShortenResult): set<string>
  {
    if x.Shortened? then {x.code} else {}
  }

  /** The codes of the successful results. */
  function ShortenedCodes(rs: seq<ShortenResult>): set<string>
  {
    if rs == [] then {} else ShortenedCodes(rs[..|rs| - 1]) + CodeOf(rs[|rs| - 1])
  }

  lemma {:induction false} ShortenedCodesSnoc(rs: seq<ShortenResult>, x: ShortenResult)
    ensures ShortenedCodes(rs + [x]) == ShortenedCodes(rs) + CodeOf(x)
  {
    assert (rs + [x])[..|rs|] == rs;
  }

  /** The number of successful results. */
  function SuccessCount(rs: seq<ShortenResult>): nat
  {
    if rs == [] then 0
    else SuccessCount(rs[..|rs| - 1]) + (if rs[|rs| - 1].Shortened? then 1 else 0)
  }

  /** The saved mapping holds the old codes plus exactly the codes of the
      successful rows. */
  lemma {:induction false} BatchKeys(m: Mapping, es: seq<Entry>, now: int)
    ensures Batch(m, es, now).0.Keys == m.Keys + ShortenedCodes(Batch(m, es, now).1)
    decreases |es|
  {
    if es != [] {
      var es' := es[..|es| - 1];
      var prior := Batch(m, es', now);
      var step := Step(prior.0, es[|es| - 1], now);
      assert prior.0.Keys == m.Keys + ShortenedCodes(prior.1) by {
        BatchKeys(m, es', now);
      }
      assert step.0.Keys == prior.0.Keys + CodeOf(step.1) by {
        StepAddsOneKey(prior.0, es[|es| - 1], now);
      }
      assert Batch(m, es, now) == (step.0, prior.1 + [step.1]) by {
        BatchSnoc(m, es, now, |es| - 1);
        assert es[..|es|] == es;
      }
      assert ShortenedCodes(prior.1 + [step.1]) == ShortenedCodes(prior.1) + CodeOf(step.1) by {
        ShortenedCodesSnoc(prior.1, step.1);
      }
      UnionShift(m.Keys, ShortenedCodes(prior.1), CodeOf(step.1), prior.0.Keys, step.0.Keys);
    }
  }

  lemma {:induction false} UnionShift<T>(base: set<T>, before: set<T>, added: set<T>, mid: set<T>, after: set<T>)
    requires mid == base + before && after == mid + added
    ensures after == base + (before + added)
  {
  }

  /** Each successful row adds one key to the saved mapping, and no other
      row adds any. */
  lemma {:induction false} BatchSize(m: Mapping, es: seq<Entry>, now: int)
    ensures |Batch(m, es, now).0| == |m| + SuccessCount(Batch(m, es, now).1)
    decreases |es|
  {
    if es != [] {
      var es' := es[..|es| - 1];
      BatchSize(m, es', now);
      var prior := Batch(m, es', now);
      var step := Step(prior.0, es[|es| - 1], now);
      assert Batch(m, es, now) == (step.0, prior.1 + [step.1]);
      assert (prior.1 + [step.1])[..|prior.1|] == prior.1;
      StepAddsOneKey(prior.0, es[|es| - 1], now);
    }
  }

  lemma {:induction false} NoSuccessNoCodes(rs: seq<ShortenResult>)
    requires forall i :: 0 <= i < |rs| ==> rs[i].Failed?
    ensures ShortenedCodes(rs) == {}
    decreases |rs|
  {
    if rs != [] {
      NoSuccessNoCodes(rs[..|rs| - 1]);
    }
  }

  /** The saved mapping equals the loaded one exactly when no row succeeded:
      rows that fail (however many, and however often repeated) never
      change the store. */
  lemma {:induction false} BatchUnchangedIff(m: Mapping, es: seq<Entry>, now: int)
    ensures Batch(m, es, now).0 == m <==>
            forall i :: 0 <= i < |es| ==> Batch(m, es, now).1[i].Failed?
  {
    var r := Batch(m, es, now);
    BatchKeys(m, es, now);
    if forall i :: 0 <= i < |es| ==> r.1[i].Failed? {
      NoSuccessNoCodes(r.1);
      BatchExtends(m, es, now);
      assert r.0.Keys == m.Keys;
    } else {
      var i :| 0 <= i < |es| && r.1[i].Shortened?;
      BatchRecordAt(m, es, now, i);
    }
  }

  /** A submission whose URLs all fail validation leaves the store as it
      was, and every result says `Invalid URL`. */
  lemma {:induction false} AllInvalidUnchanged(m: Mapping, es: seq<Entry>, now: int)
    requires forall i :: 0 <= i < |es| ==> !es[i].urlIsValid
    ensures Batch(m, es, now).0 == m
    ensures forall i :: 0 <= i < |es| ==> Batch(m, es, now).1[i] == Failed(InvalidUrl)
  {
    forall i | 0 <= i < |es| ensures Batch(m, es, now).1[i] == Failed(InvalidUrl) {
      BatchResultAt(m, es, now, i);
    }
    BatchUnchangedIff(m, es, now);
  }

  /** `handleShorten` minus the load and the save: walks the rows in order,
      updating the loaded mapping in place, and builds the result list. */
  method ShortenBatch(stored: Mapping, urls: seq<string>, validities: seq<string>, shortcodes: seq<string>,
                      isValidURL: string -> bool, parseInt: string -> Option<int>,
                      generated: seq<string>, now: int)
    returns (shortUrlStorage: Mapping, newResults: seq<ShortenResult>)
    requires |generated| == |urls|
    ensures (shortUrlStorage, newResults) ==
            Batch(stored, Entries(urls, validities, shortcodes, isValidURL, parseInt, generated), now)
    ensures |newResults| == |urls|
    ensures Extends(stored, shortUrlStorage)
  {
    ghost var es := Entries(urls, validities, shortcodes, isValidURL, parseInt, generated);
    shortUrlStorage, newResults := stored, [];
    for idx := 0 to |urls|
      invariant (shortUrlStorage, newResults) == Batch(stored, es[..idx], now)
    {
      ghost var before := shortUrlStorage;
      ghost var e := es[idx];
      var customCode := if idx < |shortcodes| then Trim(shortcodes[idx]) else "";
      var validity := ValidityMinutes(if idx < |validities| then parseInt(validities[idx]) else None);
      var result;
      if !isValidURL(urls[idx]) {
        result := Failed(InvalidUrl);
      } else {
        var code := if customCode != "" then customCode else generated[idx];
        if code in shortUrlStorage {
          result := Failed(ShortcodeExists);
        } else {
          shortUrlStorage := shortUrlStorage[code := NewRecord(urls[idx], now, validity)];
          result := Shortened(code, urls[idx]);
        }
      }
      assert (shortUrlStorage, result) == Step(before, e, now);
      BatchSnoc(stored, es, now, idx);
      newResults := newResults + [result];
    }
    assert es[..|urls|] == es;
    BatchExtends(stored, es, now);
  }

  /** Object.prototype's property names. A plain object made by `JSON.parse`
      inherits them, so `shortUrlStorage[code]` is truthy for each of them
      even when no such code was ever stored. */
  const InheritedNames: set<string> :=
    {"constructor", "__proto__", "hasOwnProperty", "isPrototypeOf", "propertyIsEnumerable",
     "toLocaleString", "toString", "valueOf",
     "__defineGetter__", "__defineSetter__", "__lookupGetter__", "__lookupSetter__"}

  /** The existence test as written at src/App.js:66: property lookup on a
      plain object, which also finds inherited names. */
  predicate TruthyLookup(m: Mapping, code: string)
    ensures code in m ==> TruthyLookup(m, code)
    ensures code !in InheritedNames ==> (TruthyLookup(m, code) <==> code in m)
  {
    code in m || code in InheritedNames
  }

  /** One row as written: like `Step`, but with the inherited-name lookup. */
  function StepAsWritten(m: Mapping, e: Entry, now: int): (r: (Mapping, ShortenResult))
    ensures r.1 == Failed(ShortcodeExists) <==> e.urlIsValid && TruthyLookup(m, ChosenCode(e))
  {
    if !e.urlIsValid then
      (m, Failed(InvalidUrl))
    else
      var code := ChosenCode(e);
      if TruthyLookup(m, code) then
        (m, Failed(ShortcodeExists))
      else
        (m[code := RecordFor(e, now)], Shortened(code, e.url))
  }

  /** On an empty store, a valid URL with the custom code "toString" is
      refused as already existing by the code as written, while the
      own-key test accepts it. */
  lemma {:induction false} InheritedNameRejected(now: int)
    ensures var e := Entry("https://example.com", "toString", None, true, "1b9d6b");
            && StepAsWritten(map[], e, now).1 == Failed(ShortcodeExists)
            && Step(map[], e, now).1 == Shortened("toString", "https://example.com")
  {
    var e := Entry("https://example.com", "toString", None, true, "1b9d6b");
    assert "toString" in InheritedNames;
    var empty: Mapping := map[];
    assert StepAsWritten(empty, e, now).1 == Failed(ShortcodeExists);
    assert Step(empty, e, now).1 == Shortened("toString", "https://example.com");
  }

  /** Two rows on an empty store: an invalid URL first, then a valid URL
      with custom code "abc". Results come back in order and only "abc" is
      stored. */
  lemma {:induction false} TwoRowScenario(now: int)
    ensures var es := [Entry("not-a-url", "", None, false, "a1b2c3"),
                       Entry("https://a.com", "abc", None, true, "d4e5f6")];
            Batch(map[], es, now) ==
            (map["abc" := NewRecord("https://a.com", now, 30)],
             [Failed(InvalidUrl), Shortened("abc", "https://a.com")])
    ensures var es := [Entry("not-a-url", "", None, false, "a1b2c3"),
                       Entry("https://a.com", "abc", None, true, "d4e5f6")];
            Message(Batch(map[], es, now).1[0].error) == "Invalid URL"
  {
    var es := [Entry("not-a-url", "", None, false, "a1b2c3"),
               Entry("https://a.com", "abc", None, true, "d4e5f6")];
    var empty: Mapping := map[];
    assert es[..1] == [es[0]] && es[..2] == es;
    BatchSnoc(empty, es, now, 0);
    BatchSnoc(empty, es, now, 1);
    assert es[..0] == [];
    assert Batch(empty, es[..0], now) == (empty, []);
    assert Step(empty, es[0], now) == (empty, Failed(InvalidUrl));
    assert Batch(empty, es[..1], now).0 == empty;
    var none: seq<ShortenResult> := [];
    assert Batch(empty, es[..1], now).1 == none + [Failed(InvalidUrl)];
    assert none + [Failed(InvalidUrl)] == [Failed(InvalidUrl)];
    assert Batch(empty, es[..1], now) == (empty, [Failed(InvalidUrl)]);
    assert ChosenCode(es[1]) == "abc";
    assert RecordFor(es[1], now) == NewRecord("https://a.com", now, 30);
    assert Step(empty, es[1], now) == (empty["abc" := NewRecord("https://a.com", now, 30)], Shortened("abc", "https://a.com"));
    assert empty["abc" := NewRecord("https://a.com", now, 30)] == map["abc" := NewRecord("https://a.com", now, 30)];
    assert [Failed(InvalidUrl)] + [Shortened("abc", "https://a.com")] == [Failed(InvalidUrl), Shortened("abc", "https://a.com")];
    assert Batch(empty, es, now) == Batch(empty, es[..2], now);
  }
}
