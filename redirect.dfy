/** Link resolution: `RedirectHandler` (src/App.js:176-218).

    A visit to a short code ends in one of three states: the code is not
    stored (NotFound), the record has expired (Expired), or a click is
    appended to the record, the mapping is saved, and the browser is sent
    to the long URL (Redirecting). The clock and `document.referrer` are
    parameters; the navigation is the returned target. */
module Redirect {
  import opened Links
  import Shorten

  datatype Resolution = NotFound | Expired | Redirecting(target: string)

  /** The click recorded for a visit at `now` with the given referrer. */
  function VisitClick(now: int, referrer: string): (c: Click)
    ensures c.timestamp == now && c.location == PlaceholderLocation
    ensures c.source != "" && (referrer != "" ==> c.source == referrer)
  {
    Click(now, ClickSource(referrer), PlaceholderLocation)
  }

  /** The mapping after a visit to `code` at `now`, and what the visitor sees. */
  function Resolve(m: Mapping, code: string, now: int, referrer: string): (r: (Mapping, Resolution))
    ensures code !in m ==> r == (m, NotFound)
    ensures code in m && !IsActive(m[code], now) ==> r == (m, Expired)
    ensures code in m && IsActive(m[code], now) ==>
              r.1 == Redirecting(m[code].longUrl) && r.0.Keys == m.Keys
  {
    if code !in m then
      (m, NotFound)
    else
      var entry := m[code];
      if now > entry.expires then
        (m, Expired)
      else
        (m[code := entry.(clicks := entry.clicks + [VisitClick(now, referrer)])],
         Redirecting(entry.longUrl))
  }

  /** A visit that redirects appends exactly one click, at the end of that
      record's clicks, with the visit's time, source and placeholder
      location; the record's URL, creation and expiry times and every other
      code's record are unchanged. */
  lemma {:induction false} ActiveVisitAppendsOneClick(m: Mapping, code: string, now: int, referrer: string)
    requires code in m && IsActive(m[code], now)
    ensures var after := Resolve(m, code, now, referrer).0;
            && code in after
            && after[code].longUrl == m[code].longUrl
            && after[code].created == m[code].created
            && after[code].expires == m[code].expires
            && |after[code].clicks| == |m[code].clicks| + 1
            && after[code].clicks[..|m[code].clicks|] == m[code].clicks
            && after[code].clicks[|m[code].clicks|] == Click(now, ClickSource(referrer), "IN")
            && forall k :: k in m && k != code ==> k in after && after[k] == m[k]
  {
    var rec := m[code];
    var after := Resolve(m, code, now, referrer).0;
    assert after[code].clicks == rec.clicks + [VisitClick(now, referrer)];
  }

  /** A visit that does not redirect changes nothing, and a visit redirects
      exactly when the code is stored and the current time is not later
      than its expiry (a visit at the expiry instant still redirects). */
  lemma {:induction false} VisitOutcome(m: Mapping, code: string, now: int, referrer: string)
    ensures Resolve(m, code, now, referrer).1.Redirecting? <==> code in m && now <= m[code].expires
    ensures !Resolve(m, code, now, referrer).1.Redirecting? ==> Resolve(m, code, now, referrer).0 == m
    ensures Resolve(m, code, now, referrer).1 == NotFound <==> code !in m
  {
  }

  /** Clicks never change what a later visit sees: after any visit, every
      code resolves to the same outcome at every time as it did before. */
  lemma {:induction false} VisitKeepsOutcomes(m: Mapping, code: string, now: int, referrer: string,
                           code': string, later: int, referrer': string)
    ensures Resolve(Resolve(m, code, now, referrer).0, code', later, referrer').1 ==
            Resolve(m, code', later, referrer').1
  {
    var after := Resolve(m, code, now, referrer).0;
    if code' in m && code' == code && code in m && IsActive(m[code], now) {
      assert after[code].expires == m[code].expires && after[code].longUrl == m[code].longUrl;
    }
  }

  /** `RedirectHandler` against the persisted store: load, look up, check
      expiry, append the click, write the record back, save, and only then
      return the target the browser is sent to. */
  method RedirectHandler(storage: ShortUrlStorage, code: string, now: int, referrer: string)
    returns (outcome: Resolution)
    modifies storage
    ensures (storage.saved, outcome) == Resolve(old(storage.saved), code, now, referrer)
    ensures outcome.Redirecting? ==> code in storage.saved && storage.saved[code].longUrl == outcome.target
  {
    var shortUrlStorage := storage.Load();
    if code !in shortUrlStorage {
      return NotFound;
    }
    var entry := shortUrlStorage[code];
    if now > entry.expires {
      return Expired;
    }
    entry := entry.(clicks := entry.clicks + [VisitClick(now, referrer)]);
    shortUrlStorage := shortUrlStorage[code := entry];
    storage.Save(shortUrlStorage);
    outcome := Redirecting(entry.longUrl);
  }

  /** A link made by a batch resolves to its URL until it expires, and to
      Expired afterwards; `now + validity` minutes is the last instant at
      which it redirects. */
  lemma {:induction false} ShortenedLinkResolves(m: Mapping, es: seq<Shorten.Entry>, created: int, i: nat,
                              visit: int, referrer: string)
    requires i < |es| && Shorten.Batch(m, es, created).1[i].Shortened?
    ensures var saved := Shorten.Batch(m, es, created).0;
            var code := Shorten.Batch(m, es, created).1[i].code;
            var deadline := created + ValidityMinutes(es[i].parsedValidity) * MillisPerMinute;
            Resolve(saved, code, visit, referrer).1 ==
              if visit <= deadline then Redirecting(es[i].url) else Expired
  {
    Shorten.BatchRecordAt(m, es, created, i);
  }
}
