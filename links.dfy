/** Link records, click events and the persisted short-code mapping of the
    URL shortener (src/App.js:39-44, 71-76, 201-205).

    Times are integers of milliseconds since the epoch, as `Date.now()` gives
    them; the store is the deserialised content of the `shortUrls` entry of
    the browser's local storage, with serialisation modelled as identity. */
module Links {

  datatype Option<+T> = None | Some(value: T)

  /** One visit of a short link: when, from which referrer, from where. */
  datatype Click = Click(timestamp: int, source: string, location: string)

  /** The record stored under one short code. */
  datatype LinkRecord = LinkRecord(longUrl: string, created: int, clicks: seq<Click>, expires: int)

  /** Short code -> record, as held in memory between load and save. */
  type Mapping = map<string, LinkRecord>

  /** Minutes a link stays valid when no usable validity was given. */
  const DefaultValidity: int := 30

  /** Milliseconds per minute: `60 * 1000` in the expiry computation. */
  const MillisPerMinute: int := 60 * 1000

  /** Placeholder location written into every click. */
  const PlaceholderLocation: string := "IN"

  /** Source written into a click when the browser reports no referrer. */
  const FallbackSource: string := "localhost"

  /** `parseInt(text) || 30`: a missing parse (NaN) and a parsed 0 are both
      falsy and fall back to 30 minutes; every other integer, negative ones
      included, is used as given. */
  function ValidityMinutes(parsed: Option<int>): (minutes: int)
    ensures minutes != 0
    ensures parsed.Some? && parsed.value != 0 ==> minutes == parsed.value
    ensures parsed.None? || parsed.value == 0 ==> minutes == DefaultValidity
  {
    match parsed
    case Some(n) => if n != 0 then n else DefaultValidity
    case None => DefaultValidity
  }

  /** The record created for `url` at time `now`: no clicks yet, expiring
      `minutes` minutes after `now`. */
  function NewRecord(url: string, now: int, minutes: int): (rec: LinkRecord)
    ensures rec.longUrl == url && rec.created == now && rec.clicks == []
    ensures rec.expires - rec.created == minutes * MillisPerMinute
  {
    LinkRecord(url, now, [], now + minutes * MillisPerMinute)
  }

  /** `document.referrer || 'localhost'`: the empty referrer is falsy. */
  function ClickSource(referrer: string): (source: string)
    ensures source != ""
    ensures referrer != "" ==> source == referrer
    ensures referrer == "" ==> source == FallbackSource
  {
    if referrer != "" then referrer else FallbackSource
  }

  /** A record is still resolvable at `now` unless `now` is strictly later
      than its expiry: `new Date() > new Date(entry.expires)` is the
      expired test. */
  predicate IsActive(rec: LinkRecord, now: int)
  {
    now <= rec.expires
  }

  /** The `shortUrls` entry of the browser's local storage. */
  class ShortUrlStorage {
    var saved: Mapping

    /** Nothing persisted yet: `getShortUrlStorage` then parses `'{}'`. */
    constructor ()
      ensures saved == map[]
    {
      saved := map[];
    }

    /** `getShortUrlStorage`: a fresh in-memory copy of the whole mapping. */
    method Load() returns (data: Mapping)
      ensures data == saved
    {
      data := saved;
    }

    /** `saveShortUrlStorage`: overwrites the whole persisted mapping. */
    method Save(data: Mapping)
      modifies this
      ensures saved == data
    {
      saved := data;
    }
  }
}
