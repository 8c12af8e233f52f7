/** The state and logic of the APOD screen (NeoReport/components/APODViewer.js): the date NASA
    currently publishes under, the clamp of the selected date, the cache-first fetch, the date
    picker's confirm handler and the zoom buttons. The clock is the parameter `nowMs` (epoch
    milliseconds) and `getApod` stands for `getAPOD(date)`: the record it resolves to or the
    error it throws. */
module ApodViewer {
  import opened Wrappers
  import opened Calendar
  import opened ApodData
  import opened ApodService
  import opened Notices

  /** NASA's day is taken to start four hours after UTC midnight (no daylight-saving rule). */
  const NasaOffsetMs := 4 * 60 * 60 * 1000
  const CacheKeyPrefix := "apod_"
  const NotFoundMessage := "No APOD found for this date. Try a different one."
  /** Stand-in for the engine's text of the error `JSON.parse` throws on a malformed entry. */
  const MalformedEntryMessage := "JSON Parse error: malformed cache entry"
  const MaxZoom := 20
  const ZoomStep := 2

  const FetchFailedAlert := Alert("Error", Some("Failed to fetch APOD. Check your connection."))

  /** Clock readings whose NASA date lies in years 0 to 9999. */
  predicate NowInRange(nowMs: int) {
    InstantInRange(nowMs - NasaOffsetMs)
  }

  /** `getNASADate()`: the UTC calendar date, `YYYY-MM-DD`, of the instant four hours before now. */
  function NasaDate(nowMs: int): (date: string)
    requires NowInRange(nowMs)
    ensures |date| == 10 && ParseDate(date) == Some((nowMs - NasaOffsetMs) / MsPerDay)
  {
    IsoDateOf(nowMs - NasaOffsetMs)
  }

  /** A later clock reading never gives an earlier NASA date. */
  lemma NasaDateMonotone(now1: int, now2: int)
    requires NowInRange(now1) && NowInRange(now2) && now1 <= now2
    ensures !Later(NasaDate(now1), NasaDate(now2))
  {
    IsoDateMonotone(now1 - NasaOffsetMs, now2 - NasaOffsetMs);
  }

  /** The date actually looked up: the selected date, unless it is after NASA's date. */
  function EffectiveDate(selected: string, nasaDate: string): (date: string)
    ensures !Later(date, nasaDate)
    ensures !Later(selected, nasaDate) ==> date == selected
    ensures Later(selected, nasaDate) ==> date == nasaDate
  {
    if Later(selected, nasaDate) then nasaDate else selected
  }

  /** Clamping twice changes nothing more than clamping once. */
  lemma EffectiveDateIdempotent(selected: string, nasaDate: string)
    ensures EffectiveDate(EffectiveDate(selected, nasaDate), nasaDate) == EffectiveDate(selected, nasaDate)
  {
  }

  /** A selected date that is not after NASA's date stays the effective date as time goes on. */
  lemma EffectiveDateStable(selected: string, now1: int, now2: int)
    requires NowInRange(now1) && NowInRange(now2) && now1 <= now2
    requires !Later(selected, NasaDate(now1))
    ensures EffectiveDate(selected, NasaDate(now2)) == selected
  {
    NasaDateMonotone(now1, now2);
  }

  function CacheKey(date: string): (key: string)
    ensures |key| == |CacheKeyPrefix| + |date|
    ensures key[..|CacheKeyPrefix|] == CacheKeyPrefix && key[|CacheKeyPrefix|..] == date
  {
    CacheKeyPrefix + date
  }

  /** Distinct dates never share a cache entry. */
  lemma CacheKeyInjective(d1: string, d2: string)
    requires CacheKey(d1) == CacheKey(d2)
    ensures d1 == d2
  {
    assert d1 == CacheKey(d1)[|CacheKeyPrefix|..];
  }

  /** The text the catch block shows: the fixed not-found text for an HTTP 404, otherwise the
      error's own message. */
  function CatchMessage(e: HttpError): (message: string)
    ensures e.status == Some(404) ==> message == NotFoundMessage
    ensures e.status != Some(404) ==> message == e.message
  {
    if e.status == Some(404) then NotFoundMessage else e.message
  }

  /** What one `fetchAPOD()` leaves behind: the cache, the `apod` and `error` state, the date
      passed to `getAPOD` (none when the cache answered) and the alert shown, if any. */
  datatype FetchResult = FetchResult(
    cache: map<string, string>,
    apod: Option<Apod>,
    error: Option<string>,
    requested: Option<string>,
    alert: Option<Alert>)

  /** An entry `if (cachedAPOD)` accepts: present and not the empty string. */
  predicate CacheHit(cache: map<string, string>, key: string) {
    key in cache && cache[key] != ""
  }

  /** The outcome of `fetchAPOD()` from cache `cache` and previous record `apod`. */
  function Resolve(cache: map<string, string>, apod: Option<Apod>, selected: string, nowMs: int,
                   getApod: string -> Result<Apod, HttpError>): (r: FetchResult)
    requires NowInRange(nowMs)
  {
    var date := EffectiveDate(selected, NasaDate(nowMs));
    var key := CacheKey(date);
    if CacheHit(cache, key) then
      match Decode(cache[key])
      case Some(a) => FetchResult(cache, Some(a), None, None, None)
      case None => FetchResult(cache, apod, Some(MalformedEntryMessage), None, Some(FetchFailedAlert))
    else
      match getApod(date)
      case Ok(data) => FetchResult(cache[key := Encode(data)], Some(data), None, Some(date), None)
      case Err(e) => FetchResult(cache, apod, Some(CatchMessage(e)), Some(date), Some(FetchFailedAlert))
  }

  /** The cache is consulted first: an entry that `if (cachedAPOD)` accepts answers the fetch
      without calling `getApod` and without touching the cache; the record becomes its parsed
      value, or, when it does not parse, the error is set and the record is kept. */
  lemma CacheHitSkipsNetwork(cache: map<string, string>, apod: Option<Apod>, selected: string,
                             nowMs: int, getApod: string -> Result<Apod, HttpError>)
    requires NowInRange(nowMs)
    ensures var key := CacheKey(EffectiveDate(selected, NasaDate(nowMs)));
      var r := Resolve(cache, apod, selected, nowMs, getApod);
      && (r.requested == None <==> CacheHit(cache, key))
      && (CacheHit(cache, key) ==>
            r.cache == cache
            && (r.error == None <==> Decode(cache[key]).Some?)
            && (r.error == None ==> r.apod == Decode(cache[key]) && r.alert == None)
            && (r.error != None ==> r.apod == apod && r.alert == Some(FetchFailedAlert)))
  {
    var date := EffectiveDate(selected, NasaDate(nowMs));
    var key := CacheKey(date);
    var r := Resolve(cache, apod, selected, nowMs, getApod);
    if CacheHit(cache, key) {
      var decoded := Decode(cache[key]);
      if decoded.Some? {
        assert r == FetchResult(cache, decoded, None, None, None);
      } else {
        assert r == FetchResult(cache, apod, Some(MalformedEntryMessage), None, Some(FetchFailedAlert));
      }
    } else {
      assert r.requested == Some(date);
    }
  }

  /** On a miss `getApod` is asked for the effective date; a success becomes the record and is
      stored under that date's key, every other key keeping its entry. */
  lemma MissStoresSuccess(cache: map<string, string>, apod: Option<Apod>, selected: string,
                          nowMs: int, getApod: string -> Result<Apod, HttpError>)
    requires NowInRange(nowMs)
    requires !CacheHit(cache, CacheKey(EffectiveDate(selected, NasaDate(nowMs))))
    requires getApod(EffectiveDate(selected, NasaDate(nowMs))).Ok?
    ensures var date := EffectiveDate(selected, NasaDate(nowMs)); var data := getApod(date).value;
      var r := Resolve(cache, apod, selected, nowMs, getApod);
      && r.requested == Some(date) && r.apod == Some(data) && r.error == None && r.alert == None
      && r.cache == cache[CacheKey(date) := Encode(data)]
      && (forall k :: k != CacheKey(date) ==> (k in r.cache <==> k in cache) && (k in cache ==> r.cache[k] == cache[k]))
  {
  }

  /** A failed request writes nothing and keeps the record; the error reads the fixed not-found
      text exactly when the status is 404, and the error's message otherwise. */
  lemma MissFailureWritesNothing(cache: map<string, string>, apod: Option<Apod>, selected: string,
                                 nowMs: int, getApod: string -> Result<Apod, HttpError>)
    requires NowInRange(nowMs)
    requires !CacheHit(cache, CacheKey(EffectiveDate(selected, NasaDate(nowMs))))
    requires getApod(EffectiveDate(selected, NasaDate(nowMs))).Err?
    ensures var date := EffectiveDate(selected, NasaDate(nowMs)); var e := getApod(date).error;
      var r := Resolve(cache, apod, selected, nowMs, getApod);
      && r.requested == Some(date) && r.cache == cache && r.apod == apod
      && r.alert == Some(FetchFailedAlert)
      && (e.status == Some(404) ==> r.error == Some(NotFoundMessage))
      && (e.status != Some(404) ==> r.error == Some(e.message))
  {
  }

  /** The cache changes only by storing a successful response under the effective date's key. */
  lemma OnlySuccessWritesCache(cache: map<string, string>, apod: Option<Apod>, selected: string,
                               nowMs: int, getApod: string -> Result<Apod, HttpError>)
    requires NowInRange(nowMs)
    ensures var date := EffectiveDate(selected, NasaDate(nowMs));
      var r := Resolve(cache, apod, selected, nowMs, getApod);
      r.cache != cache ==> r.requested == Some(date) && getApod(date).Ok? && r.error == None
                           && r.cache == cache[CacheKey(date) := Encode(getApod(date).value)]
  {
  }

  /** Once a fetch has stored a record, fetching the same effective date again is answered from
      the cache with an equal record, whatever the network would now say. */
  lemma RepeatFetchIsCacheHit(cache: map<string, string>, apod: Option<Apod>, selected: string,
                              now1: int, now2: int, get1: string -> Result<Apod, HttpError>,
                              get2: string -> Result<Apod, HttpError>)
    requires NowInRange(now1) && NowInRange(now2)
    requires EffectiveDate(selected, NasaDate(now2)) == EffectiveDate(selected, NasaDate(now1))
    requires Resolve(cache, apod, selected, now1, get1).requested != None
    requires Resolve(cache, apod, selected, now1, get1).error == None
    ensures var r1 := Resolve(cache, apod, selected, now1, get1);
      var r2 := Resolve(r1.cache, r1.apod, selected, now2, get2);
      r2.requested == None && r2.cache == r1.cache && r2.apod == r1.apod && r2.error == None
  {
    var date := EffectiveDate(selected, NasaDate(now1));
    var key := CacheKey(date);
    var r1 := Resolve(cache, apod, selected, now1, get1);
    assert !CacheHit(cache, key) && get1(date).Ok?;
    var data := get1(date).value;
    assert r1 == FetchResult(cache[key := Encode(data)], Some(data), None, Some(date), None);
    DecodeEncode(data);
    assert CacheHit(r1.cache, key) && r1.cache[key] == Encode(data);
    assert Resolve(r1.cache, r1.apod, selected, now2, get2) == FetchResult(r1.cache, Some(data), None, None, None);
  }

  /** A selected date that is not in NASA's future, once fetched successfully, is served from the
      cache on every later fetch. */
  lemma LaterFetchIsCacheHit(cache: map<string, string>, apod: Option<Apod>, selected: string,
                             now1: int, now2: int, get1: string -> Result<Apod, HttpError>,
                             get2: string -> Result<Apod, HttpError>)
    requires NowInRange(now1) && NowInRange(now2) && now1 <= now2
    requires !Later(selected, NasaDate(now1))
    requires Resolve(cache, apod, selected, now1, get1).requested != None
    requires Resolve(cache, apod, selected, now1, get1).error == None
    ensures var r1 := Resolve(cache, apod, selected, now1, get1);
      var r2 := Resolve(r1.cache, r1.apod, selected, now2, get2);
      r2.requested == None && r2.cache == r1.cache && r2.apod == r1.apod && r2.error == None
  {
    EffectiveDateStable(selected, now1, now2);
    RepeatFetchIsCacheHit(cache, apod, selected, now1, now2, get1, get2);
  }

  /** A failed fetch is not remembered: the next fetch of that date asks the network again and
      reflects a success. */
  lemma FailureDoesNotPoisonCache(cache: map<string, string>, apod: Option<Apod>, selected: string,
                                  nowMs: int, get1: string -> Result<Apod, HttpError>,
                                  get2: string -> Result<Apod, HttpError>)
    requires NowInRange(nowMs)
    requires Resolve(cache, apod, selected, nowMs, get1).requested != None
    requires Resolve(cache, apod, selected, nowMs, get1).error != None
    requires get2(EffectiveDate(selected, NasaDate(nowMs))).Ok?
    ensures var r1 := Resolve(cache, apod, selected, nowMs, get1);
      var date := EffectiveDate(selected, NasaDate(nowMs));
      var r2 := Resolve(r1.cache, r1.apod, selected, nowMs, get2);
      r1.cache == cache && r2.requested == Some(date) && r2.apod == Some(get2(date).value)
  {
    var date := EffectiveDate(selected, NasaDate(nowMs));
    var key := CacheKey(date);
    var r1 := Resolve(cache, apod, selected, nowMs, get1);
    assert !CacheHit(cache, key) && get1(date).Err?;
    assert r1.cache == cache;
    var data := get2(date).value;
    assert Resolve(r1.cache, r1.apod, selected, nowMs, get2)
        == FetchResult(cache[key := Encode(data)], Some(data), None, Some(date), None);
  }

  /** A selected date after NASA's date behaves exactly as selecting NASA's date. */
  lemma FutureDateResolvesAsNasaDate(cache: map<string, string>, apod: Option<Apod>, selected: string,
                                     nowMs: int, getApod: string -> Result<Apod, HttpError>)
    requires NowInRange(nowMs) && Later(selected, NasaDate(nowMs))
    ensures Resolve(cache, apod, selected, nowMs, getApod) == Resolve(cache, apod, NasaDate(nowMs), nowMs, getApod)
  {
    EffectiveDateIdempotent(selected, NasaDate(nowMs));
  }

  /** `Math.min(prev + 2, 20)`: the smaller of the two, for every integer. */
  function ZoomIn(z: int): (r: int)
    ensures r <= z + ZoomStep && r <= MaxZoom && (r == z + ZoomStep || r == MaxZoom)
  {
    if z + ZoomStep < MaxZoom then z + ZoomStep else MaxZoom
  }

  /** `Math.max(prev - 2, 0)`: the larger of the two, for every integer. */
  function ZoomOut(z: int): (r: int)
    ensures r >= z - ZoomStep && r >= 0 && (r == z - ZoomStep || r == 0)
  {
    if z - ZoomStep > 0 then z - ZoomStep else 0
  }

  /** The zoom values reachable from 0. */
  predicate ZoomReachable(z: int) {
    0 <= z <= MaxZoom && z % ZoomStep == 0
  }

  datatype ZoomPress = Increase | Decrease

  function Press(z: int, p: ZoomPress): int {
    match p
    case Increase => ZoomIn(z)
    case Decrease => ZoomOut(z)
  }

  function ApplyPresses(z: int, presses: seq<ZoomPress>): int
    decreases |presses|
  {
    if presses == [] then z else ApplyPresses(Press(z, presses[0]), presses[1..])
  }

  /** One press keeps the zoom reachable and moves it by one step, except at the ends. */
  lemma PressStep(z: int, p: ZoomPress)
    requires ZoomReachable(z)
    ensures ZoomReachable(Press(z, p))
    ensures Press(z, p) == z <==> (p == Increase && z == MaxZoom) || (p == Decrease && z == 0)
    ensures Press(z, p) != z ==> Press(z, p) - z == ZoomStep || z - Press(z, p) == ZoomStep
  {
  }

  /** Any sequence of presses starting from a reachable zoom stays within [0, 20] on even values. */
  lemma {:induction false} PressesStayReachable(z: int, presses: seq<ZoomPress>)
    requires ZoomReachable(z)
    ensures ZoomReachable(ApplyPresses(z, presses))
    decreases |presses|
  {
    if presses != [] {
      PressStep(z, presses[0]);
      PressesStayReachable(Press(z, presses[0]), presses[1..]);
    }
  }

  /** `n` increases from `z` add two each time until they saturate at 20. */
  lemma {:induction false} IncreasesSaturate(z: int, n: nat)
    requires ZoomReachable(z)
    ensures ApplyPresses(z, seq(n, _ => Increase)) == if z + ZoomStep * n <= MaxZoom then z + ZoomStep * n else MaxZoom
    decreases n
  {
    var presses := seq(n, _ => Increase);
    if n > 0 {
      assert presses[1..] == seq(n - 1, _ => Increase);
      IncreasesSaturate(ZoomIn(z), n - 1);
    }
  }

  /** AsyncStorage: a durable map from keys to strings. */
  class Storage {
    var items: map<string, string>

    constructor(initial: map<string, string>)
      ensures items == initial
    {
      items := initial;
    }

    /** `getItem(key)`: the stored string, or null when there is none. */
    method GetItem(key: string) returns (value: Option<string>)
      ensures value == if key in items then Some(items[key]) else None
    {
      value := if key in items then Some(items[key]) else None;
    }

    /** `setItem(key, value)`: stores `value`, replacing any earlier one for `key`. */
    method SetItem(key: string, value: string)
      modifies this
      ensures items == old(items)[key := value]
    {
      items := items[key := value];
    }
  }

  /** The component's state. */
  class Viewer {
    const storage: Storage
    var apod: Option<Apod>
    var loading: bool
    var error: Option<string>
    var datePickerVisible: bool
    var selectedDate: string
    var zoomValue: int

    ghost predicate Valid()
      reads this
    {
      ZoomReachable(zoomValue)
    }

    /** The initial state: no record, loading, no error, the picker closed, today's NASA date
        selected and the zoom at 0. */
    constructor(storage: Storage, nowMs: int)
      requires NowInRange(nowMs)
      ensures Valid() && this.storage == storage
      ensures apod == None && loading && error == None && !datePickerVisible
      ensures selectedDate == NasaDate(nowMs) && zoomValue == 0
    {
      this.storage := storage;
      apod := None;
      loading := true;
      error := None;
      datePickerVisible := false;
      selectedDate := NasaDate(nowMs);
      zoomValue := 0;
    }

    /** `fetchAPOD()`: resets the error, clamps the selected date, answers from the cache when it
        can and otherwise asks `getApod`, storing only a success; `loading` is false afterwards on
        every path. Returns the date `getApod` was asked for and the alert shown, if any. */
    method FetchApod(nowMs: int, getApod: string -> Result<Apod, HttpError>)
      returns (requested: Option<string>, alert: Option<Alert>)
      requires NowInRange(nowMs)
      modifies this`apod, this`loading, this`error, storage
      ensures var r := Resolve(old(storage.items), old(apod), selectedDate, nowMs, getApod);
        storage.items == r.cache && apod == r.apod && error == r.error
        && requested == r.requested && alert == r.alert
      ensures !loading
    {
      loading := true;
      error := None;
      requested, alert := None, None;
      ghost var cache0, apod0 := storage.items, apod;
      var nasaDate := NasaDate(nowMs);
      var finalDate := EffectiveDate(selectedDate, nasaDate);
      var key := CacheKey(finalDate);
      var cached := storage.GetItem(key);
      if cached.Some? && cached.value != "" {
        assert CacheHit(cache0, key);
        var parsed := Decode(cached.value);
        if parsed.Some? {
          apod := parsed;
          assert Resolve(cache0, apod0, selectedDate, nowMs, getApod) == FetchResult(cache0, parsed, None, None, None);
        } else {
          error := Some(MalformedEntryMessage);
          alert := Some(FetchFailedAlert);
          assert Resolve(cache0, apod0, selectedDate, nowMs, getApod)
              == FetchResult(cache0, apod0, error, None, alert);
        }
      } else {
        assert !CacheHit(cache0, key);
        requested := Some(finalDate);
        var response := getApod(finalDate);
        match response {
          case Ok(data) =>
            apod := Some(data);
            storage.SetItem(key, Encode(data));
            assert Resolve(cache0, apod0, selectedDate, nowMs, getApod)
                == FetchResult(cache0[key := Encode(data)], apod, None, requested, None);
          case Err(e) =>
            error := Some(CatchMessage(e));
            alert := Some(FetchFailedAlert);
            assert Resolve(cache0, apod0, selectedDate, nowMs, getApod)
                == FetchResult(cache0, apod0, error, requested, alert);
        }
      }
      loading := false;
    }

    /** `handleConfirm(date)`: selects the UTC date of the picked instant and closes the picker. */
    method HandleConfirm(pickedMs: int)
      requires InstantInRange(pickedMs)
      modifies this`selectedDate, this`datePickerVisible
      ensures selectedDate == IsoDateOf(pickedMs) && !datePickerVisible
    {
      selectedDate := IsoDateOf(pickedMs);
      datePickerVisible := false;
    }

    method FontSizeIncrease()
      requires Valid()
      modifies this`zoomValue
      ensures Valid() && zoomValue == ZoomIn(old(zoomValue))
    {
      PressStep(zoomValue, Increase);
      zoomValue := ZoomIn(zoomValue);
    }

    method FontSizeDecrease()
      requires Valid()
      modifies this`zoomValue
      ensures Valid() && zoomValue == ZoomOut(old(zoomValue))
    {
      PressStep(zoomValue, Decrease);
      zoomValue := ZoomOut(zoomValue);
    }
  }
}
