/**
 * The data side of pages/GoFor2026.tsx: `loadHikes` fetches the manifest,
 * parses every listed GPX file (all or nothing, as `Promise.all`), sorts the
 * hikes newest first and selects the first one, and clears the loading flag
 * on every path; `formatDuration` splits milliseconds into hours and minutes.
 */
module HikePage {
  import opened Wrappers
  import opened TrackStats

  /** Where the page fetches GPX files from. */
  const HikingDir: string := "/data/hiking"

  /**
   * Fetching and parsing one GPX URL: the parsed document, or None when the
   * fetch or the parser throws.
   */
  type GpxSource = string -> Option<GpxDocument>

  /**
   * The `new Date()` each `parseGPX` call reads after its own fetch resolved,
   * keyed by the URL it fetched: files load concurrently, so their clocks differ.
   */
  type Clock = string -> int

  /* ---------------------------------------------------------------------- */
  /* Promise.all over parseGPX                                               */
  /* ---------------------------------------------------------------------- */

  /** `parseGPX('/data/hiking/' + filename)` */
  function ParseHike(filename: string, source: GpxSource, dist: Distance, now: Clock): Option<HikingStats>
  {
    var url := HikingDir + "/" + filename;
    match source(url)
    case None => None
    case Some(doc) => Some(ParseGpx(url, doc, dist, now(url)))
  }

  /** The promise each manifest entry is mapped to: a hike, or None when it throws. */
  type Parse = string -> Option<HikingStats>

  /** `filename => parseGPX(`/data/hiking/${filename}`)` */
  function Parser(source: GpxSource, dist: Distance, now: Clock): Parse
  {
    filename => ParseHike(filename, source, dist, now)
  }

  /** `Promise.all(hikeFilenames.map(parse))`: every hike, or None as soon as one parse throws. */
  function LoadAll(filenames: seq<string>, parse: Parse): (r: Option<seq<HikingStats>>)
    ensures r.Some? ==> |r.value| == |filenames|
  {
    if filenames == [] then Some([])
    else
      match parse(filenames[0])
      case None => None
      case Some(h) =>
        match LoadAll(filenames[1..], parse)
        case None => None
        case Some(rest) => Some([h] + rest)
  }

  /** A parsed hike's `filename` is the manifest's name when that name holds no '/'. */
  lemma ParseHikeKeepsName(filename: string, source: GpxSource, dist: Distance, now: Clock)
    requires '/' !in filename
    ensures ParseHike(filename, source, dist, now).Some? ==> ParseHike(filename, source, dist, now).value.filename == filename
  {
    var url := HikingDir + "/" + filename;
    LastSegmentOfPath(HikingDir, filename);
    if source(url).Some? {
      assert ParseHike(filename, source, dist, now).value == ParseGpx(url, source(url).value, dist, now(url));
    }
  }

  /** Every file named in the manifest parses. */
  predicate EveryFileParses(filenames: seq<string>, parse: Parse)
  {
    forall i :: 0 <= i < |filenames| ==> parse(filenames[i]).Some?
  }

  /** The load succeeds exactly when every file parses. */
  lemma {:induction false} LoadAllIsAllOrNothing(filenames: seq<string>, parse: Parse)
    ensures LoadAll(filenames, parse).Some? <==> EveryFileParses(filenames, parse)
  {
    if filenames != [] {
      var rest := filenames[1..];
      LoadAllIsAllOrNothing(rest, parse);
      assert EveryFileParses(filenames, parse) <==> parse(filenames[0]).Some? && EveryFileParses(rest, parse)
      by {
        assert forall i :: 0 < i < |filenames| ==> filenames[i] == rest[i - 1];
      }
    }
  }

  /** Hike i of a successful load is what parsing file i gives: `Promise.all` keeps the input order. */
  lemma {:induction false} LoadAllKeepsOrder(filenames: seq<string>, parse: Parse, i: nat)
    requires LoadAll(filenames, parse).Some?
    requires i < |filenames|
    ensures Some(LoadAll(filenames, parse).value[i]) == parse(filenames[i])
  {
    if i > 0 {
      LoadAllKeepsOrder(filenames[1..], parse, i - 1);
      assert filenames[1..][i - 1] == filenames[i];
    }
  }

  /** Hike i of a successful page load carries file i's name whenever that name holds no '/'. */
  lemma LoadAllKeepsNames(filenames: seq<string>, source: GpxSource, dist: Distance, now: Clock, i: nat)
    requires LoadAll(filenames, Parser(source, dist, now)).Some?
    requires i < |filenames| && '/' !in filenames[i]
    ensures LoadAll(filenames, Parser(source, dist, now)).value[i].filename == filenames[i]
  {
    LoadAllKeepsOrder(filenames, Parser(source, dist, now), i);
    ParseHikeKeepsName(filenames[i], source, dist, now);
  }

  /* ---------------------------------------------------------------------- */
  /* Newest first                                                            */
  /* ---------------------------------------------------------------------- */

  /** Puts h in front of the first hike that did not start later than it. */
  function InsertByStart(h: HikingStats, s: seq<HikingStats>): (r: seq<HikingStats>)
    ensures |r| == |s| + 1
  {
    if s == [] || s[0].startTime <= h.startTime then [h] + s
    else [s[0]] + InsertByStart(h, s[1..])
  }

  /** `.sort((a, b) => b.startTime.getTime() - a.startTime.getTime())` */
  function SortNewestFirst(s: seq<HikingStats>): (r: seq<HikingStats>)
    ensures |r| == |s|
  {
    if s == [] then [] else InsertByStart(s[0], SortNewestFirst(s[1..]))
  }

  predicate NewestFirst(s: seq<HikingStats>)
  {
    forall i :: 0 < i < |s| ==> s[i - 1].startTime >= s[i].startTime
  }

  lemma InsertByStartHead(h: HikingStats, s: seq<HikingStats>)
    ensures InsertByStart(h, s)[0] == if s == [] || s[0].startTime <= h.startTime then h else s[0]
  {
  }

  lemma {:induction false} InsertByStartPermutes(h: HikingStats, s: seq<HikingStats>)
    ensures multiset(InsertByStart(h, s)) == multiset(s) + multiset{h}
  {
    if s != [] && s[0].startTime > h.startTime {
      InsertByStartPermutes(h, s[1..]);
      assert s == [s[0]] + s[1..];
    }
  }

  lemma {:induction false} InsertByStartOrdered(h: HikingStats, s: seq<HikingStats>)
    requires NewestFirst(s)
    ensures NewestFirst(InsertByStart(h, s))
  {
    if s != [] && s[0].startTime > h.startTime {
      var r' := InsertByStart(h, s[1..]);
      assert NewestFirst(s[1..]) by {
        forall i | 0 < i < |s[1..]|
          ensures s[1..][i - 1].startTime >= s[1..][i].startTime
        {
          assert s[1..][i - 1] == s[i] && s[1..][i] == s[i + 1];
        }
      }
      InsertByStartOrdered(h, s[1..]);
      InsertByStartHead(h, s[1..]);
      var r := [s[0]] + r';
      forall i | 0 < i < |r|
        ensures r[i - 1].startTime >= r[i].startTime
      {
        if i > 1 {
          assert r[i - 1] == r'[i - 2] && r[i] == r'[i - 1];
        } else if |s| > 1 {
          assert s[0].startTime >= s[1].startTime;
        }
      }
    }
  }

  /** The hikes are reordered, none added, dropped or duplicated, newest first. */
  lemma {:induction false} SortNewestFirstFacts(s: seq<HikingStats>)
    ensures NewestFirst(SortNewestFirst(s))
    ensures multiset(SortNewestFirst(s)) == multiset(s)
    ensures |SortNewestFirst(s)| == |s|
  {
    if s != [] {
      SortNewestFirstFacts(s[1..]);
      InsertByStartOrdered(s[0], SortNewestFirst(s[1..]));
      InsertByStartPermutes(s[0], SortNewestFirst(s[1..]));
      assert s == [s[0]] + s[1..];
    }
  }

  /** The first hike of the sorted list started no earlier than any hike loaded. */
  lemma FirstIsNewest(s: seq<HikingStats>)
    requires |s| > 0
    ensures forall h :: h in s ==> SortNewestFirst(s)[0].startTime >= h.startTime
  {
    var r := SortNewestFirst(s);
    SortNewestFirstFacts(s);
    forall h | h in s
      ensures r[0].startTime >= h.startTime
    {
      assert h in multiset(r);
      var j :| 0 <= j < |r| && r[j] == h;
      var k := 0;
      while k < j
        invariant 0 <= k <= j
        invariant r[0].startTime >= r[k].startTime
      {
        k := k + 1;
      }
    }
  }

  /* ---------------------------------------------------------------------- */
  /* loadHikes                                                               */
  /* ---------------------------------------------------------------------- */

  /**
   * What the `try` block produces: None when the manifest response is not ok
   * (or unreadable) or any parse throws, otherwise the hikes newest first.
   */
  function LoadResult(manifest: Option<seq<string>>, source: GpxSource, dist: Distance, now: Clock): (r: Option<seq<HikingStats>>)
    ensures r.Some? ==> manifest.Some? && |r.value| == |manifest.value|
  {
    if manifest.None? then None
    else
      match LoadAll(manifest.value, Parser(source, dist, now))
      case None => None
      case Some(loaded) => Some(SortNewestFirst(loaded))
  }

  /**
   * A successful load holds one hike per manifest entry, in an order that is
   * a permutation of the parsed hikes with the newest first.
   */
  lemma LoadResultFacts(manifest: Option<seq<string>>, source: GpxSource, dist: Distance, now: Clock)
    ensures LoadResult(manifest, source, dist, now).Some? <==>
      manifest.Some? && EveryFileParses(manifest.value, Parser(source, dist, now))
    ensures LoadResult(manifest, source, dist, now).Some? ==>
      var hikes := LoadResult(manifest, source, dist, now).value;
      var loaded := LoadAll(manifest.value, Parser(source, dist, now)).value;
      NewestFirst(hikes) && multiset(hikes) == multiset(loaded) && |hikes| == |manifest.value|
  {
    if manifest.Some? {
      LoadAllIsAllOrNothing(manifest.value, Parser(source, dist, now));
    }
    if manifest.Some? && LoadAll(manifest.value, Parser(source, dist, now)).Some? {
      var loaded := LoadAll(manifest.value, Parser(source, dist, now)).value;
      SortNewestFirstFacts(loaded);
      if |manifest.value| > 0 {
        LoadAllKeepsOrder(manifest.value, Parser(source, dist, now), 0);
      } else {
        assert loaded == [];
      }
    }
  }

  /** The page component's state. */
  class HikesPage {
    var hikes: seq<HikingStats>
    var selectedHike: Option<HikingStats>
    var loading: bool

    /** The selection is always one of the listed hikes. */
    ghost predicate Valid()
      reads this
    {
      selectedHike.Some? ==> selectedHike.value in hikes
    }

    /** `useState([])`, `useState(null)`, `useState(true)` */
    constructor ()
      ensures hikes == [] && selectedHike == None && loading
      ensures Valid()
    {
      hikes, selectedHike, loading := [], None, true;
    }

    /**
     * `loadHikes()`: on success the hikes are replaced by the sorted list and
     * the first one is selected when there is one; on failure neither
     * changes; `loading` is false on both paths.
     */
    method LoadHikes(manifest: Option<seq<string>>, source: GpxSource, dist: Distance, now: Clock)
      requires Valid()
      requires selectedHike.None?
      modifies this
      ensures !loading
      ensures Valid()
      ensures LoadResult(manifest, source, dist, now).None? ==>
        hikes == old(hikes) && selectedHike == old(selectedHike)
      ensures LoadResult(manifest, source, dist, now).Some? ==>
        hikes == LoadResult(manifest, source, dist, now).value &&
        selectedHike == (if |hikes| > 0 then Some(hikes[0]) else old(selectedHike))
    {
      // try
      if manifest.Some? {
        var loadedHikes := LoadAll(manifest.value, Parser(source, dist, now));
        if loadedHikes.Some? {
          var sortedHikes := SortNewestFirst(loadedHikes.value);
          hikes := sortedHikes;
          if |sortedHikes| > 0 {
            selectedHike := Some(sortedHikes[0]);
          }
        }
      }
      // finally
      loading := false;
    }

    /** Clicking a hike in the list selects it. */
    method SelectHike(hike: HikingStats)
      requires Valid()
      requires hike in hikes
      modifies this`selectedHike
      ensures selectedHike == Some(hike)
      ensures Valid()
    {
      selectedHike := Some(hike);
    }
  }

  /**
   * The component mounting: initial state, then `loadHikes`. A failed load
   * leaves no hikes and no selection; a successful one selects the newest
   * hike when there is one.
   */
  method Mount(manifest: Option<seq<string>>, source: GpxSource, dist: Distance, now: Clock)
    returns (page: HikesPage)
    ensures fresh(page) && !page.loading && page.Valid()
    ensures LoadResult(manifest, source, dist, now).None? ==> page.hikes == [] && page.selectedHike == None
    ensures LoadResult(manifest, source, dist, now).Some? ==>
      page.hikes == LoadResult(manifest, source, dist, now).value &&
      page.selectedHike == (if page.hikes == [] then None else Some(page.hikes[0]))
  {
    page := new HikesPage();
    page.LoadHikes(manifest, source, dist, now);
  }

  /* ---------------------------------------------------------------------- */
  /* formatDuration                                                          */
  /* ---------------------------------------------------------------------- */

  datatype Locale = En | Zh

  const MsPerHour: int := 3600000
  const MsPerMinute: int := 60000

  /** JavaScript's `%`: the remainder takes the sign of the dividend. */
  function JsRem(a: int, b: int): (r: int)
    requires b > 0
    ensures a >= 0 ==> 0 <= r < b
    ensures a < 0 ==> -b < r <= 0
    ensures (a - r) % b == 0
  {
    TruncatedRemainders(a, b);
    if a >= 0 then a % b else -((-a) % b)
  }

  /** Taking away the remainder of a or of -a, in either direction, leaves a multiple of b. */
  lemma TruncatedRemainders(a: int, b: int)
    requires b > 0
    ensures (a - a % b) % b == 0
    ensures (a + (-a) % b) % b == 0
  {
    var q, q' := a / b, (-a) / b;
    assert a - a % b == q * b;
    MultipleRem(q, b);
    assert a + (-a) % b == (-q') * b;
    MultipleRem(-q', b);
  }

  /** A multiple of b leaves no remainder. */
  lemma MultipleRem(k: int, b: int)
    requires b > 0
    ensures (k * b) % b == 0
  {
    DivOfMultiplePlus(k, 0, b);
  }

  /** `Math.floor(ms / 3600000)` (Dafny's `/` by a positive divisor rounds down) */
  function Hours(ms: int): (r: int)
    ensures r * MsPerHour <= ms < (r + 1) * MsPerHour
  {
    ms / MsPerHour
  }

  /** `Math.floor((ms % 3600000) / 60000)` */
  function Minutes(ms: int): (r: int)
    ensures ms >= 0 ==> 0 <= r <= 59
    ensures ms < 0 ==> -60 <= r <= 0
  {
    JsRem(ms, MsPerHour) / MsPerMinute
  }

  /** For a non-negative duration the minutes are 0..59 and hours·60 + minutes is the whole minutes elapsed. */
  lemma HoursAndMinutes(ms: int)
    requires ms >= 0
    ensures 0 <= Minutes(ms) <= 59
    ensures Hours(ms) * 60 + Minutes(ms) == ms / MsPerMinute
  {
    var h, r := ms / MsPerHour, ms % MsPerHour;
    assert ms == h * MsPerHour + r;
    var m, s := r / MsPerMinute, r % MsPerMinute;
    assert r == m * MsPerMinute + s;
    assert ms == (h * 60 + m) * MsPerMinute + s;
    DivOfMultiplePlus(h * 60 + m, s, MsPerMinute);
  }

  lemma DivOfMultiplePlus(q: int, s: int, d: int)
    requires d > 0 && 0 <= s < d
    ensures (q * d + s) / d == q
  {
    var x := q * d + s;
    var q', s' := x / d, x % d;
    assert x == q' * d + s';
    assert (q' - q) * d == s - s';
    if q' > q {
      MulAtLeast(q' - q, d);
    } else if q' < q {
      MulAtLeast(q - q', d);
    }
  }

  lemma MulAtLeast(k: int, d: int)
    requires k >= 1 && d > 0
    ensures k * d >= d
  {
  }

  /** A negative duration (times out of order) shows as negative hours and minutes: -1 ms is -1 h -1 m. */
  lemma NegativeDurationScenario()
    ensures Hours(-1) == -1 && Minutes(-1) == -1
  {
  }

  function DigitChar(d: int): char
    requires 0 <= d < 10
  {
    "0123456789"[d]
  }

  /** Decimal digits of a natural number, as `${n}` prints it. */
  function NatToString(n: nat): (r: string)
    ensures |r| > 0
    ensures forall i :: 0 <= i < |r| ==> '0' <= r[i] <= '9'
    ensures r[0] == '0' <==> n == 0
    ensures |r| > 1 ==> r[0] != '0'
    decreases n
  {
    if n < 10 then [DigitChar(n)] else NatToString(n / 10) + [DigitChar(n % 10)]
  }

  /** `${n}` for an integer. */
  function IntToString(n: int): (r: string)
    ensures |r| > 0 && (r[0] == '-' <==> n < 0)
  {
    if n < 0 then "-" + NatToString(-n) else NatToString(n)
  }

  /** Reads a string of decimal digits back as a number. */
  function ParseDigits(s: string): int
    requires forall i :: 0 <= i < |s| ==> '0' <= s[i] <= '9'
  {
    if s == [] then 0 else ParseDigits(s[..|s| - 1]) * 10 + (s[|s| - 1] - '0') as int
  }

  /** Printing a number and reading it back gives the number. */
  lemma {:induction false} NatToStringRoundTrip(n: nat)
    ensures ParseDigits(NatToString(n)) == n
    decreases n
  {
    var r := NatToString(n);
    if n >= 10 {
      NatToStringRoundTrip(n / 10);
      assert r[..|r| - 1] == NatToString(n / 10);
    }
  }

  function HourSuffix(locale: Locale): string
  {
    if locale == Zh then "小时 " else "h "
  }

  function MinuteSuffix(locale: Locale): string
  {
    if locale == Zh then "分" else "m"
  }

  /** `formatDuration(ms)` */
  function FormatDuration(ms: int, locale: Locale): (r: string)
    ensures |r| > 0 && (r[0] == '-' <==> ms < 0)
  {
    IntToString(Hours(ms)) + HourSuffix(locale) + IntToString(Minutes(ms)) + MinuteSuffix(locale)
  }

  /**
   * A non-negative duration is shown as the digits of h, the hour suffix, the
   * digits of m and the minute suffix, where m is 0..59 and h·60 + m is the
   * whole minutes elapsed; both numbers read back from their digits. Chinese
   * uses 小时/分, every other locale h/m.
   */
  lemma FormatDurationShows(ms: int, locale: Locale)
    requires ms >= 0
    ensures exists h: nat, m: nat ::
      FormatDuration(ms, locale) == NatToString(h) + HourSuffix(locale) + NatToString(m) + MinuteSuffix(locale) &&
      m <= 59 && h * 60 + m == ms / MsPerMinute &&
      ParseDigits(NatToString(h)) == h && ParseDigits(NatToString(m)) == m
    ensures HourSuffix(locale) == (if locale == Zh then "小时 " else "h ")
    ensures MinuteSuffix(locale) == (if locale == Zh then "分" else "m")
  {
    HoursAndMinutes(ms);
    var h: nat, m: nat := Hours(ms), Minutes(ms);
    NatToStringRoundTrip(h);
    NatToStringRoundTrip(m);
    assert FormatDuration(ms, locale) == NatToString(h) + HourSuffix(locale) + NatToString(m) + MinuteSuffix(locale);
  }
}
