/**
 * The background poller (src/background.rs): `get_media_info`, which turns an
 * MPRIS metadata query into a `MediaInfo`, and the loop started by
 * `BackgroundService::spawn`, which re-queries the media only every fifth
 * iteration, sends one `StatusUpdate` per iteration and stops for good when a
 * send fails.
 */
module Background {
  import opened Wrappers
  import opened Types

  // ---------------------------------------------------------------------------
  // get_media_info
  // ---------------------------------------------------------------------------

  /**
   * What the MPRIS calls answer when `get_media_info` runs: the D-Bus
   * connection cannot be opened, no player is active, the active player has no
   * metadata, or the metadata with its `xesam:title` and `xesam:albumArtist`
   * entries (each of which may be missing).
   */
  datatype MprisState =
    | BusUnavailable
    | NoActivePlayer
    | MetadataUnavailable
    | Metadata(title: Option<string>, albumArtists: Option<seq<string>>)

  const UnknownTitle: string := "Unknown"
  const Application: string := "Idk"
  const ArtistSeparator: string := ", "
  const MaxArtists: nat := 3

  /** Vec::truncate: the first `n` elements, or all of them when there are fewer. */
  function Truncate<T>(s: seq<T>, n: nat): (r: seq<T>)
    ensures |r| == if |s| <= n then |s| else n
    ensures r <= s
  {
    if |s| <= n then s else s[..n]
  }

  /** The total length of the names. */
  function TotalLength(names: seq<string>): (r: nat)
  {
    if |names| == 0 then 0 else |names[0]| + TotalLength(names[1..])
  }

  /** slice::join: the names with `sep` between each two neighbours. */
  function Join(names: seq<string>, sep: string): (r: string)
    ensures |names| >= 1 ==> names[0] <= r
    ensures |r| == TotalLength(names) + if |names| == 0 then 0 else (|names| - 1) * |sep|
  {
    if |names| == 0 then ""
    else if |names| == 1 then names[0]
    else names[0] + sep + Join(names[1..], sep)
  }

  /** The `author` field: absent without album artists, else the first three joined by ", ". */
  function Author(albumArtists: Option<seq<string>>): (r: Option<string>)
    ensures r.None? <==> albumArtists.None?
  {
    match albumArtists
    case None => None
    case Some(artists) => Some(Join(Truncate(artists, MaxArtists), ArtistSeparator))
  }

  /** `get_media_info`: each failing MPRIS call gives its own error message. */
  function GetMediaInfo(q: MprisState): (r: Result<MediaInfo, string>)
    ensures r.Ok? <==> q.Metadata?
    ensures q.BusUnavailable? ==> r == Err("Failed to open D-Bus connection")
    ensures q.NoActivePlayer? ==> r == Err("No players found")
    ensures q.MetadataUnavailable? ==> r == Err("Metadata not found")
    ensures r.Ok? ==> r.value.application == Application
    ensures r.Ok? && q.title.Some? ==> r.value.title == q.title.value
    ensures r.Ok? && q.title.None? ==> r.value.title == UnknownTitle
    ensures r.Ok? ==> (r.value.author.None? <==> q.albumArtists.None?)
  {
    match q
    case BusUnavailable => Err("Failed to open D-Bus connection")
    case NoActivePlayer => Err("No players found")
    case MetadataUnavailable => Err("Metadata not found")
    case Metadata(title, albumArtists) =>
      var info := MediaInfo(
        title := match title { case Some(t) => t case None => UnknownTitle },
        author := Author(albumArtists),
        application := Application);
      Ok(info)
  }

  /** `get_media_info().ok()`: what the loop caches. */
  function QueryMedia(q: MprisState): (r: Option<MediaInfo>)
    ensures r.None? <==> !q.Metadata?
  {
    GetMediaInfo(q).ToOption()
  }

  /**
   * The three failures are told apart by `get_media_info` but all become the
   * same `None` once `.ok()` drops the message.
   */
  lemma FailuresIndistinguishable(q1: MprisState, q2: MprisState)
    requires !q1.Metadata? && !q2.Metadata?
    ensures QueryMedia(q1) == QueryMedia(q2) == None
    ensures q1 != q2 ==> GetMediaInfo(q1) != GetMediaInfo(q2)
  {
  }

  /**
   * Join read from the left, as Rust's join builds its string: appending one
   * more name appends the separator and that name. This holds for any names,
   * commas or not, and with `Join([x], sep) == x` it fixes every character of
   * the result.
   */
  lemma {:induction false} JoinSnoc(names: seq<string>, last: string, sep: string)
    requires |names| >= 1
    ensures Join(names + [last], sep) == Join(names, sep) + sep + last
  {
    if |names| == 1 {
      assert (names + [last])[1..] == [last];
    } else {
      assert (names + [last])[1..] == names[1..] + [last];
      JoinSnoc(names[1..], last, sep);
    }
  }

  /** The examples the author field is meant to satisfy. */
  lemma AuthorExamples()
    ensures Author(Some(["A", "B", "C", "D"])) == Some("A, B, C")
    ensures Author(Some(["A", "B"])) == Some("A, B")
    ensures Author(Some([])) == Some("")
  {
    assert Truncate(["A", "B", "C", "D"], MaxArtists) == ["A", "B", "C"];
    assert ["A", "B", "C"][1..] == ["B", "C"] && ["B", "C"][1..] == ["C"];
    assert Join(["B", "C"], ArtistSeparator) == "B, C";
    assert Join(["A", "B", "C"], ArtistSeparator) == "A, B, C";
    assert Truncate(["A", "B"], MaxArtists) == ["A", "B"];
    assert ["A", "B"][1..] == ["B"];
    assert Join(["A", "B"], ArtistSeparator) == "A, B";
  }

  // ---- Splitting an author string back into names --------------------------

  predicate NoComma(name: string)
  {
    forall i :: 0 <= i < |name| ==> name[i] != ','
  }

  /** Cut a string at every ", ", left to right: the inverse of joining with ", ". */
  function Split(s: string): (r: seq<string>)
    ensures |r| >= 1
    decreases |s|
  {
    if |s| >= 2 && s[0] == ',' && s[1] == ' ' then [""] + Split(s[2..])
    else if s == [] then [""]
    else
      var rest := Split(s[1..]);
      [[s[0]] + rest[0]] + rest[1..]
  }

  /** A comma-free name in front of `t` becomes part of the first piece of `t`. */
  lemma {:induction false} SplitAfterName(name: string, t: string)
    requires NoComma(name)
    ensures Split(name + t) == [name + Split(t)[0]] + Split(t)[1..]
  {
    if name == [] {
      assert name + t == t;
      assert name + Split(t)[0] == Split(t)[0];
      assert Split(t) == [Split(t)[0]] + Split(t)[1..];
    } else {
      assert (name + t)[0] == name[0];
      assert (name + t)[1..] == name[1..] + t;
      SplitAfterName(name[1..], t);
      assert [name[0]] + (name[1..] + Split(t)[0]) == name + Split(t)[0];
    }
  }

  lemma SplitAfterSeparator(t: string)
    ensures Split(ArtistSeparator + t) == [""] + Split(t)
  {
    assert (ArtistSeparator + t)[2..] == t;
  }

  /** Joining comma-free names with ", " loses nothing: splitting gives them back. */
  lemma {:induction false} SplitJoin(names: seq<string>)
    requires |names| >= 1
    requires forall i :: 0 <= i < |names| ==> NoComma(names[i])
    ensures Split(Join(names, ArtistSeparator)) == names
  {
    if |names| == 1 {
      SplitAfterName(names[0], "");
      assert names[0] + "" == names[0];
    } else {
      var tail := Join(names[1..], ArtistSeparator);
      assert Join(names, ArtistSeparator) == names[0] + (ArtistSeparator + tail);
      SplitAfterName(names[0], ArtistSeparator + tail);
      SplitAfterSeparator(tail);
      SplitJoin(names[1..]);
      assert names[0] + "" == names[0];
      assert names == [names[0]] + names[1..];
    }
  }

  /**
   * The author string carries exactly the first min(3, n) album artists, in
   * order, whenever there is at least one and none contains a comma.
   */
  lemma AuthorNames(artists: seq<string>)
    requires |artists| >= 1
    requires forall i :: 0 <= i < |artists| ==> NoComma(artists[i])
    ensures Author(Some(artists)).Some?
    ensures Split(Author(Some(artists)).value) == artists[..if |artists| < MaxArtists then |artists| else MaxArtists]
  {
    var kept := Truncate(artists, MaxArtists);
    assert kept == artists[..if |artists| < MaxArtists then |artists| else MaxArtists];
    SplitJoin(kept);
  }

  /**
   * The value the loop caches for a player whose metadata lists comma-free
   * album artists: the author string names exactly the first min(3, n) of
   * them, in order, and the title and application follow the metadata.
   */
  lemma CachedAuthorNames(title: Option<string>, artists: seq<string>)
    requires |artists| >= 1
    requires forall i :: 0 <= i < |artists| ==> NoComma(artists[i])
    ensures QueryMedia(Metadata(title, Some(artists))).Some?
    ensures QueryMedia(Metadata(title, Some(artists))).value.author.Some?
    ensures Split(QueryMedia(Metadata(title, Some(artists))).value.author.value)
         == artists[..if |artists| < MaxArtists then |artists| else MaxArtists]
    ensures QueryMedia(Metadata(title, Some(artists))).value.title
         == if title.Some? then title.value else UnknownTitle
  {
    AuthorNames(artists);
  }

  /** Splitting at ", " loses nothing either: joining the pieces gives back any string. */
  lemma {:induction false} JoinSplit(s: string)
    ensures Join(Split(s), ArtistSeparator) == s
    decreases |s|
  {
    if |s| >= 2 && s[0] == ',' && s[1] == ' ' {
      var rest := Split(s[2..]);
      JoinSplit(s[2..]);
      assert ([""] + rest)[1..] == rest;
      assert s == ArtistSeparator + s[2..];
    } else if s == [] {
    } else {
      var rest := Split(s[1..]);
      JoinSplit(s[1..]);
      var pieces := [[s[0]] + rest[0]] + rest[1..];
      assert Split(s) == pieces;
      if |rest| == 1 {
        assert s == [s[0]] + s[1..];
      } else {
        assert pieces[1..] == rest[1..];
        assert s[1..] == rest[0] + ArtistSeparator + Join(rest[1..], ArtistSeparator);
        assert s == [s[0]] + s[1..];
      }
    }
  }

  // ---------------------------------------------------------------------------
  // BackgroundService::spawn
  // ---------------------------------------------------------------------------

  /**
   * What the environment does in one loop iteration: what the MPRIS query
   * would answer if it ran now, the value `Local::now()` returns, and whether
   * the blocking send succeeds.
   */
  datatype Tick = Tick(mpris: MprisState, now: Timestamp, sendOk: bool)

  /** The value of `media_mod` at the head of iteration `k` (counting from 0). */
  function CounterAtHead(k: nat): (c: int)
  {
    if k == 0 then 0 else (k - 1) % 5 + 1
  }

  /** The iteration whose query supplies the media sent in iteration `k`. */
  function LatestQueryAt(k: nat): (q: nat)
  {
    k - k % 5
  }

  /** The update iteration `k` sends: the clock read in that iteration and the media of the latest query. */
  function UpdateAt(ticks: seq<Tick>, k: nat): (u: StatusUpdate)
    requires k < |ticks|
  {
    StatusUpdate(ticks[k].now, QueryMedia(ticks[LatestQueryAt(k)].mpris))
  }

  /** The iterations among the first `n` in which the media is re-queried, in order. */
  function RefreshIterations(n: nat): (r: seq<nat>)
  {
    if n == 0 then []
    else RefreshIterations(n - 1) + (if (n - 1) % 5 == 0 then [n - 1] else [])
  }

  /** At the loop head the counter lies in 0..5 and is 0 only before the first iteration. */
  lemma CounterAtHeadRange(k: nat)
    ensures 0 <= CounterAtHead(k) <= 5
    ensures CounterAtHead(k) == 0 <==> k == 0
  {
  }

  /** The counter test `media_mod % 5 == 0` holds exactly on iterations 0, 5, 10, ... */
  lemma CounterRefreshes(k: nat)
    ensures CounterAtHead(k) % 5 == 0 <==> k % 5 == 0
  {
  }

  /** One iteration's "reset when divisible, then increment" takes the counter to the next head value, within 1..5. */
  lemma CounterStep(k: nat)
    ensures CounterAtHead(k + 1) == (if CounterAtHead(k) % 5 == 0 then 0 else CounterAtHead(k)) + 1
    ensures 1 <= CounterAtHead(k + 1) <= 5
  {
  }

  /** `LatestQueryAt(k)` is the last refresh iteration at or before `k`. */
  lemma LatestQueryIsMostRecent(k: nat)
    ensures LatestQueryAt(k) <= k && LatestQueryAt(k) % 5 == 0
    ensures forall j :: LatestQueryAt(k) < j <= k ==> j % 5 != 0
    ensures LatestQueryAt(k) in RefreshIterations(k + 1)
  {
    RefreshIterationsMembers(k + 1);
  }

  /** On an iteration that does not refresh, the cached media of the previous iteration is reused. */
  lemma CacheReused(ticks: seq<Tick>, k: nat)
    requires k < |ticks| && k % 5 != 0
    ensures k > 0 && LatestQueryAt(k) == LatestQueryAt(k - 1)
    ensures UpdateAt(ticks, k).media == UpdateAt(ticks, k - 1).media
  {
  }

  /**
   * The refresh iterations below `n` are exactly the multiples of 5 below `n`,
   * strictly increasing, ceil(n/5) of them: the i-th is iteration 5 * i.
   */
  lemma {:induction false} RefreshIterationsMembers(n: nat)
    ensures forall k: nat :: k in RefreshIterations(n) <==> k < n && k % 5 == 0
    ensures forall i, j :: 0 <= i < j < |RefreshIterations(n)| ==> RefreshIterations(n)[i] < RefreshIterations(n)[j]
    ensures |RefreshIterations(n)| == (n + 4) / 5
    ensures forall i :: 0 <= i < |RefreshIterations(n)| ==> RefreshIterations(n)[i] == 5 * i
  {
    if n > 0 {
      RefreshIterationsMembers(n - 1);
      var prev := RefreshIterations(n - 1);
      var added: seq<nat> := if (n - 1) % 5 == 0 then [n - 1] else [];
      assert RefreshIterations(n) == prev + added;
      forall k: nat
        ensures k in RefreshIterations(n) <==> k < n && k % 5 == 0
      {
        assert k in prev + added <==> k in prev || k in added;
      }
      forall i | 0 <= i < |RefreshIterations(n)|
        ensures RefreshIterations(n)[i] == 5 * i
      {
        if i >= |prev| {
          assert i == |prev| == (n - 1) / 5;
        }
      }
      forall i, j | 0 <= i < j < |RefreshIterations(n)|
        ensures RefreshIterations(n)[i] < RefreshIterations(n)[j]
      {
        if j >= |prev| {
          assert prev[i] in prev;
        }
      }
    }
  }

  /**
   * The queries `Spawn` reports over `n` iterations are exactly the refresh
   * iterations: so the media is queried on iteration k exactly when k is a
   * multiple of 5.
   */
  lemma QueriesAreRefreshIterations(queriedAt: seq<nat>, n: nat)
    requires |queriedAt| == (n + 4) / 5
    requires forall i :: 0 <= i < |queriedAt| ==> queriedAt[i] == 5 * i
    ensures queriedAt == RefreshIterations(n)
    ensures forall k: nat :: k in queriedAt <==> k < n && k % 5 == 0
  {
    RefreshIterationsMembers(n);
  }

  /**
   * The loop of `BackgroundService::spawn`, run against the environment
   * `ticks` (one entry per iteration the loop is observed for). `initial` is
   * what the query made before the loop answers. Returns the updates the
   * receiver gets, the iterations in which the media was queried, and whether
   * the loop returned because a send failed.
   */
  method Spawn(initial: MprisState, ticks: seq<Tick>)
    returns (delivered: seq<StatusUpdate>, queriedAt: seq<nat>, stopped: bool)
    ensures |delivered| <= |ticks|
    ensures forall k :: 0 <= k < |delivered| ==> ticks[k].sendOk
    ensures stopped <==> exists j :: 0 <= j < |ticks| && !ticks[j].sendOk
    ensures stopped ==> |delivered| < |ticks| && !ticks[|delivered|].sendOk
    ensures !stopped ==> |delivered| == |ticks|
    ensures forall k :: 0 <= k < |delivered| ==> delivered[k] == UpdateAt(ticks, k)
    ensures |queriedAt| == (|delivered| + (if stopped then 1 else 0) + 4) / 5
    ensures forall i :: 0 <= i < |queriedAt| ==> queriedAt[i] == 5 * i
  {
    var mediaInfo := QueryMedia(initial);
    var mediaMod := 0;
    delivered, queriedAt, stopped := [], [], false;
    var k := 0;
    while k < |ticks|
      invariant k <= |ticks|
      invariant |delivered| == k
      invariant mediaMod == CounterAtHead(k)
      invariant k > 0 ==> mediaInfo == QueryMedia(ticks[LatestQueryAt(k - 1)].mpris)
      invariant forall j :: 0 <= j < k ==> ticks[j].sendOk
      invariant forall j :: 0 <= j < k ==> delivered[j] == UpdateAt(ticks, j)
      invariant |queriedAt| == (k + 4) / 5
      invariant forall i :: 0 <= i < |queriedAt| ==> queriedAt[i] == 5 * i
    {
      CounterRefreshes(k);
      CounterStep(k);
      if mediaMod % 5 == 0 {
        mediaInfo := QueryMedia(ticks[k].mpris);
        mediaMod := 0;
        queriedAt := queriedAt + [k];
      } else {
        CacheReused(ticks, k);
      }
      mediaMod := mediaMod + 1;

      var update := StatusUpdate(ticks[k].now, mediaInfo);
      assert update == UpdateAt(ticks, k);
      if ticks[k].sendOk {
        delivered := delivered + [update];
        k := k + 1;
      } else {
        stopped := true;
        return;
      }
    }
  }
}
