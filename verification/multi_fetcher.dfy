/**
 * `MultiFetcher`: the artwork source fallback chain. A user-selected source
 * is tried first; then MediaStore, embedded tags and the folder image in an
 * order and subset fixed by the settings; the remote fetcher last. The first
 * source that yields a stream ends the chain.
 *
 * Each fetcher is abstracted to what its `loadData` does for this artwork:
 * yield a stream, yield `null`, or throw. The settings, the user-selected
 * artwork entry and `ShuttleUtils.isOnline` enter as plain values.
 */
module MultiFetcher {
  import opened Wrappers
  import opened JavaLang

  /** The fetchers the chain can construct; `Folder` carries the file it was built with (`None` is `null`). */
  datatype Source = MediaStore | Folder(file: Option<string>) | Tag | Remote

  /** What a fetcher's `loadData` does. */
  datatype Attempt = Stream(id: nat) | NoData | Throws

  /**
   * `ArtworkProvider.Type` codes. ArtworkProvider.java is not part of this
   * model: the values are assumed, and only their being distinct matters.
   */
  const MEDIA_STORE: JInt := 0
  const TAG: JInt := 1
  const FOLDER: JInt := 2
  const REMOTE: JInt := 3

  /** An entry of the user-selected artwork map. */
  datatype UserSelectedArtwork = UserSelectedArtwork(artworkType: JInt, path: Option<string>)

  /** The `SettingsManager` flags the chain reads. */
  datatype Settings = Settings(
    ignoreMediaStoreArtwork: bool,
    preferEmbeddedArtwork: bool,
    ignoreEmbeddedArtwork: bool,
    ignoreFolderArtwork: bool,
    canDownloadArtworkAutomatically: bool)

  /** Everything `loadData` consults besides the settings. */
  datatype Context = Context(
    allowOfflineDownload: bool,
    isOnline: bool,
    userSelected: Option<UserSelectedArtwork>,
    outcome: Source -> Attempt)

  /** An observable step: a fetcher's `loadData`, `cleanup` or `cancel` was called. */
  datatype Event = Loaded(source: Source) | CleanedUp(source: Source) | Cancelled(source: Source)

  /**
   * The fetcher state after some steps: the stream found so far (`None` is
   * `null`), the fetcher the `dataFetcher` field holds, and the events so far.
   */
  datatype Chain = Chain(stream: Option<nat>, current: Option<Source>, events: seq<Event>)

  /** The NullPointerException that `new File(null)` raises for a folder entry without a path. */
  datatype NullPointerException = NullPointerException

  /**
   * The exception-swallowing `loadData(fetcher, priority)`: a throwing fetcher
   * is cleaned up and counts as `null`.
   */
  function Guarded(ctx: Context, source: Source): (r: (Option<nat>, seq<Event>))
    ensures r.0.Some? <==> ctx.outcome(source).Stream?
    ensures r.0.Some? ==> r.0.value == ctx.outcome(source).id
    ensures |r.1| > 0 && r.1[0] == Loaded(source)
    ensures |r.1| == 2 <==> ctx.outcome(source).Throws?
    ensures |r.1| == 2 ==> r.1[1] == CleanedUp(source)
    ensures |r.1| <= 2
  {
    match ctx.outcome(source)
    case Stream(id) => (Some(id), [Loaded(source)])
    case NoData => (None, [Loaded(source)])
    case Throws => (None, [Loaded(source), CleanedUp(source)])
  }

  /** `tryLoad`: remembers the fetcher in `dataFetcher`, then loads through it. */
  function TryLoad(ctx: Context, c: Chain, source: Source): Chain {
    var (stream, events) := Guarded(ctx, source);
    Chain(stream, Some(source), c.events + events)
  }

  /** The fetcher a user-selected entry asks for, `None` for an unknown type. */
  function UserSource(artwork: UserSelectedArtwork): Result<Option<Source>, NullPointerException> {
    if artwork.artworkType == MEDIA_STORE then Success(Some(MediaStore))
    else if artwork.artworkType == FOLDER then
      if artwork.path.None? then Failure(NullPointerException) else Success(Some(Folder(artwork.path)))
    else if artwork.artworkType == TAG then Success(Some(Tag))
    else if artwork.artworkType == REMOTE then Success(Some(Remote))
    else Success(None)
  }

  /** `loadUserSelectedArtwork`: tries the user's chosen source, if any. */
  function LoadUserSelected(ctx: Context, c: Chain): Result<Chain, NullPointerException> {
    match ctx.userSelected
    case None => Success(c)
    case Some(artwork) =>
      var source :- UserSource(artwork);
      match source
      case None => Success(c)
      case Some(src) => Success(TryLoad(ctx, c, src))
  }

  /** `loadEmbeddedFirst`: the tag fetcher, then the folder fetcher, each unless ignored. */
  function LoadEmbeddedFirst(settings: Settings, ctx: Context, c: Chain): Chain {
    var c1 := if !settings.ignoreEmbeddedArtwork then TryLoad(ctx, c, Tag) else c;
    if c1.stream.Some? then c1
    else if !settings.ignoreFolderArtwork then TryLoad(ctx, c1, Folder(None))
    else c1
  }

  /** `loadFolderFirst`: the folder fetcher, then the tag fetcher, each unless ignored. */
  function LoadFolderFirst(settings: Settings, ctx: Context, c: Chain): Chain {
    var c1 := if !settings.ignoreFolderArtwork then TryLoad(ctx, c, Folder(None)) else c;
    if c1.stream.Some? then c1
    else if !settings.ignoreEmbeddedArtwork then TryLoad(ctx, c1, Tag)
    else c1
  }

  /** Whether the remote fetcher may be asked at all. */
  predicate RemoteAllowed(settings: Settings, ctx: Context) {
    ctx.allowOfflineDownload || (settings.canDownloadArtworkAutomatically && ctx.isOnline)
  }

  /**
   * `loadData(priority)`: the whole chain, starting with `dataFetcher`
   * holding `previous`.
   */
  function LoadData(settings: Settings, ctx: Context, previous: Option<Source>): Result<Chain, NullPointerException> {
    var c0 :- LoadUserSelected(ctx, Chain(None, previous, []));
    var c1 := if c0.stream.None? && !settings.ignoreMediaStoreArtwork then TryLoad(ctx, c0, MediaStore) else c0;
    var c2 := if c1.stream.None? then
                (if settings.preferEmbeddedArtwork then LoadEmbeddedFirst(settings, ctx, c1)
                 else LoadFolderFirst(settings, ctx, c1))
              else c1;
    var c3 := if c2.stream.None? && RemoteAllowed(settings, ctx) then TryLoad(ctx, c2, Remote) else c2;
    Success(c3)
  }

  /** `cleanup`: forwards to the fetcher `dataFetcher` holds, if any. */
  function Cleanup(c: Chain): (r: Chain)
    ensures r.stream == c.stream && r.current == c.current
    ensures |c.events| <= |r.events| <= |c.events| + 1 && r.events[..|c.events|] == c.events
    ensures |r.events| > |c.events| <==> c.current.Some?
    ensures |r.events| > |c.events| ==> r.events[|c.events|] == CleanedUp(c.current.value)
  {
    match c.current
    case None => c
    case Some(f) => c.(events := c.events + [CleanedUp(f)])
  }

  /** `cancel`: forwards to the fetcher `dataFetcher` holds, if any. */
  function Cancel(c: Chain): (r: Chain)
    ensures r.stream == c.stream && r.current == c.current
    ensures |c.events| <= |r.events| <= |c.events| + 1 && r.events[..|c.events|] == c.events
    ensures |r.events| > |c.events| <==> c.current.Some?
    ensures |r.events| > |c.events| ==> r.events[|c.events|] == Cancelled(c.current.value)
  {
    match c.current
    case None => c
    case Some(f) => c.(events := c.events + [Cancelled(f)])
  }

  // ---------------------------------------------------------------------
  // The chain as a priority list
  // ---------------------------------------------------------------------

  /** The user's choice, tried first (a folder choice without a path cannot be built). */
  function UserSegment(ctx: Context): Result<seq<Source>, NullPointerException> {
    match ctx.userSelected
    case None => Success([])
    case Some(artwork) =>
      var source :- UserSource(artwork);
      Success(if source.Some? then [source.value] else [])
  }

  function MediaStoreSegment(settings: Settings): seq<Source> {
    if settings.ignoreMediaStoreArtwork then [] else [MediaStore]
  }

  /** The local sources in the order `preferEmbeddedArtwork` picks, ignored ones dropped. */
  function LocalSegment(settings: Settings): seq<Source> {
    var tag := if settings.ignoreEmbeddedArtwork then [] else [Tag];
    var folder := if settings.ignoreFolderArtwork then [] else [Folder(None)];
    if settings.preferEmbeddedArtwork then tag + folder else folder + tag
  }

  function RemoteSegment(settings: Settings, ctx: Context): seq<Source> {
    if RemoteAllowed(settings, ctx) then [Remote] else []
  }

  /** Every source the chain would try, in order, if each came back empty. */
  function Plan(settings: Settings, ctx: Context): Result<seq<Source>, NullPointerException> {
    var user :- UserSegment(ctx);
    Success(user + MediaStoreSegment(settings) + LocalSegment(settings) + RemoteSegment(settings, ctx))
  }

  /** The events of loading `source` through the exception-swallowing wrapper. */
  function EventsOf(ctx: Context, source: Source): seq<Event> {
    if ctx.outcome(source).Throws? then [Loaded(source), CleanedUp(source)] else [Loaded(source)]
  }

  /** The events of loading every source of `plan` in turn. */
  function AllEvents(ctx: Context, plan: seq<Source>): seq<Event> {
    if |plan| == 0 then [] else EventsOf(ctx, plan[0]) + AllEvents(ctx, plan[1..])
  }

  /**
   * The reference short-circuit: walk `plan` from the left, loading each
   * source, and stop at the first one that yields a stream.
   */
  function FirstHit(ctx: Context, plan: seq<Source>, c: Chain): (r: Chain)
    requires c.stream.None?
    decreases |plan|
  {
    if |plan| == 0 then c
    else
      var next := Chain(if ctx.outcome(plan[0]).Stream? then Some(ctx.outcome(plan[0]).id) else None,
                        Some(plan[0]), c.events + EventsOf(ctx, plan[0]));
      if next.stream.Some? then next else FirstHit(ctx, plan[1..], next)
  }

  /** Go on with `plan` only while nothing has been found. */
  function Continue(ctx: Context, plan: seq<Source>, c: Chain): Chain {
    if c.stream.Some? then c else FirstHit(ctx, plan, c)
  }

  /** Two plans walked one after the other are the concatenated plan. */
  lemma {:induction false} FirstHitAppend(ctx: Context, a: seq<Source>, b: seq<Source>, c: Chain)
    requires c.stream.None?
    ensures FirstHit(ctx, a + b, c) == Continue(ctx, b, FirstHit(ctx, a, c))
    decreases |a|
  {
    if |a| == 0 {
      assert a + b == b;
    } else {
      assert (a + b)[0] == a[0];
      assert (a + b)[1..] == a[1..] + b;
      var next := Chain(if ctx.outcome(a[0]).Stream? then Some(ctx.outcome(a[0]).id) else None,
                        Some(a[0]), c.events + EventsOf(ctx, a[0]));
      if next.stream.None? {
        FirstHitAppend(ctx, a[1..], b, next);
      }
    }
  }

  lemma FirstHitSingle(ctx: Context, s: Source, c: Chain)
    requires c.stream.None?
    ensures FirstHit(ctx, [s], c) == TryLoad(ctx, c, s)
  {
    assert [s][1..] == [];
  }

  /** The local fetchers tried in the preferred order are the local segment walked in order. */
  lemma LocalIsFirstHit(settings: Settings, ctx: Context, c: Chain)
    requires c.stream.None?
    ensures (if settings.preferEmbeddedArtwork then LoadEmbeddedFirst(settings, ctx, c) else LoadFolderFirst(settings, ctx, c))
            == FirstHit(ctx, LocalSegment(settings), c)
  {
    var tag: seq<Source> := if settings.ignoreEmbeddedArtwork then [] else [Tag];
    var folder: seq<Source> := if settings.ignoreFolderArtwork then [] else [Folder(None)];
    var first := if settings.preferEmbeddedArtwork then tag else folder;
    var second := if settings.preferEmbeddedArtwork then folder else tag;
    FirstHitAppend(ctx, first, second, c);
    if |first| == 1 { FirstHitSingle(ctx, first[0], c); }
    var c1 := FirstHit(ctx, first, c);
    if |second| == 1 && c1.stream.None? { FirstHitSingle(ctx, second[0], c1); }
  }

  /** A stage of one source, skipped when disabled or once a stream is found, is that source's segment walked. */
  lemma OptionalStepIsContinue(ctx: Context, enabled: bool, source: Source, c: Chain)
    ensures (if c.stream.None? && enabled then TryLoad(ctx, c, source) else c)
            == Continue(ctx, if enabled then [source] else [], c)
  {
    if c.stream.None? && enabled {
      FirstHitSingle(ctx, source, c);
    }
  }

  /** `loadUserSelectedArtwork` is the user segment walked, and fails only when the segment cannot be built. */
  lemma UserStageIsFirstHit(ctx: Context, c: Chain)
    requires c.stream.None?
    ensures LoadUserSelected(ctx, c).Success? <==> UserSegment(ctx).Success?
    ensures UserSegment(ctx).Success? ==> LoadUserSelected(ctx, c).value == FirstHit(ctx, UserSegment(ctx).value, c)
  {
    if UserSegment(ctx).Success? {
      var u := UserSegment(ctx).value;
      if |u| == 1 { FirstHitSingle(ctx, u[0], c); } else { assert u == []; }
    }
  }

  /**
   * `loadData(priority)` is the reference walk of `Plan`: it fails exactly
   * when the plan cannot be built, and otherwise loads the planned sources
   * left to right until the first stream, leaving `dataFetcher` on the last
   * one tried.
   */
  lemma LoadDataIsFirstHit(settings: Settings, ctx: Context, previous: Option<Source>)
    ensures LoadData(settings, ctx, previous).Failure? <==> Plan(settings, ctx).Failure?
    ensures Plan(settings, ctx).Success? ==>
              LoadData(settings, ctx, previous).value == FirstHit(ctx, Plan(settings, ctx).value, Chain(None, previous, []))
  {
    var init := Chain(None, previous, []);
    UserStageIsFirstHit(ctx, init);
    if UserSegment(ctx).Success? {
      var u := UserSegment(ctx).value;
      var m := MediaStoreSegment(settings);
      var l := LocalSegment(settings);
      var rm := RemoteSegment(settings, ctx);
      var c0 := LoadUserSelected(ctx, init).value;
      OptionalStepIsContinue(ctx, !settings.ignoreMediaStoreArtwork, MediaStore, c0);
      var c1 := Continue(ctx, m, c0);
      FirstHitAppend(ctx, u, m, init);
      if c1.stream.None? { LocalIsFirstHit(settings, ctx, c1); }
      var c2 := Continue(ctx, l, c1);
      FirstHitAppend(ctx, u + m, l, init);
      OptionalStepIsContinue(ctx, RemoteAllowed(settings, ctx), Remote, c2);
      FirstHitAppend(ctx, u + m + l, rm, init);
    }
  }

  /** The position of the first planned source that yields a stream, or `|plan|`. */
  function FirstStream(ctx: Context, plan: seq<Source>): (k: nat)
    ensures k <= |plan|
    ensures k < |plan| ==> ctx.outcome(plan[k]).Stream?
    ensures forall j :: 0 <= j < k ==> !ctx.outcome(plan[j]).Stream?
  {
    if |plan| == 0 then 0
    else if ctx.outcome(plan[0]).Stream? then 0
    else 1 + FirstStream(ctx, plan[1..])
  }

  /**
   * The walk stops at the first source that yields a stream: it returns that
   * stream, leaves `dataFetcher` on that source, and has loaded exactly the
   * sources up to it. When none yields, every source is loaded and
   * `dataFetcher` holds the last one.
   */
  lemma {:induction false} FirstHitResult(ctx: Context, plan: seq<Source>, c: Chain)
    requires c.stream.None?
    ensures var k := FirstStream(ctx, plan);
            var r := FirstHit(ctx, plan, c);
            && (k < |plan| ==> && r.stream == Some(ctx.outcome(plan[k]).id)
                               && r.current == Some(plan[k])
                               && r.events == c.events + AllEvents(ctx, plan[..k + 1]))
            && (k == |plan| ==> && r.stream.None?
                                && r.current == (if |plan| == 0 then c.current else Some(plan[|plan| - 1]))
                                && r.events == c.events + AllEvents(ctx, plan))
    decreases |plan|
  {
    if |plan| > 0 {
      var k := FirstStream(ctx, plan);
      assert AllEvents(ctx, [plan[0]]) == EventsOf(ctx, plan[0]);
      if k == 0 {
        assert plan[..1] == [plan[0]];
      } else {
        var next := Chain(None, Some(plan[0]), c.events + EventsOf(ctx, plan[0]));
        FirstHitResult(ctx, plan[1..], next);
        if k < |plan| {
          assert plan[..k + 1][1..] == plan[1..][..k];
        }
      }
    }
  }

  /** The sources with a `Loaded` event are exactly the planned ones. */
  lemma {:induction false} LoadedExactlyPlanned(ctx: Context, plan: seq<Source>, s: Source)
    ensures Loaded(s) in AllEvents(ctx, plan) <==> s in plan
    decreases |plan|
  {
    if |plan| > 0 {
      LoadedExactlyPlanned(ctx, plan[1..], s);
      assert plan == [plan[0]] + plan[1..];
    }
  }

  /**
   * What `loadData(priority)` yields: a stream exactly when some planned
   * source yields one, namely the first such source's; the events are those
   * of loading the plan up to and including that source (all of it when none
   * yields), each throwing fetcher cleaned up right after it threw.
   */
  lemma LoadDataOutcome(settings: Settings, ctx: Context, previous: Option<Source>)
    requires Plan(settings, ctx).Success?
    ensures var plan := Plan(settings, ctx).value;
            var k := FirstStream(ctx, plan);
            var r := LoadData(settings, ctx, previous);
            && r.Success?
            && (r.value.stream.Some? <==> exists j :: 0 <= j < |plan| && ctx.outcome(plan[j]).Stream?)
            && (k < |plan| ==> r.value.stream == Some(ctx.outcome(plan[k]).id) && r.value.events == AllEvents(ctx, plan[..k + 1]))
            && (k == |plan| ==> r.value.events == AllEvents(ctx, plan))
  {
    var plan := Plan(settings, ctx).value;
    LoadDataIsFirstHit(settings, ctx, previous);
    FirstHitResult(ctx, plan, Chain(None, previous, []));
  }

  /** A fetcher is only ever loaded if it is in the plan. */
  lemma LoadedOnlyIfPlanned(settings: Settings, ctx: Context, previous: Option<Source>, s: Source)
    requires Plan(settings, ctx).Success?
    requires Loaded(s) in LoadData(settings, ctx, previous).value.events
    ensures s in Plan(settings, ctx).value
  {
    var plan := Plan(settings, ctx).value;
    var k := FirstStream(ctx, plan);
    LoadDataOutcome(settings, ctx, previous);
    if k < |plan| {
      LoadedExactlyPlanned(ctx, plan[..k + 1], s);
      assert s in plan[..k + 1];
    } else {
      LoadedExactlyPlanned(ctx, plan, s);
    }
  }

  /**
   * `loadData(priority)` throws only when the user picked a folder image
   * without a path: every fetcher's own exception is swallowed.
   */
  lemma LoadDataFailsOnlyForPathlessFolder(settings: Settings, ctx: Context, previous: Option<Source>)
    ensures LoadData(settings, ctx, previous).Failure? <==>
              ctx.userSelected.Some? && ctx.userSelected.value.artworkType == FOLDER && ctx.userSelected.value.path.None?
  {
    LoadDataIsFirstHit(settings, ctx, previous);
  }

  /** With `ignoreMediaStoreArtwork`, MediaStore is only consulted when the user chose it. */
  lemma IgnoredMediaStoreNotLoaded(settings: Settings, ctx: Context, previous: Option<Source>)
    requires settings.ignoreMediaStoreArtwork
    requires ctx.userSelected.None? || ctx.userSelected.value.artworkType != MEDIA_STORE
    requires LoadData(settings, ctx, previous).Success?
    ensures Loaded(MediaStore) !in LoadData(settings, ctx, previous).value.events
  {
    LoadDataFailsOnlyForPathlessFolder(settings, ctx, previous);
    if Loaded(MediaStore) in LoadData(settings, ctx, previous).value.events {
      LoadedOnlyIfPlanned(settings, ctx, previous, MediaStore);
      assert false;
    }
  }

  /**
   * The remote fetcher runs only for an offline-download request, with
   * automatic downloads on while online, or when the user chose it.
   */
  lemma RemoteOnlyWhenAllowed(settings: Settings, ctx: Context, previous: Option<Source>)
    requires LoadData(settings, ctx, previous).Success?
    requires Loaded(Remote) in LoadData(settings, ctx, previous).value.events
    ensures ctx.allowOfflineDownload || (settings.canDownloadArtworkAutomatically && ctx.isOnline)
            || (ctx.userSelected.Some? && ctx.userSelected.value.artworkType == REMOTE)
  {
    LoadDataFailsOnlyForPathlessFolder(settings, ctx, previous);
    LoadedOnlyIfPlanned(settings, ctx, previous, Remote);
  }

  /** A user choice that yields a stream is the only fetcher loaded. */
  lemma UserSelectionWins(settings: Settings, ctx: Context, previous: Option<Source>)
    requires ctx.userSelected.Some? && UserSource(ctx.userSelected.value).Success?
    requires UserSource(ctx.userSelected.value).value.Some?
    requires ctx.outcome(UserSource(ctx.userSelected.value).value.value).Stream?
    ensures var src := UserSource(ctx.userSelected.value).value.value;
            LoadData(settings, ctx, previous) == Success(Chain(Some(ctx.outcome(src).id), Some(src), [Loaded(src)]))
  {
    var src := UserSource(ctx.userSelected.value).value.value;
    var init := Chain(None, previous, []);
    assert UserSource(ctx.userSelected.value) == Success(Some(src));
    assert Guarded(ctx, src) == (Some(ctx.outcome(src).id), [Loaded(src)]);
    assert TryLoad(ctx, init, src) == Chain(Some(ctx.outcome(src).id), Some(src), [Loaded(src)]);
    assert LoadUserSelected(ctx, init) == Success(Chain(Some(ctx.outcome(src).id), Some(src), [Loaded(src)]));
  }

  /**
   * With no user choice and nothing from MediaStore, the local source the
   * settings prefer is tried first; if it yields a stream, neither the other
   * local source nor the remote one is loaded.
   */
  lemma PreferredLocalSourceWins(settings: Settings, ctx: Context, previous: Option<Source>)
    requires ctx.userSelected.None?
    requires settings.ignoreMediaStoreArtwork || !ctx.outcome(MediaStore).Stream?
    requires settings.preferEmbeddedArtwork ==> !settings.ignoreEmbeddedArtwork && ctx.outcome(Tag).Stream?
    requires !settings.preferEmbeddedArtwork ==> !settings.ignoreFolderArtwork && ctx.outcome(Folder(None)).Stream?
    ensures var preferred := if settings.preferEmbeddedArtwork then Tag else Folder(None);
            var other := if settings.preferEmbeddedArtwork then Folder(None) else Tag;
            var r := LoadData(settings, ctx, previous);
            && r.Success?
            && r.value.stream == Some(ctx.outcome(preferred).id)
            && r.value.current == Some(preferred)
            && Loaded(preferred) in r.value.events
            && Loaded(other) !in r.value.events
            && Loaded(Remote) !in r.value.events
  {
    var r := LoadData(settings, ctx, previous).value;
    var pre := if settings.ignoreMediaStoreArtwork then [] else EventsOf(ctx, MediaStore);
    var preferred := if settings.preferEmbeddedArtwork then Tag else Folder(None);
    assert r.events == pre + [Loaded(preferred)];
  }

  // ---------------------------------------------------------------------
  // Cache key
  // ---------------------------------------------------------------------

  /** The text `String.valueOf(path.hashCode())` contributes; empty for a null path. */
  function PathHashText(path: Option<string>): (r: string)
    ensures path.None? <==> r == ""
    ensures '_' !in r
  {
    if path.None? then "" else LongToString(StringHashCode(path.value))
  }

  /** `getCustomArtworkSuffix`: `_<type>_<hash of path>` for a user choice, empty otherwise. */
  function CustomArtworkSuffix(selection: Option<UserSelectedArtwork>): (r: string)
    ensures selection.None? <==> r == ""
    ensures selection.Some? ==> |r| > 0 && r[0] == '_'
  {
    match selection
    case None => ""
    case Some(a) => "_" + LongToString(a.artworkType) + "_" + PathHashText(a.path)
  }

  /** `getId`: the artwork key followed by the user-choice suffix. */
  function GetId(key: string, selection: Option<UserSelectedArtwork>): (r: string)
    ensures StartsWith(r, key)
    ensures selection.None? <==> r == key
  {
    key + CustomArtworkSuffix(selection)
  }

  /** Two user choices share a cache key entry: same type and same path hash (null apart). */
  predicate SameCacheEntry(a: Option<UserSelectedArtwork>, b: Option<UserSelectedArtwork>) {
    (a.None? && b.None?)
    || (&& a.Some? && b.Some?
        && a.value.artworkType == b.value.artworkType
        && (a.value.path.None? <==> b.value.path.None?)
        && (a.value.path.Some? ==> StringHashCode(a.value.path.value) == StringHashCode(b.value.path.value)))
  }

  /** Two strings without `_` glued by one `_` split back apart. */
  lemma {:induction false} SplitAtUnderscore(t: string, h: string, t': string, h': string)
    requires '_' !in t && '_' !in t'
    requires t + "_" + h == t' + "_" + h'
    ensures t == t' && h == h'
  {
    var s := t + "_" + h;
    assert s[|t|] == '_';
    assert s[|t'|] == '_';
    assert |t| == |t'|;
    assert t == s[..|t|] == t';
    assert h == s[|t| + 1..] == h';
  }

  /** `Long.toString` never writes `_`. */
  lemma NoUnderscoreInNumber(n: int)
    ensures '_' !in LongToString(n)
  {
    var s := LongToString(n);
    forall k | 0 <= k < |s| ensures s[k] != '_' {
      if k > 0 { assert IsDigit(s[k]); }
    }
  }

  /** Distinct integers render differently. */
  lemma NumberTextInjective(a: JInt, b: JInt)
    requires LongToString(a) == LongToString(b)
    ensures a == b
  {
    ParseLongOfLongToString(a);
    ParseLongOfLongToString(b);
  }

  /** After its leading `_`, a suffix is the type and the path hash joined by `_`, the type holding none. */
  lemma SuffixParts(a: UserSelectedArtwork)
    ensures CustomArtworkSuffix(Some(a))[1..] == LongToString(a.artworkType) + "_" + PathHashText(a.path)
    ensures '_' !in LongToString(a.artworkType)
  {
    NoUnderscoreInNumber(a.artworkType);
  }

  /** Equal suffixes come from the same cache entry. */
  lemma SuffixDeterminesEntry(a: Option<UserSelectedArtwork>, b: Option<UserSelectedArtwork>)
    requires CustomArtworkSuffix(a) == CustomArtworkSuffix(b)
    ensures SameCacheEntry(a, b)
  {
    if a.Some? && b.Some? {
      SuffixParts(a.value);
      SuffixParts(b.value);
      SplitAtUnderscore(LongToString(a.value.artworkType), PathHashText(a.value.path),
                        LongToString(b.value.artworkType), PathHashText(b.value.path));
      NumberTextInjective(a.value.artworkType, b.value.artworkType);
      if a.value.path.Some? && b.value.path.Some? {
        NumberTextInjective(StringHashCode(a.value.path.value), StringHashCode(b.value.path.value));
      }
    }
  }

  /**
   * The ids of one artwork key agree exactly when the two user choices are
   * the same cache entry: the type is kept, and the path only through its
   * `hashCode`, with a null path distinct from every other.
   */
  lemma GetIdAgreesIffSameEntry(key: string, a: Option<UserSelectedArtwork>, b: Option<UserSelectedArtwork>)
    ensures GetId(key, a) == GetId(key, b) <==> SameCacheEntry(a, b)
  {
    if GetId(key, a) == GetId(key, b) {
      assert CustomArtworkSuffix(a) == GetId(key, a)[|key|..] == CustomArtworkSuffix(b);
      SuffixDeterminesEntry(a, b);
    }
  }

  /** Two different folder images whose paths share a `hashCode` get the same id. */
  lemma CollidingPathsShareId(key: string)
    ensures GetId(key, Some(UserSelectedArtwork(FOLDER, Some("Aa"))))
         == GetId(key, Some(UserSelectedArtwork(FOLDER, Some("BB"))))
  {
    assert "Aa"[..1] == "A" && "BB"[..1] == "B";
    assert HashPolynomial("A") == 65 && HashPolynomial("B") == 66;
    assert HashPolynomial("Aa") == 2112 == HashPolynomial("BB");
    Wrap32OfJInt(2112);
    GetIdAgreesIffSameEntry(key, Some(UserSelectedArtwork(FOLDER, Some("Aa"))), Some(UserSelectedArtwork(FOLDER, Some("BB"))));
  }
}
