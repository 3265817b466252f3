/** The hook around the host's `InternalLoadAdjacentPartnerEvents` in
    src/PartnerEventStorePatch.tsx: for the SteamOS app it fills a
    process-wide release cache until it holds a release, projects each cached release into a clan
    event, inserts the events the host does not know yet, and answers with
    the host's entries for the cached releases. */
module PartnerEventStorePatch {
  import opened Releases
  import Decimal

  const SteamOSAppId: int := 1675200
  const SteamClanSteamId: string := "103582791470414830"
  const SteamClanId: string := "40893422"
  /** `SteamEventType.Update`. */
  const UpdateEventType: int := 13

  datatype Channel = StableChannel | BetaChannel
  {
    /** The tag the channel contributes to an announcement. */
    function Tag(): string
    {
      match this
      case StableChannel => "stablechannel"
      case BetaChannel => "betachannel"
    }
  }

  /** Whether the request's `require_tags` contains `tag`; `None` stands for a
      missing tag hint or a missing tag list. */
  predicate HasTag(requireTags: Option<seq<string>>, tag: string)
  {
    requireTags.Some? && tag in requireTags.value
  }

  datatype Decision = Decision(selection: Selection, channel: Channel)

  /** The filter and channel chosen from the request's tags, "stablechannel"
      taking precedence over "betachannel" and "previewchannel". */
  function ChooseChannel(requireTags: Option<seq<string>>): Decision
  {
    if HasTag(requireTags, "stablechannel") then Decision(OnlyFullReleases, StableChannel)
    else if HasTag(requireTags, "betachannel") || HasTag(requireTags, "previewchannel")
    then Decision(OnlyPrereleases, BetaChannel)
    else Decision(KeepAll, StableChannel)
  }

  /** The module-level `releases` and `channel`; `channel` is `None` until it
      is first assigned. */
  datatype CacheState = CacheState(releases: seq<Release>, channel: Option<Channel>)

  /** What the exclusive section leaves in the cache: a non-empty cache is
      kept, and so is the cache after a failed or empty fetch; otherwise the
      fetched page, sorted newest first and filtered, with its channel. */
  function Refreshed(st: CacheState, requireTags: Option<seq<string>>, response: Option<seq<Release>>): CacheState
  {
    if st.releases != [] || FailedOrEmpty(response) then st
    else
      var d := ChooseChannel(requireTags);
      CacheState(Select(d.selection, SortByNewest(response.value)), Some(d.channel))
  }

  /** The cache invariant: newest first, a channel whenever there are
      releases, and only prereleases under the beta channel. */
  predicate GoodCache(st: CacheState)
  {
    && NewestFirst(st.releases)
    && (st.releases != [] ==> st.channel.Some?)
    && (st.channel == Some(BetaChannel) ==> forall r :: r in st.releases ==> r.prerelease)
  }

  /** Filling the empty cache from a non-empty page: the chosen channel, and
      the page sorted newest first and then filtered, which by stability is
      the filtered page sorted newest first; each release the filter keeps is
      there as often as in the page, and no other release is. */
  lemma RefreshedFill(requireTags: Option<seq<string>>, page: seq<Release>)
    requires page != []
    ensures var st := Refreshed(CacheState([], None), requireTags, Some(page));
      var d := ChooseChannel(requireTags);
      && st.channel == Some(d.channel)
      && NewestFirst(st.releases)
      && st.releases == SortByNewest(Select(d.selection, page))
      && forall r :: multiset(st.releases)[r] == if Keeps(d.selection, r) then multiset(page)[r] else 0
  {
    var sel := ChooseChannel(requireTags).selection;
    SortedSelection(sel, page);
    SelectSortCommute(sel, page);
  }

  /** Decision table, first row: a "stablechannel" tag wins over any other
      tag and keeps exactly the full releases, on the stable channel. */
  lemma StableTagKeepsFullReleases(requireTags: Option<seq<string>>, page: seq<Release>)
    requires page != [] && HasTag(requireTags, "stablechannel")
    ensures var st := Refreshed(CacheState([], None), requireTags, Some(page));
      && st.channel == Some(StableChannel)
      && forall r :: multiset(st.releases)[r] == if r.prerelease then 0 else multiset(page)[r]
  {
    RefreshedFill(requireTags, page);
  }

  /** Second row: otherwise a "betachannel" or "previewchannel" tag keeps
      exactly the prereleases, on the beta channel. */
  lemma BetaTagKeepsPrereleases(requireTags: Option<seq<string>>, page: seq<Release>)
    requires page != [] && !HasTag(requireTags, "stablechannel")
    requires HasTag(requireTags, "betachannel") || HasTag(requireTags, "previewchannel")
    ensures var st := Refreshed(CacheState([], None), requireTags, Some(page));
      && st.channel == Some(BetaChannel)
      && forall r :: multiset(st.releases)[r] == if r.prerelease then multiset(page)[r] else 0
  {
    RefreshedFill(requireTags, page);
  }

  /** Last row: without any of the three tags every release is kept, newest
      first, on the stable channel. */
  lemma NoTagKeepsAll(requireTags: Option<seq<string>>, page: seq<Release>)
    requires page != [] && !HasTag(requireTags, "stablechannel")
    requires !HasTag(requireTags, "betachannel") && !HasTag(requireTags, "previewchannel")
    ensures var st := Refreshed(CacheState([], None), requireTags, Some(page));
      && st.channel == Some(StableChannel)
      && st.releases == SortByNewest(page)
  {
    SelectAll(SortByNewest(page));
  }

  /** A fill whose filter keeps nothing (say, a "stablechannel" request
      on a page of prereleases only) sets the channel but leaves the cache
      empty. The next call with a non-empty page then fetches and fills
      again, choosing the filter and channel from its own tags. */
  lemma EmptyFillRefetches(
      st: CacheState, requireTags: Option<seq<string>>, page: seq<Release>,
      nextTags: Option<seq<string>>, nextPage: seq<Release>)
    requires st.releases == [] && page != [] && nextPage != []
    requires forall r :: r in page ==> !Keeps(ChooseChannel(requireTags).selection, r)
    ensures var filled := Refreshed(st, requireTags, Some(page));
      && filled.releases == []
      && filled.channel == Some(ChooseChannel(requireTags).channel)
      && Refreshed(filled, nextTags, Some(nextPage))
         == Refreshed(CacheState([], None), nextTags, Some(nextPage))
  {
    var sel := ChooseChannel(requireTags).selection;
    var kept := Select(sel, SortByNewest(page));
    SortedSelection(sel, page);
    forall r ensures multiset(kept)[r] == 0 {
      if Keeps(sel, r) {
        assert r !in page;
      }
    }
    assert multiset(kept) == multiset{};
  }

  /** The exclusive section keeps the cache invariant. */
  lemma RefreshedGood(st: CacheState, requireTags: Option<seq<string>>, response: Option<seq<Release>>)
    requires GoodCache(st)
    ensures GoodCache(Refreshed(st, requireTags, response))
  {
    if st.releases == [] && !FailedOrEmpty(response) {
      var sel := ChooseChannel(requireTags).selection;
      SortedSelection(sel, response.value);
    }
  }

  /** The cache state after a sequence of calls, each with its own tags and
      fetch outcome. */
  function Replay(st: CacheState, calls: seq<(Option<seq<string>>, Option<seq<Release>>)>): CacheState
  {
    if calls == [] then st
    else
      var (tags, response) := calls[|calls| - 1];
      Refreshed(Replay(st, calls[..|calls| - 1]), tags, response)
  }

  /** As soon as a call leaves the cache non-empty, every later
      call leaves releases and channel as they are, whatever its tags and
      whatever the network would answer. */
  lemma {:induction false} FilledCacheIsFinal(
      st: CacheState, calls: seq<(Option<seq<string>>, Option<seq<Release>>)>, k: nat)
    requires k <= |calls|
    requires Replay(st, calls[..k]).releases != []
    ensures Replay(st, calls) == Replay(st, calls[..k])
  {
    if k < |calls| {
      assert calls[..|calls| - 1][..k] == calls[..k];
      FilledCacheIsFinal(st, calls[..|calls| - 1], k);
    } else {
      assert calls[..k] == calls;
    }
  }

  /** A release timestamp in whole seconds, `Math.floor(ms / 1000)`. */
  function EpochSeconds(ms: int): (secs: int)
    ensures secs * 1000 <= ms < secs * 1000 + 1000
  {
    ms / 1000
  }

  datatype Announcement = Announcement(
    gid: string, clanId: string, headline: string, postTime: int, updateTime: int,
    body: string, tags: seq<string>)

  /** The clan event record handed to the host, with the fields that depend
      on the release; the remaining constant fields are not modelled. */
  datatype ClanEvent = ClanEvent(
    gid: string, clanSteamId: string, eventName: string, eventType: int, appId: int,
    startTime: int, endTime: int, lastModified: int, announcement: Announcement)

  /** `String(release.id)`. */
  function Gid(r: Release): string
  {
    Decimal.DecimalString(r.id)
  }

  /** The event for one release. `toBBCode` stands for the markdown to HTML
      to BBCode pipeline applied to the release notes. */
  function ToEvent(r: Release, channel: Channel, toBBCode: string -> string): ClanEvent
  {
    var t := EpochSeconds(r.createdAt);
    ClanEvent(Gid(r), SteamClanSteamId, r.name, UpdateEventType, SteamOSAppId, t, t, t,
      Announcement(Gid(r), SteamClanId, "Bazzite " + r.name, t, t, toBBCode(r.body),
        ["patchnotes", channel.Tag()]))
  }

  /** The projected fields: the gid and the announcement's gid read back as
      the release id, one time stamp in seconds for start, end, post, update
      and last modification, the headline and the two tags. */
  lemma ToEventFields(r: Release, channel: Channel, toBBCode: string -> string)
    ensures var e := ToEvent(r, channel, toBBCode);
      && Decimal.IsDigits(e.gid) && Decimal.ParseDecimal(e.gid) == r.id
      && e.announcement.gid == e.gid
      && e.startTime == e.endTime == e.lastModified
      && e.announcement.postTime == e.announcement.updateTime == e.startTime
      && e.startTime * 1000 <= r.createdAt < e.startTime * 1000 + 1000
      && e.eventType == UpdateEventType && e.appId == SteamOSAppId
      && e.announcement.headline == "Bazzite " + r.name
      && e.announcement.tags == ["patchnotes", channel.Tag()]
  {
    Decimal.ParseDecimalString(r.id);
  }

  function ToEvents(rs: seq<Release>, channel: Channel, toBBCode: string -> string): (es: seq<ClanEvent>)
    ensures |es| == |rs|
  {
    seq(|rs|, i requires 0 <= i < |rs| => ToEvent(rs[i], channel, toBBCode))
  }

  /** The host inserts an event only when no event with its gid is known. */
  function AddIfAbsent(m: map<string, ClanEvent>, e: ClanEvent): map<string, ClanEvent>
  {
    if e.gid in m then m else m[e.gid := e]
  }

  /** The known-events map after offering `es` in order. */
  function InsertAbsent(m: map<string, ClanEvent>, es: seq<ClanEvent>): map<string, ClanEvent>
  {
    if es == [] then m else AddIfAbsent(InsertAbsent(m, es[..|es| - 1]), es[|es| - 1])
  }

  /** Offering events never replaces a known event. */
  lemma {:induction false} InsertAbsentKeeps(m: map<string, ClanEvent>, es: seq<ClanEvent>)
    ensures forall k :: k in m ==> k in InsertAbsent(m, es) && InsertAbsent(m, es)[k] == m[k]
  {
    if es != [] {
      InsertAbsentKeeps(m, es[..|es| - 1]);
    }
  }

  /** Offering events adds their gids as keys and no other key. */
  lemma {:induction false} InsertAbsentKeys(m: map<string, ClanEvent>, es: seq<ClanEvent>)
    ensures forall i :: 0 <= i < |es| ==> es[i].gid in InsertAbsent(m, es)
    ensures forall k :: k in InsertAbsent(m, es) && k !in m ==>
              exists i :: 0 <= i < |es| && es[i].gid == k
  {
    if es != [] {
      var init := es[..|es| - 1];
      InsertAbsentKeys(m, init);
      forall k | k in InsertAbsent(m, es) && k !in m
        ensures exists i :: 0 <= i < |es| && es[i].gid == k
      {
        if k in InsertAbsent(m, init) {
          var i :| 0 <= i < |init| && init[i].gid == k;
          assert es[i] == init[i];
        } else {
          assert es[|es| - 1].gid == k;
        }
      }
      forall i | 0 <= i < |es| ensures es[i].gid in InsertAbsent(m, es) {
        if i < |es| - 1 {
          assert es[i] == init[i];
        }
      }
    }
  }

  /** A gid the map did not know maps to the first event offered with it. */
  lemma {:induction false} InsertAbsentFirst(m: map<string, ClanEvent>, es: seq<ClanEvent>, i: nat)
    requires i < |es| && es[i].gid !in m
    requires forall j :: 0 <= j < i ==> es[j].gid != es[i].gid
    ensures es[i].gid in InsertAbsent(m, es) && InsertAbsent(m, es)[es[i].gid] == es[i]
  {
    var init := es[..|es| - 1];
    if i < |es| - 1 {
      assert es[i] == init[i];
      InsertAbsentFirst(m, init, i);
    } else {
      InsertAbsentKeys(m, init);
      assert forall j :: 0 <= j < |init| ==> init[j].gid != es[i].gid;
    }
  }

  /** Projecting one more release offers one more event. */
  lemma InsertAbsentStep(
      m: map<string, ClanEvent>, rs: seq<Release>, i: nat, channel: Channel, toBBCode: string -> string)
    requires i < |rs|
    ensures InsertAbsent(m, ToEvents(rs[..i + 1], channel, toBBCode))
         == AddIfAbsent(InsertAbsent(m, ToEvents(rs[..i], channel, toBBCode)), ToEvent(rs[i], channel, toBBCode))
  {
    var es := ToEvents(rs[..i + 1], channel, toBBCode);
    assert es[..i] == ToEvents(rs[..i], channel, toBBCode);
  }

  /** The host's entries for the given releases, in the releases' order. */
  function Entries(m: map<string, ClanEvent>, rs: seq<Release>): (es: seq<ClanEvent>)
    requires forall r :: r in rs ==> Gid(r) in m
    ensures |es| == |rs|
  {
    seq(|rs|, i requires 0 <= i < |rs| => m[Gid(rs[i])])
  }

  /** Adding an event for the next release leaves the earlier entries as
      they were and appends the entry for its gid. */
  lemma EntriesStep(m: map<string, ClanEvent>, e: ClanEvent, rs: seq<Release>, i: nat)
    requires i < |rs| && e.gid == Gid(rs[i])
    requires forall r :: r in rs[..i] ==> Gid(r) in m
    ensures forall r :: r in rs[..i + 1] ==> Gid(r) in AddIfAbsent(m, e)
    ensures Entries(AddIfAbsent(m, e), rs[..i + 1])
         == Entries(m, rs[..i]) + [AddIfAbsent(m, e)[Gid(rs[i])]]
  {
    assert rs[..i + 1] == rs[..i] + [rs[i]];
    forall j | 0 <= j < i ensures Gid(rs[j]) in m {
      assert rs[j] in rs[..i];
    }
  }

  /** Releases with distinct ids that the host does not know yet come back as
      exactly their projected events, in order. */
  lemma FreshReleasesComeBack(
      m: map<string, ClanEvent>, rs: seq<Release>, channel: Channel, toBBCode: string -> string)
    requires forall i, j :: 0 <= i < j < |rs| ==> rs[i].id != rs[j].id
    requires forall r :: r in rs ==> Gid(r) !in m
    ensures var m' := InsertAbsent(m, ToEvents(rs, channel, toBBCode));
      (forall r :: r in rs ==> Gid(r) in m')
      && Entries(m', rs) == ToEvents(rs, channel, toBBCode)
  {
    var es := ToEvents(rs, channel, toBBCode);
    InsertAbsentKeys(m, es);
    var m' := InsertAbsent(m, es);
    forall r | r in rs ensures Gid(r) in m' {
      var i :| 0 <= i < |rs| && rs[i] == r;
      assert es[i].gid == Gid(r);
    }
    forall i | 0 <= i < |rs| ensures m'[Gid(rs[i])] == es[i] {
      assert rs[i] in rs;
      forall j | 0 <= j < i ensures es[j].gid != es[i].gid {
        Decimal.DecimalStringInjective(rs[j].id, rs[i].id);
      }
      InsertAbsentFirst(m, es, i);
    }
  }

  /** A JavaScript array of events, which the hook empties and refills in
      place. */
  class EventArray {
    var elems: seq<ClanEvent>

    constructor (elems: seq<ClanEvent>)
      ensures this.elems == elems
    {
      this.elems := elems;
    }
  }

  /** The value the original method returned, once awaited. */
  datatype HostValue = Events(arr: EventArray) | NotAnArray
  {
    function Arrays(): set<object>
    {
      if Events? then {arr} else {}
    }
  }

  /** The part of the host's event store the hook uses: its map of known
      events by gid. */
  class PartnerEventStore {
    var existingEvents: map<string, ClanEvent>

    constructor (existingEvents: map<string, ClanEvent>)
      ensures this.existingEvents == existingEvents
    {
      this.existingEvents := existingEvents;
    }
  }

  /** The module-level `releases` and `channel`, shared by all calls. */
  class ReleaseCache {
    var releases: seq<Release>
    var channel: Option<Channel>
    /** How many times the releases list has been requested. */
    ghost var Fetches: nat

    function State(): CacheState
      reads this
    {
      CacheState(releases, channel)
    }

    ghost predicate Valid()
      reads this
    {
      GoodCache(State())
    }

    constructor ()
      ensures Valid() && State() == CacheState([], None) && Fetches == 0
    {
      releases := [];
      channel := None;
      Fetches := 0;
    }

    /** The body of the exclusive section: fetch and fill only while the
        cache is empty. `response` is what the single request answered. */
    method FillIfEmpty(requireTags: Option<seq<string>>, response: Option<seq<Release>>)
      requires Valid()
      modifies this
      ensures Valid()
      ensures State() == Refreshed(old(State()), requireTags, response)
      ensures Fetches == old(Fetches) + (if old(releases) == [] then 1 else 0)
    {
      RefreshedGood(State(), requireTags, response);
      if releases != [] {
        return;
      }
      Fetches := Fetches + 1;
      if response.None? {
        return;
      }
      var page := response.value;
      if |page| == 0 {
        return;
      }
      var sorted := SortByNewest(page);
      if HasTag(requireTags, "stablechannel") {
        releases := Select(OnlyFullReleases, sorted);
        channel := Some(StableChannel);
      } else if HasTag(requireTags, "betachannel") || HasTag(requireTags, "previewchannel") {
        releases := Select(OnlyPrereleases, sorted);
        channel := Some(BetaChannel);
      } else {
        releases := sorted;
        channel := Some(StableChannel);
        SelectAll(sorted);
      }
    }
  }

  /** The `for` loop over the cached releases: offer each release's event
      to the host, which keeps an event it already knows, and push the
      host's entry for the release's gid onto the emptied array. */
  method PublishEvents(
      store: PartnerEventStore, arr: EventArray, releases: seq<Release>, channel: Channel,
      toBBCode: string -> string)
    requires arr.elems == []
    modifies store, arr
    ensures store.existingEvents == InsertAbsent(old(store.existingEvents), ToEvents(releases, channel, toBBCode))
    ensures forall r :: r in releases ==> Gid(r) in store.existingEvents
    ensures arr.elems == Entries(store.existingEvents, releases)
  {
    ghost var known := store.existingEvents;
    for i := 0 to |releases|
      invariant store.existingEvents == InsertAbsent(known, ToEvents(releases[..i], channel, toBBCode))
      invariant forall r :: r in releases[..i] ==> Gid(r) in store.existingEvents
      invariant arr.elems == Entries(store.existingEvents, releases[..i])
    {
      var event := ToEvent(releases[i], channel, toBBCode);
      ghost var before := store.existingEvents;
      if event.gid !in store.existingEvents {
        store.existingEvents := store.existingEvents[event.gid := event];
      }
      arr.elems := arr.elems + [store.existingEvents[event.gid]];
      InsertAbsentStep(known, releases, i, channel, toBBCode);
      EntriesStep(before, event, releases, i);
    }
    assert releases[..|releases|] == releases;
  }

  /** The patched `InternalLoadAdjacentPartnerEvents` once the original has
      returned `ret`. Other apps and non-array results pass through untouched.
      Otherwise the array is emptied, the cache filled if it holds no release, and the array
      rebuilt with the host's entry for each cached release, in cache order,
      after inserting the events for the releases the host does not know. */
  method LoadAdjacentPartnerEvents(
      cache: ReleaseCache, store: PartnerEventStore, appId: int,
      requireTags: Option<seq<string>>, ret: HostValue,
      response: Option<seq<Release>>, toBBCode: string -> string)
    returns (result: HostValue)
    requires cache.Valid()
    modifies cache, store, ret.Arrays()
    ensures cache.Valid()
    ensures result == ret
    ensures appId != SteamOSAppId || ret.NotAnArray? ==>
              unchanged(cache) && unchanged(store) && unchanged(ret.Arrays())
    ensures appId == SteamOSAppId && ret.Events? ==>
              && cache.State() == Refreshed(old(cache.State()), requireTags, response)
              && cache.Fetches == old(cache.Fetches) + (if old(cache.releases) == [] then 1 else 0)
              && (cache.releases == [] ==> store.existingEvents == old(store.existingEvents))
              && (cache.releases != [] ==>
                    store.existingEvents == InsertAbsent(old(store.existingEvents),
                      ToEvents(cache.releases, cache.channel.value, toBBCode)))
              && (forall r :: r in cache.releases ==> Gid(r) in store.existingEvents)
              && ret.arr.elems == Entries(store.existingEvents, cache.releases)
  {
    result := ret;
    if appId != SteamOSAppId || !ret.Events? {
      return;
    }
    var arr := ret.arr;
    arr.elems := [];
    cache.FillIfEmpty(requireTags, response);
    if cache.releases == [] {
      return;
    }
    PublishEvents(store, arr, cache.releases, cache.channel.value, toBBCode);
  }
}
