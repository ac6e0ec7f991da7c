/** Whitelist and blacklist filtering of addresses, and the merge of threat-intelligence feeds into the lists. */
module AddressFilters {
  import opened Foundations

  datatype AddressEntry = AddressEntry(address: string, description: string, source: string, expiresAt: Option<nat>, active: bool)

  datatype FilterAction = Allow | Block | Skip | Review

  datatype ListType = Whitelist | Blacklist | NoList

  datatype FilterResult = FilterResult(address: string, action: FilterAction, listType: ListType, matchingEntry: Option<AddressEntry>)

  /** A compiled regular expression, seen as the set of addresses it matches. */
  datatype Pattern = Pattern(isMatch: string -> bool, action: FilterAction)

  datatype FeedConfig = FeedConfig(name: string, maxEntriesPerFetch: nat, includeMalicious: bool, includeTrusted: bool)

  /** A feed by what its fetches answer for a limit on the number of entries. */
  datatype Feed = Feed(
    name: string,
    fetchMalicious: nat -> Result<seq<AddressEntry>, string>,
    fetchTrusted: nat -> Result<seq<AddressEntry>, string>)

  datatype RefreshSummary = RefreshSummary(
    feedsContacted: nat,
    feedsFailed: nat,
    totalMaliciousFetched: nat,
    totalTrustedFetched: nat,
    newMaliciousAdded: nat,
    newTrustedAdded: nat,
    duplicatesSkipped: nat,
    errors: seq<string>)

  predicate IsValid(e: AddressEntry, now: nat) {
    e.active && (e.expiresAt.None? || e.expiresAt.value > now)
  }

  ghost function Addresses(entries: seq<AddressEntry>): set<string> {
    set i | 0 <= i < |entries| :: entries[i].address
  }

  lemma AddressesAppend(entries: seq<AddressEntry>, i: nat)
    requires i < |entries|
    ensures Addresses(entries[..i + 1]) == Addresses(entries[..i]) + {entries[i].address}
  {
    var longer := entries[..i + 1];
    assert longer[i] == entries[i];
    forall a | a in Addresses(entries[..i])
      ensures a in Addresses(longer)
    {
      var k :| 0 <= k < i && entries[..i][k].address == a;
      assert longer[k] == entries[..i][k];
    }
  }

  /** The first fetched entry for an address: later ones for it count as duplicates. */
  ghost function FirstEntry(entries: seq<AddressEntry>, a: string): AddressEntry
    requires a in Addresses(entries)
  {
    if entries[0].address == a then entries[0]
    else
      assert a in Addresses(entries[1..]) by {
        var i :| 0 <= i < |entries| && entries[i].address == a;
        assert entries[1..][i - 1] == entries[i];
      }
      FirstEntry(entries[1..], a)
  }

  lemma {:induction false} FirstEntryPrefix(entries: seq<AddressEntry>, i: nat, a: string)
    requires i < |entries| && a in Addresses(entries[..i + 1])
    ensures a in Addresses(entries[..i]) ==> FirstEntry(entries[..i + 1], a) == FirstEntry(entries[..i], a)
    ensures a !in Addresses(entries[..i]) ==> FirstEntry(entries[..i + 1], a) == entries[i]
  {
    AddressesAppend(entries, i);
    if i > 0 && entries[0].address != a {
      assert entries[..i + 1][1..] == entries[1..][..i];
      assert entries[..i][1..] == entries[1..][..i - 1];
      AddressesTail(entries[..i + 1], a);
      AddressesTail(entries[..i], a);
      FirstEntryPrefix(entries[1..], i - 1, a);
    }
  }

  lemma AddressesTail(entries: seq<AddressEntry>, a: string)
    requires entries != [] && entries[0].address != a
    ensures a in Addresses(entries) <==> a in Addresses(entries[1..])
  {
    if a in Addresses(entries) {
      var i :| 0 <= i < |entries| && entries[i].address == a;
      assert entries[1..][i - 1] == entries[i];
    }
    if a in Addresses(entries[1..]) {
      var i :| 0 <= i < |entries[1..]| && entries[1..][i].address == a;
      assert entries[i + 1] == entries[1..][i];
    }
  }

  /** The entry table after the fetched entries are offered in turn: an address already listed is skipped. */
  ghost function Merged(entries: map<string, AddressEntry>, offered: seq<AddressEntry>): map<string, AddressEntry> {
    if offered == [] then entries
    else
      var n := |offered| - 1;
      var merged := Merged(entries, offered[..n]);
      if offered[n].address in merged then merged else merged[offered[n].address := offered[n]]
  }

  /** No listed address is touched; every other offered address gets its first offered entry. */
  lemma {:induction false} MergedMeans(entries: map<string, AddressEntry>, offered: seq<AddressEntry>, n: nat)
    requires n <= |offered|
    ensures Merged(entries, offered[..n]).Keys == entries.Keys + Addresses(offered[..n])
    ensures forall a :: a in entries ==> Merged(entries, offered[..n])[a] == entries[a]
    ensures forall a :: a in Addresses(offered[..n]) && a !in entries ==>
              Merged(entries, offered[..n])[a] == FirstEntry(offered[..n], a)
  {
    if n > 0 {
      MergedMeans(entries, offered, n - 1);
      assert offered[..n][..n - 1] == offered[..n - 1];
      AddressesAppend(offered, n - 1);
      forall a | a in Addresses(offered[..n]) && a !in entries
        ensures Merged(entries, offered[..n])[a] == FirstEntry(offered[..n], a)
      {
        FirstEntryPrefix(offered, n - 1, a);
      }
    }
  }

  lemma MergedKeys(entries: map<string, AddressEntry>, offered: seq<AddressEntry>)
    ensures Merged(entries, offered).Keys == entries.Keys + Addresses(offered)
  {
    MergedMeans(entries, offered, |offered|);
    assert offered[..|offered|] == offered;
  }

  /** Exactly the listed addresses have an entry, each under its own address. */
  ghost predicate Consistent(entries: map<string, AddressEntry>, one: set<string>, other: set<string>) {
    && entries.Keys == one + other
    && forall a :: a in entries ==> entries[a].address == a
  }

  lemma ConsistentSwap(entries: map<string, AddressEntry>, one: set<string>, other: set<string>)
    ensures Consistent(entries, one, other) <==> Consistent(entries, other, one)
    ensures Consistent(entries, one, other) ==> entries.Keys == one + other
  {
    assert one + other == other + one;
  }

  /** Listing an address that is on neither list. */
  lemma ListOne(entries: map<string, AddressEntry>, one: set<string>, other: set<string>, e: AddressEntry)
    requires Consistent(entries, one, other) && e.address !in one && e.address !in other
    ensures Consistent(entries[e.address := e], one + {e.address}, other)
    ensures e.address !in entries
  {
    assert entries[e.address := e].Keys == entries.Keys + {e.address};
  }

  lemma GrownList(listed: set<string>, one: set<string>, other: set<string>, offered: set<string>)
    requires listed <= one && forall a :: a in one && a in other ==> a in listed
    requires one + other == listed + other + offered
    ensures one == listed + (offered - other)
  {
    forall a
      ensures a in one <==> a in listed + (offered - other)
    {
      assert a in one + other <==> a in listed + other + offered;
    }
  }

  // ---------------------------------------------------------------- the verdict on an address

  function FirstPattern(patterns: seq<Pattern>, address: string): Option<FilterAction> {
    if patterns == [] then None
    else if patterns[0].isMatch(address) then Some(patterns[0].action)
    else FirstPattern(patterns[1..], address)
  }

  /** Blacklist before whitelist before the first matching pattern before the default. */
  function Verdict(blacklist: set<string>, whitelist: set<string>, patterns: seq<Pattern>, defaultAction: FilterAction,
                   address: string): FilterAction
  {
    if address in blacklist then Block
    else if address in whitelist then Allow
    else FirstPattern(patterns, address).GetOr(defaultAction)
  }

  lemma {:induction false} FirstPatternIsFirst(patterns: seq<Pattern>, address: string, i: nat)
    requires i < |patterns| && patterns[i].isMatch(address) && forall j :: 0 <= j < i ==> !patterns[j].isMatch(address)
    ensures FirstPattern(patterns, address) == Some(patterns[i].action)
  {
    if i > 0 {
      assert !patterns[0].isMatch(address);
      FirstPatternIsFirst(patterns[1..], address, i - 1);
    }
  }

  lemma {:induction false} NoPattern(patterns: seq<Pattern>, address: string)
    requires forall j :: 0 <= j < |patterns| ==> !patterns[j].isMatch(address)
    ensures FirstPattern(patterns, address) == None
  {
    if patterns != [] {
      NoPattern(patterns[1..], address);
    }
  }

  /** Entries with the same addresses in the same order, whatever else they say, valid or not. */
  ghost predicate SameAddresses(a: seq<AddressEntry>, b: seq<AddressEntry>) {
    |a| == |b| && forall i :: 0 <= i < |a| ==> a[i].address == b[i].address
  }

  /** Which addresses a merge lists depends on the fetched addresses only: expired and inactive entries are listed alike. */
  lemma MergeIgnoresValidity(entries: map<string, AddressEntry>, a: seq<AddressEntry>, b: seq<AddressEntry>)
    requires SameAddresses(a, b)
    ensures Addresses(a) == Addresses(b) && Merged(entries, a).Keys == Merged(entries, b).Keys
  {
    forall x
      ensures x in Addresses(a) <==> x in Addresses(b)
    {
      if x in Addresses(a) {
        var i :| 0 <= i < |a| && a[i].address == x;
        assert b[i].address == x;
      }
      if x in Addresses(b) {
        var i :| 0 <= i < |b| && b[i].address == x;
        assert a[i].address == x;
      }
    }
    MergedKeys(entries, a);
    MergedKeys(entries, b);
  }

  // ---------------------------------------------------------------- the closed form of a refresh

  ghost function RefreshedBlacklist(blacklist: set<string>, whitelist: set<string>, malicious: set<string>): set<string> {
    blacklist + (malicious - whitelist)
  }

  ghost function RefreshedWhitelist(blacklist: set<string>, whitelist: set<string>, malicious: set<string>, trusted: set<string>): set<string> {
    whitelist + (trusted - RefreshedBlacklist(blacklist, whitelist, malicious))
  }

  /** Refreshing keeps disjoint lists disjoint, loses no address, overrides no list, and a repeat changes nothing. */
  lemma RefreshLaws(blacklist: set<string>, whitelist: set<string>, malicious: set<string>, trusted: set<string>)
    ensures var b := RefreshedBlacklist(blacklist, whitelist, malicious);
            var w := RefreshedWhitelist(blacklist, whitelist, malicious, trusted);
            && b + w == blacklist + whitelist + malicious + trusted
            && b * w == blacklist * whitelist
            && RefreshedBlacklist(b, w, malicious) == b
            && RefreshedWhitelist(b, w, malicious, trusted) == w
  {
    var b := RefreshedBlacklist(blacklist, whitelist, malicious);
    var w := RefreshedWhitelist(blacklist, whitelist, malicious, trusted);
    forall a
      ensures a in b * w <==> a in blacklist * whitelist
    {
    }
  }

  // ---------------------------------------------------------------- what the feeds deliver

  function ConfigFor(configs: seq<FeedConfig>, name: string): Option<FeedConfig> {
    if configs == [] then None
    else if configs[0].name == name then Some(configs[0])
    else ConfigFor(configs[1..], name)
  }

  /** The answers asked of one feed: not asked, entries, or a failure. */
  function MaliciousAnswer(configs: seq<FeedConfig>, feed: Feed): Option<Result<seq<AddressEntry>, string>> {
    var config := ConfigFor(configs, feed.name);
    var limit := if config.Some? then config.value.maxEntriesPerFetch else 5000;
    var included := if config.Some? then config.value.includeMalicious else true;
    if included then Some(feed.fetchMalicious(limit)) else None
  }

  function TrustedAnswer(configs: seq<FeedConfig>, feed: Feed): Option<Result<seq<AddressEntry>, string>> {
    var config := ConfigFor(configs, feed.name);
    var limit := if config.Some? then config.value.maxEntriesPerFetch else 5000;
    var included := if config.Some? then config.value.includeTrusted else false;
    if included then Some(feed.fetchTrusted(limit)) else None
  }

  function EntriesIn(answer: Option<Result<seq<AddressEntry>, string>>): seq<AddressEntry> {
    if answer.Some? && answer.value.Ok? then answer.value.value else []
  }

  predicate Fails(answer: Option<Result<seq<AddressEntry>, string>>) {
    answer.Some? && answer.value.Err?
  }

  /** The messages of one feed: its malicious fetch before its trusted one. */
  function FeedErrors(configs: seq<FeedConfig>, feed: Feed): seq<string> {
    FetchErrors(feed.name, "malicious", MaliciousAnswer(configs, feed)) + FetchErrors(feed.name, "trusted", TrustedAnswer(configs, feed))
  }

  function FetchErrors(name: string, kind: string, answer: Option<Result<seq<AddressEntry>, string>>): seq<string> {
    if Fails(answer) then ["Feed '" + name + "' failed to fetch " + kind + " addresses: " + answer.value.error] else []
  }

  ghost function AllErrors(configs: seq<FeedConfig>, feeds: seq<Feed>): seq<string> {
    if feeds == [] then []
    else AllErrors(configs, feeds[..|feeds| - 1]) + FeedErrors(configs, feeds[|feeds| - 1])
  }

  ghost function AllMalicious(configs: seq<FeedConfig>, feeds: seq<Feed>): seq<AddressEntry> {
    if feeds == [] then []
    else AllMalicious(configs, feeds[..|feeds| - 1]) + EntriesIn(MaliciousAnswer(configs, feeds[|feeds| - 1]))
  }

  ghost function AllTrusted(configs: seq<FeedConfig>, feeds: seq<Feed>): seq<AddressEntry> {
    if feeds == [] then []
    else AllTrusted(configs, feeds[..|feeds| - 1]) + EntriesIn(TrustedAnswer(configs, feeds[|feeds| - 1]))
  }

  ghost function FailedFeeds(configs: seq<FeedConfig>, feeds: seq<Feed>): set<nat> {
    set i | 0 <= i < |feeds| && (Fails(MaliciousAnswer(configs, feeds[i])) || Fails(TrustedAnswer(configs, feeds[i])))
  }

  lemma NoFeedFails(configs: seq<FeedConfig>)
    ensures FailedFeeds(configs, []) == {}
  {
  }

  lemma FailedFeedsStep(configs: seq<FeedConfig>, feeds: seq<Feed>, i: nat)
    requires i < |feeds|
    ensures var failed := Fails(MaliciousAnswer(configs, feeds[i])) || Fails(TrustedAnswer(configs, feeds[i]));
            && FailedFeeds(configs, feeds[..i + 1]) == FailedFeeds(configs, feeds[..i]) + (if failed then {i} else {})
            && |FailedFeeds(configs, feeds[..i + 1])| == |FailedFeeds(configs, feeds[..i])| + (if failed then 1 else 0)
  {
    assert forall k :: 0 <= k < i ==> feeds[..i + 1][k] == feeds[..i][k];
    assert feeds[..i + 1][i] == feeds[i];
    assert i !in FailedFeeds(configs, feeds[..i]);
  }

  // ---------------------------------------------------------------- which feeds are asked, and for how much

  /** The first configuration of that name. */
  ghost predicate IsFirstConfig(configs: seq<FeedConfig>, name: string, k: nat) {
    k < |configs| && configs[k].name == name && forall j :: 0 <= j < k ==> configs[j].name != name
  }

  ghost predicate Unconfigured(configs: seq<FeedConfig>, name: string) {
    forall j :: 0 <= j < |configs| ==> configs[j].name != name
  }

  ghost predicate HasAddress(answer: Result<seq<AddressEntry>, string>, a: string) {
    answer.Ok? && exists i :: 0 <= i < |answer.value| && answer.value[i].address == a
  }

  /** The feed is asked for malicious addresses, by its configuration or for want of one, and answers with this one. */
  ghost predicate MaliciousFrom(configs: seq<FeedConfig>, feed: Feed, a: string) {
    || (Unconfigured(configs, feed.name) && HasAddress(feed.fetchMalicious(5000), a))
    || exists k: nat :: IsFirstConfig(configs, feed.name, k) && configs[k].includeMalicious
                        && HasAddress(feed.fetchMalicious(configs[k].maxEntriesPerFetch), a)
  }

  /** The feed is asked for trusted addresses, by its configuration only, and answers with this one. */
  ghost predicate TrustedFrom(configs: seq<FeedConfig>, feed: Feed, a: string) {
    exists k: nat :: IsFirstConfig(configs, feed.name, k) && configs[k].includeTrusted
                     && HasAddress(feed.fetchTrusted(configs[k].maxEntriesPerFetch), a)
  }

  lemma {:induction false} ConfigForIsFirst(configs: seq<FeedConfig>, name: string)
    ensures ConfigFor(configs, name).None? <==> Unconfigured(configs, name)
    ensures forall k: nat :: IsFirstConfig(configs, name, k) ==> ConfigFor(configs, name) == Some(configs[k])
    ensures ConfigFor(configs, name).Some? ==> exists k: nat :: IsFirstConfig(configs, name, k)
  {
    if configs != [] {
      ConfigForIsFirst(configs[1..], name);
      if configs[0].name == name {
        assert IsFirstConfig(configs, name, 0);
      } else {
        forall k: nat | IsFirstConfig(configs, name, k)
          ensures k > 0 && IsFirstConfig(configs[1..], name, k - 1)
        {
        }
        if k: nat :| IsFirstConfig(configs[1..], name, k) {
          assert IsFirstConfig(configs, name, k + 1);
        }
        if Unconfigured(configs[1..], name) {
          forall j | 0 <= j < |configs|
            ensures configs[j].name != name
          {
            assert j > 0 ==> configs[j] == configs[1..][j - 1];
          }
        }
        if Unconfigured(configs, name) {
          assert forall j :: 0 <= j < |configs[1..]| ==> configs[1..][j] == configs[j + 1];
        }
      }
    }
  }

  lemma HasAddressMeans(answer: Option<Result<seq<AddressEntry>, string>>, a: string)
    ensures a in Addresses(EntriesIn(answer)) <==> answer.Some? && HasAddress(answer.value, a)
  {
  }

  lemma FeedOffersIff(configs: seq<FeedConfig>, feed: Feed, a: string)
    ensures a in Addresses(EntriesIn(MaliciousAnswer(configs, feed))) <==> MaliciousFrom(configs, feed, a)
    ensures a in Addresses(EntriesIn(TrustedAnswer(configs, feed))) <==> TrustedFrom(configs, feed, a)
  {
    hide Addresses, EntriesIn, HasAddress, IsFirstConfig, Unconfigured, ConfigFor;
    ConfigForIsFirst(configs, feed.name);
    HasAddressMeans(MaliciousAnswer(configs, feed), a);
    HasAddressMeans(TrustedAnswer(configs, feed), a);
    if ConfigFor(configs, feed.name).Some? {
      var k: nat :| IsFirstConfig(configs, feed.name, k);
      assert ConfigFor(configs, feed.name) == Some(configs[k]) by {
        assert k < |configs| by {
          FirstConfigExists(configs, feed.name, k);
        }
      }
    }
  }

  lemma FirstConfigExists(configs: seq<FeedConfig>, name: string, k: nat)
    requires IsFirstConfig(configs, name, k)
    ensures k < |configs|
  {
  }

  lemma AddressesConcat(a: seq<AddressEntry>, b: seq<AddressEntry>)
    ensures Addresses(a + b) == Addresses(a) + Addresses(b)
  {
    forall x
      ensures x in Addresses(a + b) <==> x in Addresses(a) || x in Addresses(b)
    {
      if x in Addresses(a) {
        var i :| 0 <= i < |a| && a[i].address == x;
        assert (a + b)[i] == a[i];
      }
      if x in Addresses(b) {
        var i :| 0 <= i < |b| && b[i].address == x;
        assert (a + b)[|a| + i] == b[i];
      }
    }
  }

  /** The fetched addresses are those some feed was asked for and answered with. */
  lemma {:induction false} FetchedIff(configs: seq<FeedConfig>, feeds: seq<Feed>, a: string)
    ensures a in Addresses(AllMalicious(configs, feeds)) <==> exists f :: 0 <= f < |feeds| && MaliciousFrom(configs, feeds[f], a)
    ensures a in Addresses(AllTrusted(configs, feeds)) <==> exists f :: 0 <= f < |feeds| && TrustedFrom(configs, feeds[f], a)
  {
    hide Addresses, MaliciousAnswer, TrustedAnswer, EntriesIn, MaliciousFrom, TrustedFrom;
    if feeds == [] {
      NoAddresses();
    } else {
      var n := |feeds| - 1;
      FetchedIff(configs, feeds[..n], a);
      FeedOffersIff(configs, feeds[n], a);
      AddressesConcat(AllMalicious(configs, feeds[..n]), EntriesIn(MaliciousAnswer(configs, feeds[n])));
      AddressesConcat(AllTrusted(configs, feeds[..n]), EntriesIn(TrustedAnswer(configs, feeds[n])));
      assert forall f :: 0 <= f < n ==> feeds[..n][f] == feeds[f];
      if f :| 0 <= f < n && MaliciousFrom(configs, feeds[..n][f], a) {
        assert MaliciousFrom(configs, feeds[f], a);
      }
      if f :| 0 <= f < |feeds| && MaliciousFrom(configs, feeds[f], a) {
        assert f < n ==> MaliciousFrom(configs, feeds[..n][f], a);
      }
      if f :| 0 <= f < n && TrustedFrom(configs, feeds[..n][f], a) {
        assert TrustedFrom(configs, feeds[f], a);
      }
      if f :| 0 <= f < |feeds| && TrustedFrom(configs, feeds[f], a) {
        assert f < n ==> TrustedFrom(configs, feeds[..n][f], a);
      }
    }
  }

  lemma NoAddresses()
    ensures Addresses([]) == {}
  {
  }

  lemma FetchedByAll(configs: seq<FeedConfig>, feeds: seq<Feed>)
    ensures forall a :: a in Addresses(AllMalicious(configs, feeds)) <==>
                        exists f :: 0 <= f < |feeds| && MaliciousFrom(configs, feeds[f], a)
    ensures forall a :: a in Addresses(AllTrusted(configs, feeds)) <==>
                        exists f :: 0 <= f < |feeds| && TrustedFrom(configs, feeds[f], a)
  {
    forall a
      ensures a in Addresses(AllMalicious(configs, feeds)) <==> exists f :: 0 <= f < |feeds| && MaliciousFrom(configs, feeds[f], a)
      ensures a in Addresses(AllTrusted(configs, feeds)) <==> exists f :: 0 <= f < |feeds| && TrustedFrom(configs, feeds[f], a)
    {
      FetchedIff(configs, feeds, a);
    }
  }

  /** A feed fails exactly if one of the answers it is asked for is an error. */
  lemma FeedFailsIff(configs: seq<FeedConfig>, feed: Feed)
    ensures Fails(MaliciousAnswer(configs, feed)) <==>
            || (Unconfigured(configs, feed.name) && feed.fetchMalicious(5000).Err?)
            || exists k: nat :: IsFirstConfig(configs, feed.name, k) && configs[k].includeMalicious
                                && feed.fetchMalicious(configs[k].maxEntriesPerFetch).Err?
    ensures Fails(TrustedAnswer(configs, feed)) <==>
            exists k: nat :: IsFirstConfig(configs, feed.name, k) && configs[k].includeTrusted
                             && feed.fetchTrusted(configs[k].maxEntriesPerFetch).Err?
  {
    hide ConfigFor, Unconfigured;
    ConfigForIsFirst(configs, feed.name);
  }

  /** The entries whose source begins with the feed's name. */
  ghost function SourcedBy(entries: map<string, AddressEntry>, name: string): set<string> {
    set a | a in entries && StartsWith(entries[a].source, name)
  }

  lemma SourcedByStep(entries: map<string, AddressEntry>, name: string, todo: set<string>, a: string)
    requires a in todo && todo <= entries.Keys
    ensures |SourcedBy(entries - (todo - {a}), name)| ==
            |SourcedBy(entries - todo, name)| + (if StartsWith(entries[a].source, name) then 1 else 0)
  {
    var before, after := SourcedBy(entries - todo, name), SourcedBy(entries - (todo - {a}), name);
    if StartsWith(entries[a].source, name) {
      assert after == before + {a};
    } else {
      assert after == before;
    }
  }

  ghost function CountsAfter(counts: map<string, nat>, entries: map<string, AddressEntry>, feeds: seq<Feed>): map<string, nat> {
    if feeds == [] then counts
    else
      var n := |feeds| - 1;
      var before := CountsAfter(counts, entries, feeds[..n]);
      if feeds[n].name == "" then before else before[feeds[n].name := |SourcedBy(entries, feeds[n].name)|]
  }

  /** Every named feed ends up with the number of entries it is the source of; other counts stay. */
  lemma {:induction false} CountsAreExact(counts: map<string, nat>, entries: map<string, AddressEntry>, feeds: seq<Feed>, name: string)
    ensures var after := CountsAfter(counts, entries, feeds);
            if name != "" && exists i :: 0 <= i < |feeds| && feeds[i].name == name
            then name in after && after[name] == |SourcedBy(entries, name)|
            else (name in after <==> name in counts) && (name in counts ==> after[name] == counts[name])
  {
    if feeds != [] {
      var n := |feeds| - 1;
      CountsAreExact(counts, entries, feeds[..n], name);
      if i :| 0 <= i < |feeds| && feeds[i].name == name {
        assert i < n ==> feeds[..n][i].name == name;
      }
      if i :| 0 <= i < n && feeds[..n][i].name == name {
        assert feeds[i].name == name;
      }
    }
  }

  class AddressFilter {
    var whitelist: set<string>
    var blacklist: set<string>
    var entries: map<string, AddressEntry>
    var patterns: seq<Pattern>
    var feeds: seq<Feed>
    var feedConfigs: seq<FeedConfig>
    var defaultAction: FilterAction
    var feedEntryCounts: map<string, nat>

    ghost predicate Valid()
      reads this
    {
      Consistent(entries, whitelist, blacklist)
    }

    constructor (feedConfigs: seq<FeedConfig>, defaultAction: FilterAction)
      ensures Valid() && whitelist == {} && blacklist == {} && patterns == [] && feeds == [] && feedEntryCounts == map[]
      ensures this.feedConfigs == feedConfigs && this.defaultAction == defaultAction
    {
      whitelist, blacklist, entries := {}, {}, map[];
      patterns, feeds, feedEntryCounts := [], [], map[];
      this.feedConfigs, this.defaultAction := feedConfigs, defaultAction;
    }

    method AddToWhitelist(entry: AddressEntry, now: nat) returns (r: Result<(), string>)
      requires Valid()
      modifies this`whitelist, this`entries
      ensures Valid()
      ensures r.Ok? <==> entry.active && (entry.expiresAt.None? || now < entry.expiresAt.value)
      ensures r.Ok? ==> whitelist == old(whitelist) + {entry.address} && entries == old(entries)[entry.address := entry]
      ensures r.Err? ==> whitelist == old(whitelist) && entries == old(entries)
    {
      if !IsValid(entry, now) { return Err("Cannot add expired address to whitelist"); }
      whitelist := whitelist + {entry.address};
      entries := entries[entry.address := entry];
      r := Ok(());
    }

    method AddToBlacklist(entry: AddressEntry, now: nat) returns (r: Result<(), string>)
      requires Valid()
      modifies this`blacklist, this`entries
      ensures Valid()
      ensures r.Ok? <==> entry.active && (entry.expiresAt.None? || now < entry.expiresAt.value)
      ensures r.Ok? ==> blacklist == old(blacklist) + {entry.address} && entries == old(entries)[entry.address := entry]
      ensures r.Err? ==> blacklist == old(blacklist) && entries == old(entries)
    {
      if !IsValid(entry, now) { return Err("Cannot add expired address to blacklist"); }
      blacklist := blacklist + {entry.address};
      entries := entries[entry.address := entry];
      r := Ok(());
    }

    /** Removal undoes both kinds of adding at once. */
    method RemoveAddress(address: string) returns (removed: bool)
      requires Valid()
      modifies this`whitelist, this`blacklist, this`entries
      ensures Valid()
      ensures removed <==> address in old(entries)
      ensures whitelist == old(whitelist) - {address} && blacklist == old(blacklist) - {address}
      ensures entries == old(entries) - {address}
    {
      removed := address in whitelist || address in blacklist;
      whitelist := whitelist - {address};
      blacklist := blacklist - {address};
      if removed {
        entries := entries - {address};
      }
    }

    /** Blacklist before whitelist before the first matching pattern before the default. */
    method FilterAddress(address: string) returns (r: FilterResult)
      requires Valid()
      ensures r.address == address && r.action == Verdict(blacklist, whitelist, patterns, defaultAction, address)
      ensures r.listType == Blacklist <==> address in blacklist
      ensures r.listType == Whitelist <==> address in whitelist && address !in blacklist
      ensures r.listType == Blacklist ==> r.action == Block
      ensures r.listType == Whitelist ==> r.action == Allow
      ensures r.matchingEntry == if address in entries then Some(entries[address]) else None
      ensures r.listType == NoList ==>
                || (exists i :: 0 <= i < |patterns| && patterns[i].isMatch(address) && r.action == patterns[i].action
                                && forall j :: 0 <= j < i ==> !patterns[j].isMatch(address))
                || (r.action == defaultAction && forall j :: 0 <= j < |patterns| ==> !patterns[j].isMatch(address))
    {
      if address in blacklist {
        return FilterResult(address, Block, Blacklist, if address in entries then Some(entries[address]) else None);
      }
      if address in whitelist {
        return FilterResult(address, Allow, Whitelist, if address in entries then Some(entries[address]) else None);
      }
      for i := 0 to |patterns|
        invariant forall j :: 0 <= j < i ==> !patterns[j].isMatch(address)
      {
        if patterns[i].isMatch(address) {
          FirstPatternIsFirst(patterns, address, i);
          return FilterResult(address, patterns[i].action, NoList, None);
        }
      }
      NoPattern(patterns, address);
      r := FilterResult(address, defaultAction, NoList, None);
    }

    /**
     * A listing never runs out: an entry listed while valid decides the verdict at any later time, though by then it
     * could no longer be added.
     */
    method ExpiredEntryStillBlocks(entry: AddressEntry, listed: nat, later: nat)
      returns (answer: FilterResult, again: Result<(), string>)
      requires Valid() && IsValid(entry, listed) && !IsValid(entry, later)
      modifies this`blacklist, this`entries
      ensures Valid()
      ensures answer.action == Block && answer.matchingEntry == Some(entry) && again.Err?
    {
      var added := AddToBlacklist(entry, listed);
      answer := FilterAddress(entry.address);
      again := AddToBlacklist(entry, later);
    }

    /** Fetches from every feed; a failing feed contributes what its other answer holds. */
    method CollectFromFeeds() returns (malicious: seq<AddressEntry>, trusted: seq<AddressEntry>, failed: nat, errors: seq<string>)
      ensures malicious == AllMalicious(feedConfigs, feeds) && trusted == AllTrusted(feedConfigs, feeds)
      ensures failed == |FailedFeeds(feedConfigs, feeds)| && failed <= |errors| <= 2 * failed
      ensures errors == AllErrors(feedConfigs, feeds)
    {
      malicious, trusted, failed, errors := [], [], 0, [];
      hide FetchErrors, Fails, EntriesIn, MaliciousAnswer, TrustedAnswer, FailedFeeds;
      NoFeedFails(feedConfigs);
      assert feeds[..0] == [];
      for i := 0 to |feeds|
        invariant malicious == AllMalicious(feedConfigs, feeds[..i]) && trusted == AllTrusted(feedConfigs, feeds[..i])
        invariant failed == |FailedFeeds(feedConfigs, feeds[..i])| && failed <= |errors| <= 2 * failed
        invariant errors == AllErrors(feedConfigs, feeds[..i])
      {
        var feed := feeds[i];
        assert feeds[..i + 1][..i] == feeds[..i];
        FailedFeedsStep(feedConfigs, feeds, i);
        var fetchedMalicious, maliciousErrors := TakeAnswer(feed.name, "malicious", MaliciousAnswer(feedConfigs, feed));
        malicious := malicious + fetchedMalicious;
        var fetchedTrusted, trustedErrors := TakeAnswer(feed.name, "trusted", TrustedAnswer(feedConfigs, feed));
        trusted := trusted + fetchedTrusted;
        errors := errors + (maliciousErrors + trustedErrors);
        if maliciousErrors != [] || trustedErrors != [] {
          failed := failed + 1;
        }
      }
      assert feeds[..|feeds|] == feeds;
    }

    /** The entries of one fetch, or the message of its failure; nothing if the feed is not asked. */
    static method TakeAnswer(name: string, kind: string, answer: Option<Result<seq<AddressEntry>, string>>)
      returns (fetched: seq<AddressEntry>, errors: seq<string>)
      ensures fetched == EntriesIn(answer) && errors == FetchErrors(name, kind, answer)
      ensures |errors| == if Fails(answer) then 1 else 0
    {
      fetched, errors := [], [];
      if answer.Some? {
        match answer.value {
          case Ok(entries) => fetched := entries;
          case Err(e) => errors := ["Feed '" + name + "' failed to fetch " + kind + " addresses: " + e];
        }
      }
    }

    /** Adds the addresses on neither list to the blacklist. */
    method MergeMalicious(all: seq<AddressEntry>) returns (added: nat, skipped: nat)
      requires Valid()
      modifies this`blacklist, this`entries
      ensures Valid()
      ensures blacklist == old(blacklist) + (Addresses(all) - whitelist)
      ensures entries == Merged(old(entries), all)
      ensures added + skipped == |all| && added == |blacklist| - |old(blacklist)|
    {
      hide Addresses, Consistent;
      ghost var before, listed := entries, blacklist;
      ConsistentSwap(entries, whitelist, blacklist);
      added, skipped := 0, 0;
      for i := 0 to |all|
        invariant Consistent(entries, blacklist, whitelist)
        invariant entries == Merged(before, all[..i])
        invariant listed <= blacklist && forall a :: a in blacklist && a in whitelist ==> a in listed
        invariant added + skipped == i && added == |blacklist| - |listed|
      {
        var entry := all[i];
        assert all[..i + 1][..i] == all[..i];
        if entry.address in blacklist {
          ConsistentSwap(entries, blacklist, whitelist);
          skipped := skipped + 1;
          continue;
        }
        if entry.address in whitelist {
          ConsistentSwap(entries, blacklist, whitelist);
          skipped := skipped + 1;
          continue;
        }
        ListOne(entries, blacklist, whitelist, entry);
        blacklist := blacklist + {entry.address};
        entries := entries[entry.address := entry];
        added := added + 1;
      }
      assert all[..|all|] == all;
      MergedKeys(before, all);
      ConsistentSwap(entries, whitelist, blacklist);
      GrownList(listed, blacklist, whitelist, Addresses(all));
    }

    /** Adds the addresses on neither list to the whitelist. */
    method MergeTrusted(all: seq<AddressEntry>) returns (added: nat, skipped: nat)
      requires Valid()
      modifies this`whitelist, this`entries
      ensures Valid()
      ensures whitelist == old(whitelist) + (Addresses(all) - blacklist)
      ensures entries == Merged(old(entries), all)
      ensures added + skipped == |all| && added == |whitelist| - |old(whitelist)|
    {
      hide Addresses, Consistent;
      ghost var before, listed := entries, whitelist;
      ConsistentSwap(entries, whitelist, blacklist);
      added, skipped := 0, 0;
      for i := 0 to |all|
        invariant Consistent(entries, whitelist, blacklist)
        invariant entries == Merged(before, all[..i])
        invariant listed <= whitelist && forall a :: a in whitelist && a in blacklist ==> a in listed
        invariant added + skipped == i && added == |whitelist| - |listed|
      {
        var entry := all[i];
        assert all[..i + 1][..i] == all[..i];
        if entry.address in whitelist {
          ConsistentSwap(entries, whitelist, blacklist);
          skipped := skipped + 1;
          continue;
        }
        if entry.address in blacklist {
          ConsistentSwap(entries, whitelist, blacklist);
          skipped := skipped + 1;
          continue;
        }
        ListOne(entries, whitelist, blacklist, entry);
        whitelist := whitelist + {entry.address};
        entries := entries[entry.address := entry];
        added := added + 1;
      }
      assert all[..|all|] == all;
      MergedKeys(before, all);
      ConsistentSwap(entries, whitelist, blacklist);
      GrownList(listed, whitelist, blacklist, Addresses(all));
    }

    method UpdateFeedCounts()
      modifies this`feedEntryCounts
      ensures feedEntryCounts == CountsAfter(old(feedEntryCounts), entries, feeds)
    {
      for i := 0 to |feeds|
        invariant feedEntryCounts == CountsAfter(old(feedEntryCounts), entries, feeds[..i])
      {
        assert feeds[..i + 1][..i] == feeds[..i];
        var name := feeds[i].name;
        if name == "" {
          continue;
        }
        var count := CountSourcedBy(name);
        feedEntryCounts := feedEntryCounts[name := count];
      }
      assert feeds[..|feeds|] == feeds;
    }

    /** Walks the entries in any order and counts those whose source begins with the name. */
    method CountSourcedBy(name: string) returns (count: nat)
      ensures count == |SourcedBy(entries, name)|
    {
      count := 0;
      var todo := entries.Keys;
      assert SourcedBy(entries - todo, name) == {};
      while todo != {}
        invariant todo <= entries.Keys
        invariant count == |SourcedBy(entries - todo, name)|
        decreases todo
      {
        var address :| address in todo;
        SourcedByStep(entries, name, todo, address);
        if StartsWith(entries[address].source, name) {
          count := count + 1;
        }
        todo := todo - {address};
      }
      assert entries - {} == entries;
    }

    /** One refresh: the closed form of both lists, and a summary that accounts for every fetched entry. */
    method RefreshFromFeeds() returns (summary: RefreshSummary)
      requires Valid()
      modifies this`whitelist, this`blacklist, this`entries, this`feedEntryCounts
      ensures Valid()
      ensures var malicious, trusted := AllMalicious(feedConfigs, feeds), AllTrusted(feedConfigs, feeds);
              && blacklist == RefreshedBlacklist(old(blacklist), old(whitelist), Addresses(malicious))
              && whitelist == RefreshedWhitelist(old(blacklist), old(whitelist), Addresses(malicious), Addresses(trusted))
              && summary.totalMaliciousFetched == |malicious| && summary.totalTrustedFetched == |trusted|
      ensures forall a :: a in blacklist <==>
                || a in old(blacklist)
                || (a !in old(whitelist) && exists f :: 0 <= f < |feeds| && MaliciousFrom(feedConfigs, feeds[f], a))
      ensures forall a :: a in whitelist <==>
                || a in old(whitelist)
                || (a !in blacklist && exists f :: 0 <= f < |feeds| && TrustedFrom(feedConfigs, feeds[f], a))
      ensures summary.newMaliciousAdded == |blacklist| - |old(blacklist)|
      ensures summary.newTrustedAdded == |whitelist| - |old(whitelist)|
      ensures summary.totalMaliciousFetched + summary.totalTrustedFetched ==
              summary.newMaliciousAdded + summary.newTrustedAdded + summary.duplicatesSkipped
      ensures summary.errors == AllErrors(feedConfigs, feeds)
      ensures summary.feedsContacted == |feeds| && summary.feedsFailed == |FailedFeeds(feedConfigs, feeds)|
      ensures entries == Merged(Merged(old(entries), AllMalicious(feedConfigs, feeds)), AllTrusted(feedConfigs, feeds))
      ensures feedEntryCounts == CountsAfter(old(feedEntryCounts), entries, feeds)
    {
      hide Consistent, AllErrors, AllMalicious, AllTrusted, Addresses, FailedFeeds, Merged, CountsAfter, MaliciousFrom, TrustedFrom;
      FetchedByAll(feedConfigs, feeds);
      var malicious, trusted, failed, errors := CollectFromFeeds();
      var newMalicious, skippedMalicious := MergeMalicious(malicious);
      var newTrusted, skippedTrusted := MergeTrusted(trusted);
      UpdateFeedCounts();
      summary := RefreshSummary(|feeds|, failed, |malicious|, |trusted|, newMalicious, newTrusted,
                                skippedMalicious + skippedTrusted, errors);
    }

    /** A second refresh with unchanged feeds adds nothing and counts every entry as a duplicate. */
    method RefreshTwice() returns (first: RefreshSummary, second: RefreshSummary)
      requires Valid()
      modifies this`whitelist, this`blacklist, this`entries, this`feedEntryCounts
      ensures second.newMaliciousAdded == 0 && second.newTrustedAdded == 0
      ensures second.duplicatesSkipped == first.totalMaliciousFetched + first.totalTrustedFetched
    {
      hide Consistent, RefreshedBlacklist, RefreshedWhitelist, MaliciousFrom, TrustedFrom, AllErrors, AllMalicious, AllTrusted, Addresses, FailedFeeds, Merged, CountsAfter;
      first := RefreshFromFeeds();
      RefreshLaws(old(blacklist), old(whitelist), Addresses(AllMalicious(feedConfigs, feeds)),
                  Addresses(AllTrusted(feedConfigs, feeds)));
      second := RefreshFromFeeds();
    }
  }
}
