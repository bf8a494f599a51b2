/** The headline report: each feed's entries become records with defaulted
    fields, the first five of every non-empty feed are tagged with the site
    name, and all are sorted newest first by their time text. */
module Feeds {
  import opened Stamps

  datatype Option<T> = None | Some(value: T)

  /** An entry as the feed parser delivers it. A missing or empty parsed
      time is None. */
  datatype Entry = Entry(
    title: Option<string>,
    link: Option<string>,
    published: Option<Stamp>,
    updated: Option<Stamp>)

  /** One row of the report: title, link, publication time, source site. */
  datatype Record = Record(title: string, link: string, time: string, source: string)

  /** A feed of the fixed site list, already fetched and parsed. */
  datatype Feed = Feed(site: string, entries: seq<Entry>)

  const Untitled: string := "(無標題)"

  /** How many entries of each feed the report keeps. */
  const TopCount: nat := 5

  /** The time tuple the source converts is one datetime accepts: the
      publication time when present, else the update time. A tuple the
      source never reads may hold anything. */
  predicate EntryValid(e: Entry)
  {
    (e.published.Some? ==> Valid(e.published.value)) &&
    (e.published.None? && e.updated.Some? ==> Valid(e.updated.value))
  }

  predicate EntriesValid(es: seq<Entry>)
  {
    forall i :: 0 <= i < |es| ==> EntryValid(es[i])
  }

  predicate FeedsValid(feeds: seq<Feed>)
  {
    forall i :: 0 <= i < |feeds| ==> EntriesValid(feeds[i].entries)
  }

  /** The time of an entry: its publication time, else its update time,
      else the current time. */
  function EntryTime(e: Entry, now: Stamp): (t: Stamp)
    requires EntryValid(e) && Valid(now)
    ensures Valid(t)
    ensures e.published.Some? ==> t == e.published.value
    ensures e.published.None? && e.updated.Some? ==> t == e.updated.value
    ensures e.published.None? && e.updated.None? ==> t == now
  {
    match e.published
    case Some(p) => p
    case None => match e.updated
      case Some(u) => u
      case None => now
  }

  /** The record of one entry, before its source is filled in. */
  function ParseEntry(e: Entry, now: Stamp): Record
    requires EntryValid(e) && Valid(now)
  {
    Record(
      if e.title.Some? then e.title.value else Untitled,
      if e.link.Some? then e.link.value else "",
      Format(EntryTime(e, now)),
      "")
  }

  /** The records of a sequence of entries, one per entry, in order. */
  function ParseAll(es: seq<Entry>, now: Stamp): (rs: seq<Record>)
    requires EntriesValid(es) && Valid(now)
    ensures |rs| == |es|
    ensures forall i :: 0 <= i < |es| ==> rs[i] == ParseEntry(es[i], now)
  {
    if es == [] then []
    else
      var init := es[..|es| - 1];
      assert EntriesValid(init) by { assert forall k :: 0 <= k < |init| ==> init[k] == es[k]; }
      ParseAll(init, now) + [ParseEntry(es[|es| - 1], now)]
  }

  /** parse_entries: one record per entry, in order, with the defaults for a
      missing title, link or time and an empty source. */
  method ParseEntries(entries: seq<Entry>, now: Stamp) returns (parsed: seq<Record>)
    requires EntriesValid(entries) && Valid(now)
    ensures |parsed| == |entries|
    ensures forall i :: 0 <= i < |entries| ==>
              var e := entries[i];
              parsed[i].title == (if e.title.Some? then e.title.value else Untitled) &&
              parsed[i].link == (if e.link.Some? then e.link.value else "") &&
              parsed[i].time == Format(if e.published.Some? then e.published.value
                                       else if e.updated.Some? then e.updated.value
                                       else now) &&
              parsed[i].source == ""
    ensures parsed == ParseAll(entries, now)
  {
    parsed := [];
    for i := 0 to |entries|
      invariant parsed == ParseAll(entries[..i], now)
    {
      var entry := entries[i];
      var publishedTime := EntryTime(entry, now);
      assert entries[..i + 1][..i] == entries[..i];
      parsed := parsed + [Record(
        if entry.title.Some? then entry.title.value else Untitled,
        if entry.link.Some? then entry.link.value else "",
        Format(publishedTime),
        "")];
    }
    assert entries[..|entries|] == entries;
  }

  function Min(a: int, b: int): int
  {
    if a <= b then a else b
  }

  /** The records with their source replaced by the site name. */
  function Tag(site: string, rs: seq<Record>): (ts: seq<Record>)
    ensures |ts| == |rs|
    ensures forall i :: 0 <= i < |rs| ==> ts[i] == rs[i].(source := site)
  {
    seq(|rs|, i requires 0 <= i < |rs| => rs[i].(source := site))
  }

  /** What one feed adds to the report: nothing when it has no entries,
      else its first five records tagged with its site. */
  function Contribution(f: Feed, now: Stamp): (rs: seq<Record>)
    requires EntriesValid(f.entries) && Valid(now)
    ensures |rs| == Min(TopCount, |f.entries|)
    ensures forall i :: 0 <= i < |rs| ==> rs[i] == ParseEntry(f.entries[i], now).(source := f.site)
  {
    if |f.entries| == 0 then []
    else
      var parsed := ParseAll(f.entries, now);
      Tag(f.site, parsed[..Min(TopCount, |parsed|)])
  }

  /** The report before sorting: the feeds' contributions, feed by feed. */
  function Collected(feeds: seq<Feed>, now: Stamp): seq<Record>
    requires FeedsValid(feeds) && Valid(now)
  {
    if feeds == [] then []
    else Collected(feeds[..|feeds| - 1], now) + Contribution(feeds[|feeds| - 1], now)
  }

  // ---------------------------------------------------------------------
  // list.sort(key=time, reverse=True): stable, newest first

  /** x may stand before y: y's time is not after x's. */
  predicate InOrder(x: Record, y: Record)
  {
    !Less(x.time, y.time)
  }

  ghost predicate SortedDesc(s: seq<Record>)
  {
    forall i, j :: 0 <= i < j < |s| ==> InOrder(s[i], s[j])
  }

  /** Insert x after every record whose time is not earlier than its own. */
  function InsertDesc(s: seq<Record>, x: Record): seq<Record>
  {
    if s == [] then [x]
    else if Less(s[0].time, x.time) then [x] + s
    else [s[0]] + InsertDesc(s[1..], x)
  }

  /** The sort as repeated insertion of the next record. */
  function SortDesc(xs: seq<Record>): seq<Record>
  {
    if xs == [] then [] else InsertDesc(SortDesc(xs[..|xs| - 1]), xs[|xs| - 1])
  }

  /** The records of s with the given time text, in order. */
  function WithTime(s: seq<Record>, t: string): seq<Record>
  {
    if s == [] then [] else (if s[0].time == t then [s[0]] else []) + WithTime(s[1..], t)
  }

  /** The records of s from the given site, in order. */
  function FromSite(s: seq<Record>, site: string): seq<Record>
  {
    if s == [] then [] else (if s[0].source == site then [s[0]] else []) + FromSite(s[1..], site)
  }

  lemma {:induction false} InsertDescPerm(s: seq<Record>, x: Record)
    ensures multiset(InsertDesc(s, x)) == multiset(s) + multiset{x}
  {
    if s != [] && !Less(s[0].time, x.time) {
      InsertDescPerm(s[1..], x);
      assert s == [s[0]] + s[1..];
    }
  }

  /** c is not after a and a is before b, so b is not before c. */
  lemma OrderStep(a: string, b: string, c: string)
    requires !Less(a, c) && Less(a, b)
    ensures !Less(b, c)
  {
    LessTotal(a, c);
    if Less(c, a) { LessTransitive(c, a, b); }
    LessTotal(b, c);
  }

  lemma SortedTail(s: seq<Record>)
    requires SortedDesc(s) && s != []
    ensures SortedDesc(s[1..])
    ensures forall y :: y in s[1..] ==> InOrder(s[0], y)
  {
    assert forall i :: 0 <= i < |s[1..]| ==> s[1..][i] == s[i + 1];
  }

  lemma SortedCons(h: Record, t: seq<Record>)
    requires SortedDesc(t)
    requires forall y :: y in t ==> InOrder(h, y)
    ensures SortedDesc([h] + t)
  {
    var r := [h] + t;
    forall i, j | 0 <= i < j < |r| ensures InOrder(r[i], r[j]) {
      assert r[j] == t[j - 1];
      if i > 0 { assert r[i] == t[i - 1]; }
    }
  }

  lemma {:induction false} InsertDescMembers(s: seq<Record>, x: Record)
    ensures forall y :: y in InsertDesc(s, x) ==> y == x || y in s
  {
    if s != [] && !Less(s[0].time, x.time) {
      InsertDescMembers(s[1..], x);
    }
  }

  lemma {:induction false} InsertDescSorted(s: seq<Record>, x: Record)
    requires SortedDesc(s)
    ensures SortedDesc(InsertDesc(s, x))
  {
    if s == [] {
      SortedCons(x, []);
    } else {
      SortedTail(s);
      if Less(s[0].time, x.time) {
        forall y | y in s ensures InOrder(x, y) {
          LessTotal(s[0].time, x.time);
          if y != s[0] {
            assert y in s[1..] by { assert s == [s[0]] + s[1..]; }
            OrderStep(s[0].time, x.time, y.time);
          }
        }
        SortedCons(x, s);
      } else {
        InsertDescSorted(s[1..], x);
        InsertDescMembers(s[1..], x);
        SortedCons(s[0], InsertDesc(s[1..], x));
      }
    }
  }

  lemma {:induction false} WithTimeAppend(xs: seq<Record>, ys: seq<Record>, t: string)
    ensures WithTime(xs + ys, t) == WithTime(xs, t) + WithTime(ys, t)
  {
    if xs == [] {
      assert xs + ys == ys;
    } else {
      var head := if xs[0].time == t then [xs[0]] else [];
      assert (xs + ys)[0] == xs[0] && (xs + ys)[1..] == xs[1..] + ys;
      assert WithTime(xs + ys, t) == head + WithTime(xs[1..] + ys, t);
      WithTimeAppend(xs[1..], ys, t);
      assert WithTime(xs, t) == head + WithTime(xs[1..], t);
    }
  }

  lemma {:induction false} NoneWithTime(s: seq<Record>, t: string)
    requires forall i :: 0 <= i < |s| ==> s[i].time != t
    ensures WithTime(s, t) == []
  {
    if s != [] { NoneWithTime(s[1..], t); }
  }

  /** Insertion keeps the records of equal time in their input order. */
  lemma {:induction false} InsertDescStable(s: seq<Record>, x: Record, t: string)
    requires SortedDesc(s)
    ensures WithTime(InsertDesc(s, x), t) == WithTime(s, t) + (if x.time == t then [x] else [])
  {
    if s == [] {
      assert WithTime([x], t) == (if x.time == t then [x] else []) + WithTime([], t);
    } else if Less(s[0].time, x.time) {
      assert InsertDesc(s, x) == [x] + s;
      WithTimeAppend([x], s, t);
      assert WithTime([x], t) == (if x.time == t then [x] else []) + WithTime([], t);
      if x.time == t {
        forall i | 0 <= i < |s| ensures s[i].time != t {
          if i > 0 { OrderStep(s[0].time, x.time, s[i].time); }
          LessIrreflexive(t);
        }
        NoneWithTime(s, t);
      }
    } else {
      assert SortedDesc(s[1..]) by {
        forall i, j | 0 <= i < j < |s[1..]| ensures InOrder(s[1..][i], s[1..][j]) {
          assert s[1..][i] == s[i + 1] && s[1..][j] == s[j + 1];
        }
      }
      InsertDescStable(s[1..], x, t);
    }
  }

  lemma {:induction false} SortDescSorted(xs: seq<Record>)
    ensures SortedDesc(SortDesc(xs))
  {
    if xs != [] {
      SortDescSorted(xs[..|xs| - 1]);
      InsertDescSorted(SortDesc(xs[..|xs| - 1]), xs[|xs| - 1]);
    }
  }

  lemma {:induction false} SortDescPerm(xs: seq<Record>)
    ensures multiset(SortDesc(xs)) == multiset(xs)
  {
    if xs != [] {
      var init, last := xs[..|xs| - 1], xs[|xs| - 1];
      SortDescPerm(init);
      InsertDescPerm(SortDesc(init), last);
      assert xs == init + [last];
    }
  }

  lemma {:induction false} SortDescStable(xs: seq<Record>, t: string)
    ensures WithTime(SortDesc(xs), t) == WithTime(xs, t)
  {
    if xs != [] {
      var init, last := xs[..|xs| - 1], xs[|xs| - 1];
      SortDescStable(init, t);
      SortDescSorted(init);
      InsertDescStable(SortDesc(init), last, t);
      assert xs == init + [last];
      WithTimeAppend(init, [last], t);
      assert WithTime([last], t) == (if last.time == t then [last] else []) + WithTime([], t);
    }
  }

  /** The sort yields the records newest first, as a permutation of its
      input, and keeps records with equal time text in input order. */
  lemma SortDescSound(xs: seq<Record>)
    ensures SortedDesc(SortDesc(xs))
    ensures multiset(SortDesc(xs)) == multiset(xs)
    ensures forall t :: WithTime(SortDesc(xs), t) == WithTime(xs, t)
  {
    SortDescSorted(xs);
    SortDescPerm(xs);
    forall t ensures WithTime(SortDesc(xs), t) == WithTime(xs, t) {
      SortDescStable(xs, t);
    }
  }

  // ---------------------------------------------------------------------
  // fetch_top5_each_site

  /** The tagging loop: set the source of every kept record to the site. */
  method SetSource(rs: seq<Record>, site: string) returns (ts: seq<Record>)
    ensures ts == Tag(site, rs)
  {
    ts := rs;
    for j := 0 to |ts|
      invariant |ts| == |rs|
      invariant forall k :: 0 <= k < |ts| ==> ts[k] == if k < j then rs[k].(source := site) else rs[k]
    {
      ts := ts[j := ts[j].(source := site)];
    }
  }

  /** The report: every non-empty feed's first five records tagged with its
      site, all of them sorted newest first. */
  method FetchTop5EachSite(feeds: seq<Feed>, now: Stamp) returns (allEntries: seq<Record>)
    requires FeedsValid(feeds) && Valid(now)
    ensures allEntries == SortDesc(Collected(feeds, now))
    ensures SortedDesc(allEntries)
    ensures multiset(allEntries) == multiset(Collected(feeds, now))
  {
    allEntries := [];
    for i := 0 to |feeds|
      invariant allEntries == Collected(feeds[..i], now)
    {
      var feed := feeds[i];
      assert feeds[..i + 1][..i] == feeds[..i];
      assert Collected(feeds[..i + 1], now) == Collected(feeds[..i], now) + Contribution(feed, now);
      if |feed.entries| != 0 {
        var entries := ParseEntries(feed.entries, now);
        var entriesSorted := SetSource(entries[..Min(TopCount, |entries|)], feed.site);
        allEntries := allEntries + entriesSorted;
      }
    }
    assert feeds[..|feeds|] == feeds;
    SortDescSound(allEntries);
    allEntries := SortDesc(allEntries);
  }

  // ---------------------------------------------------------------------
  // What each site contributes to the report

  predicate DistinctSites(feeds: seq<Feed>)
  {
    forall i, j :: 0 <= i < j < |feeds| ==> feeds[i].site != feeds[j].site
  }

  lemma {:induction false} FromSiteAppend(xs: seq<Record>, ys: seq<Record>, site: string)
    ensures FromSite(xs + ys, site) == FromSite(xs, site) + FromSite(ys, site)
  {
    if xs == [] {
      assert xs + ys == ys;
    } else {
      var head := if xs[0].source == site then [xs[0]] else [];
      assert (xs + ys)[0] == xs[0] && (xs + ys)[1..] == xs[1..] + ys;
      assert FromSite(xs + ys, site) == head + FromSite(xs[1..] + ys, site);
      FromSiteAppend(xs[1..], ys, site);
      assert FromSite(xs, site) == head + FromSite(xs[1..], site);
    }
  }

  lemma {:induction false} FromSiteAll(s: seq<Record>, site: string, other: string)
    requires forall i :: 0 <= i < |s| ==> s[i].source == site
    ensures FromSite(s, site) == s
    ensures other != site ==> FromSite(s, other) == []
  {
    if s != [] {
      FromSiteAll(s[1..], site, other);
      assert s == [s[0]] + s[1..];
    }
  }

  /** A feed's contribution, seen from one site: all of it for its own site,
      nothing for any other. */
  lemma ContributionSite(f: Feed, now: Stamp, site: string)
    requires EntriesValid(f.entries) && Valid(now)
    ensures FromSite(Contribution(f, now), site) == if f.site == site then Contribution(f, now) else []
  {
    FromSiteAll(Contribution(f, now), f.site, site);
  }

  /** Before sorting, the records of a listed site are exactly that feed's
      contribution, in order. */
  lemma {:induction false} CollectedSite(feeds: seq<Feed>, now: Stamp, i: nat)
    requires FeedsValid(feeds) && Valid(now) && DistinctSites(feeds) && i < |feeds|
    ensures FromSite(Collected(feeds, now), feeds[i].site) == Contribution(feeds[i], now)
    decreases |feeds|
  {
    var init, last := feeds[..|feeds| - 1], feeds[|feeds| - 1];
    var site := feeds[i].site;
    assert FeedsValid(init) by {
      forall k | 0 <= k < |init| ensures EntriesValid(init[k].entries) { assert init[k] == feeds[k]; }
    }
    FromSiteAppend(Collected(init, now), Contribution(last, now), site);
    ContributionSite(last, now, site);
    if i == |feeds| - 1 {
      NoSite(init, now, site);
    } else {
      assert DistinctSites(init) by {
        forall a, b | 0 <= a < b < |init| ensures init[a].site != init[b].site {
          assert init[a] == feeds[a] && init[b] == feeds[b];
        }
      }
      assert init[i] == feeds[i];
      CollectedSite(init, now, i);
    }
  }

  /** A site that names none of the feeds has no records. */
  lemma {:induction false} NoSite(feeds: seq<Feed>, now: Stamp, site: string)
    requires FeedsValid(feeds) && Valid(now)
    requires forall k :: 0 <= k < |feeds| ==> feeds[k].site != site
    ensures FromSite(Collected(feeds, now), site) == []
    decreases |feeds|
  {
    if feeds != [] {
      var init, last := feeds[..|feeds| - 1], feeds[|feeds| - 1];
      assert FeedsValid(init) by {
        forall k | 0 <= k < |init| ensures EntriesValid(init[k].entries) { assert init[k] == feeds[k]; }
      }
      assert forall k :: 0 <= k < |init| ==> init[k] == feeds[k];
      NoSite(init, now, site);
      FromSiteAppend(Collected(init, now), Contribution(last, now), site);
      ContributionSite(last, now, site);
    }
  }

  /** Picking one site's records commutes with taking the multiset. */
  lemma {:induction false} FromSiteCount(s: seq<Record>, site: string, r: Record)
    ensures multiset(FromSite(s, site))[r] == if r.source == site then multiset(s)[r] else 0
  {
    if s != [] {
      FromSiteCount(s[1..], site, r);
      assert s == [s[0]] + s[1..];
    }
  }

  lemma FromSitePerm(xs: seq<Record>, ys: seq<Record>, site: string)
    requires multiset(xs) == multiset(ys)
    ensures multiset(FromSite(xs, site)) == multiset(FromSite(ys, site))
  {
    forall r ensures multiset(FromSite(xs, site))[r] == multiset(FromSite(ys, site))[r] {
      FromSiteCount(xs, site, r);
      FromSiteCount(ys, site, r);
    }
  }

  /** In the sorted report, a listed site has exactly min(5, n) records: the
      first min(5, n) entries of its feed as records tagged with the site,
      so none when its feed is empty. */
  lemma ReportSite(feeds: seq<Feed>, now: Stamp, i: nat)
    requires FeedsValid(feeds) && Valid(now) && DistinctSites(feeds) && i < |feeds|
    ensures var report := SortDesc(Collected(feeds, now));
      var f := feeds[i];
      multiset(FromSite(report, f.site)) ==
        multiset(Tag(f.site, ParseAll(f.entries, now)[..Min(TopCount, |f.entries|)])) &&
      |FromSite(report, f.site)| == Min(TopCount, |f.entries|)
  {
    var collected := Collected(feeds, now);
    SortDescSound(collected);
    FromSitePerm(SortDesc(collected), collected, feeds[i].site);
    CollectedSite(feeds, now, i);
    var report := SortDesc(collected);
    assert |multiset(FromSite(report, feeds[i].site))| == |FromSite(report, feeds[i].site)|;
  }
}
