/**
 The tracker filter of gtk/FilterBar.cc: tallying the torrents' trackers per URL, and
 merging the sorted result into the rows already shown, in place.
 */
module TrackerFilters {
  import opened Options
  import opened Sequences
  import opened StringOrder

  datatype RowType = All | Separator | Host

  /** A row of the combo box. The id is the row's identity, which the view's own data hangs on. */
  datatype Row = Row(id: nat, kind: RowType, sitename: string, displayname: string, count: nat)

  /** What the tally knows about one tracker URL. */
  datatype Site = Site(sitename: string, url: string, count: nat)

  function ToUpper(c: char): char {
    if 'a' <= c <= 'z' then c - ('a' - 'A') else c
  }

  /** The name shown for a site: its first letter capitalised. */
  function NameFromHost(host: string): string {
    if host == [] then host else [ToUpper(host[0])] + host[1..]
  }

  const CAPITALS := "ABCDEFGHIJKLMNOPQRSTUVWXYZ"

  /** A small first letter gives way to its capital, and nothing else changes. */
  ghost predicate Capitalised(shown: string, name: string) {
    && |shown| == |name| && (name != [] ==> shown[1..] == name[1..])
    && (name != [] ==> shown[0] == if 'a' <= name[0] <= 'z' then CAPITALS[name[0] as int - 'a' as int] else name[0])
  }

  // ----- the tally

  /** The tracker URLs of all torrents, one after the other; a null torrent has none. */
  ghost function AllUrls(torrents: seq<Option<seq<string>>>): seq<string>
    decreases |torrents|
  {
    if torrents == [] then []
    else
      var last := torrents[|torrents| - 1];
      AllUrls(torrents[..|torrents| - 1]) + (if last.Some? then last.value else [])
  }

  ghost function CountTorrents(torrents: seq<Option<seq<string>>>): nat
    decreases |torrents|
  {
    if torrents == [] then 0
    else CountTorrents(torrents[..|torrents| - 1]) + (if torrents[|torrents| - 1].Some? then 1 else 0)
  }

  /** All torrents but the null ones are counted. */
  lemma {:induction false} CountTorrentsMeans(torrents: seq<Option<seq<string>>>)
    ensures CountTorrents(torrents) == |torrents| - multiset(torrents)[None]
    decreases |torrents|
  {
    if torrents != [] {
      FrontAndLast(torrents);
      CountTorrentsMeans(torrents[..|torrents| - 1]);
    }
  }

  /** One entry per URL that occurs, counting its occurrences. */
  ghost predicate Tallies(sites: map<string, Site>, urls: multiset<string>, siteOf: string -> string) {
    && (forall url :: url in sites <==> url in urls)
    && (forall url | url in sites :: sites[url] == Site(siteOf(url), url, urls[url]))
  }

  /** The map with one more occurrence of a URL. */
  function Counted(sites: map<string, Site>, siteOf: string -> string, url: string): map<string, Site> {
    sites[url := Site(siteOf(url), url, (if url in sites then sites[url].count else 0) + 1)]
  }

  lemma CountedTallies(sites: map<string, Site>, urls: multiset<string>, siteOf: string -> string, url: string)
    requires Tallies(sites, urls, siteOf)
    ensures Tallies(Counted(sites, siteOf, url), urls + multiset{url}, siteOf)
  {
  }

  /** The map with one more occurrence of each of the URLs. */
  ghost function CountedAll(sites: map<string, Site>, siteOf: string -> string, urls: seq<string>): map<string, Site>
    decreases |urls|
  {
    if urls == [] then sites
    else Counted(CountedAll(sites, siteOf, urls[..|urls| - 1]), siteOf, urls[|urls| - 1])
  }

  lemma {:induction false} CountedAllTallies(sites: map<string, Site>, seen: multiset<string>, siteOf: string -> string,
                                             urls: seq<string>)
    requires Tallies(sites, seen, siteOf)
    ensures Tallies(CountedAll(sites, siteOf, urls), seen + multiset(urls), siteOf)
    decreases |urls|
  {
    if urls == [] {
      assert seen + multiset(urls) == seen;
    } else {
      var last := |urls| - 1;
      CountedAllTallies(sites, seen, siteOf, urls[..last]);
      CountedTallies(CountedAll(sites, siteOf, urls[..last]), seen + multiset(urls[..last]), siteOf, urls[last]);
      assert urls == urls[..last] + [urls[last]];
      assert seen + multiset(urls) == seen + multiset(urls[..last]) + multiset{urls[last]};
    }
  }

  /** The entries of the tally, in any order. */
  ghost predicate Lists(sites: seq<Site>, tally: map<string, Site>) {
    && (forall i | 0 <= i < |sites| :: sites[i].url in tally && tally[sites[i].url] == sites[i])
    && (forall url | url in tally :: tally[url] in sites)
    && DistinctUrls(sites)
  }

  ghost function TotalCount(sites: seq<Site>): nat
    decreases |sites|
  {
    if sites == [] then 0 else sites[0].count + TotalCount(sites[1..])
  }

  /** How often the URLs of the sites occur in a list. */
  ghost function Occurrences(sites: seq<Site>, urls: seq<string>): nat
    decreases |sites|
  {
    if sites == [] then 0 else multiset(urls)[sites[0].url] + Occurrences(sites[1..], urls)
  }

  ghost predicate HasUrl(sites: seq<Site>, url: string) {
    exists s | s in sites :: s.url == url
  }

  ghost predicate DistinctUrls(sites: seq<Site>) {
    forall i, j | 0 <= i < j < |sites| :: sites[i].url != sites[j].url
  }

  lemma {:induction false} OccurrencesSnoc(sites: seq<Site>, urls: seq<string>, url: string)
    requires DistinctUrls(sites)
    ensures Occurrences(sites, urls + [url]) == Occurrences(sites, urls) + (if HasUrl(sites, url) then 1 else 0)
    decreases |sites|
  {
    if sites != [] {
      OccurrencesSnoc(sites[1..], urls, url);
      assert forall s | s in sites :: s == sites[0] || s in sites[1..];
      assert forall s | s in sites[1..] :: s.url != sites[0].url;
    }
  }

  lemma {:induction false} OccurrencesOfAll(sites: seq<Site>, urls: seq<string>)
    requires DistinctUrls(sites) && forall url | url in urls :: HasUrl(sites, url)
    ensures Occurrences(sites, urls) == |urls|
    decreases |urls|
  {
    if urls == [] {
      NoOccurrences(sites);
    } else {
      var last := |urls| - 1;
      assert urls == urls[..last] + [urls[last]];
      OccurrencesSnoc(sites, urls[..last], urls[last]);
      OccurrencesOfAll(sites, urls[..last]);
    }
  }

  lemma {:induction false} NoOccurrences(sites: seq<Site>)
    ensures Occurrences(sites, []) == 0
    decreases |sites|
  {
    if sites != [] {
      NoOccurrences(sites[1..]);
    }
  }

  lemma {:induction false} CountsAreOccurrences(sites: seq<Site>, urls: seq<string>)
    requires forall s | s in sites :: s.count == multiset(urls)[s.url]
    ensures TotalCount(sites) == Occurrences(sites, urls)
    decreases |sites|
  {
    if sites != [] {
      CountsAreOccurrences(sites[1..], urls);
    }
  }

  /** The counts of all sites together are the number of (torrent, tracker) pairs. */
  lemma CountsAddUp(sites: seq<Site>, tally: map<string, Site>, urls: seq<string>, siteOf: string -> string)
    requires Tallies(tally, multiset(urls), siteOf) && Lists(sites, tally)
    ensures TotalCount(sites) == |urls|
  {
    forall url | url in urls
      ensures HasUrl(sites, url)
    {
      assert tally[url] in sites;
    }
    forall s | s in sites
      ensures s.count == multiset(urls)[s.url]
    {
      var i :| 0 <= i < |sites| && sites[i] == s;
    }
    CountsAreOccurrences(sites, urls);
    OccurrencesOfAll(sites, urls);
  }

  // ----- what a count means

  /** A torrent, if it is there, lists a URL at least once. */
  ghost predicate ListsUrl(torrent: Option<seq<string>>, url: string) {
    torrent.Some? && url in torrent.value
  }

  /** The number of torrents that list a URL, which is what the source calls the count. */
  ghost function TorrentsListing(torrents: seq<Option<seq<string>>>, url: string): nat
    decreases |torrents|
  {
    if torrents == [] then 0
    else TorrentsListing(torrents[..|torrents| - 1], url) + (if ListsUrl(torrents[|torrents| - 1], url) then 1 else 0)
  }

  ghost predicate NoneListsTwice(torrents: seq<Option<seq<string>>>, url: string) {
    forall t | t in torrents && t.Some? :: multiset(t.value)[url] <= 1
  }

  lemma {:induction false} OccurrencesAgainstTorrents(torrents: seq<Option<seq<string>>>, url: string)
    ensures multiset(AllUrls(torrents))[url] >= TorrentsListing(torrents, url)
    ensures multiset(AllUrls(torrents))[url] == TorrentsListing(torrents, url) <==> NoneListsTwice(torrents, url)
    decreases |torrents|
  {
    if torrents != [] {
      var before, last := torrents[..|torrents| - 1], torrents[|torrents| - 1];
      OccurrencesAgainstTorrents(before, url);
      assert torrents == before + [last];
      assert forall t :: t in torrents <==> t in before || t == last;
      assert last.Some? ==> (url in last.value <==> multiset(last.value)[url] > 0);
    }
  }

  /** A site's count is the number of torrents that list it exactly when none of them lists it twice. */
  lemma CountIsTorrentsIff(tally: map<string, Site>, torrents: seq<Option<seq<string>>>, siteOf: string -> string,
                           url: string)
    requires Tallies(tally, multiset(AllUrls(torrents)), siteOf) && url in tally
    ensures tally[url].count == TorrentsListing(torrents, url) <==> NoneListsTwice(torrents, url)
  {
    OccurrencesAgainstTorrents(torrents, url);
  }

  /** A single torrent that lists one URL twice is counted as two. */
  lemma OneTorrentCountedTwice(tally: map<string, Site>, torrents: seq<Option<seq<string>>>, siteOf: string -> string,
                               url: string)
    requires torrents == [Some([url, url])] && Tallies(tally, multiset(AllUrls(torrents)), siteOf)
    ensures TorrentsListing(torrents, url) == 1
    ensures url in tally && tally[url].count == 2
  {
    assert torrents[..0] == [];
    assert AllUrls(torrents) == [] + [url, url];
  }

  // ----- the merge, as a function

  function NewRow(id: nat, site: Site): Row {
    Row(id, Host, site.sitename, NameFromHost(site.sitename), site.count)
  }

  /** The host rows after the merge; new rows are numbered from next on. */
  ghost function Merged(rows: seq<Row>, sites: seq<Site>, next: nat): seq<Row>
    decreases |rows| + |sites|
  {
    if sites == [] then []
    else if rows == [] || Less(sites[0].sitename, rows[0].sitename) then
      [NewRow(next, sites[0])] + Merged(rows, sites[1..], next + 1)
    else if Less(rows[0].sitename, sites[0].sitename) then Merged(rows[1..], sites, next)
    else [rows[0].(count := sites[0].count)] + Merged(rows[1..], sites[1..], next)
  }

  /** How many rows the merge inserts. */
  ghost function Inserted(rows: seq<Row>, sites: seq<Site>): nat
    decreases |rows| + |sites|
  {
    if sites == [] then 0
    else if rows == [] || Less(sites[0].sitename, rows[0].sitename) then 1 + Inserted(rows, sites[1..])
    else if Less(rows[0].sitename, sites[0].sitename) then Inserted(rows[1..], sites)
    else Inserted(rows[1..], sites[1..])
  }

  /** A row of a tracker site, as it should look. */
  ghost predicate ShowsSite(r: Row, site: Site) {
    r.kind == Host && r.sitename == site.sitename && r.displayname == NameFromHost(site.sitename) && r.count == site.count
  }

  ghost predicate HostRows(rows: seq<Row>) {
    forall r | r in rows :: r.kind == Host && r.displayname == NameFromHost(r.sitename)
  }

  ghost predicate ShowsSites(rows: seq<Row>, sites: seq<Site>) {
    |rows| == |sites| && forall i | 0 <= i < |sites| :: ShowsSite(rows[i], sites[i])
  }

  lemma ShowsOneMore(r: Row, rows: seq<Row>, sites: seq<Site>)
    requires sites != [] && ShowsSite(r, sites[0]) && ShowsSites(rows, sites[1..])
    ensures ShowsSites([r] + rows, sites)
  {
    assert sites == [sites[0]] + sites[1..];
  }

  /** Whatever rows there were, in whatever order, afterwards they are the sites, one by one. */
  lemma {:induction false} MergedShowsSites(rows: seq<Row>, sites: seq<Site>, next: nat)
    requires HostRows(rows)
    ensures ShowsSites(Merged(rows, sites, next), sites)
    decreases |rows| + |sites|
  {
    if sites != [] {
      if rows == [] || Less(sites[0].sitename, rows[0].sitename) {
        MergedShowsSites(rows, sites[1..], next + 1);
        ShowsOneMore(NewRow(next, sites[0]), Merged(rows, sites[1..], next + 1), sites);
      } else if Less(rows[0].sitename, sites[0].sitename) {
        MergedShowsSites(rows[1..], sites, next);
      } else {
        LessIsTotal(rows[0].sitename, sites[0].sitename);
        assert rows[0] in rows;
        MergedShowsSites(rows[1..], sites[1..], next);
        ShowsOneMore(rows[0].(count := sites[0].count), Merged(rows[1..], sites[1..], next), sites);
      }
    }
  }

  ghost predicate DistinctIds(rows: seq<Row>) {
    forall i, j | 0 <= i < j < |rows| :: rows[i].id != rows[j].id
  }

  ghost predicate IdsBelow(rows: seq<Row>, next: nat) {
    forall r | r in rows :: r.id < next
  }

  /** A row that is there afterwards is an old one with at most its count changed, or has a new id. */
  ghost predicate FromOldOrNew(r: Row, rows: seq<Row>, first: nat, next: nat) {
    first <= r.id < next || exists o | o in rows :: r == o.(count := r.count)
  }

  lemma {:induction false} MergedKeepsRows(rows: seq<Row>, sites: seq<Site>, next: nat)
    ensures forall r | r in Merged(rows, sites, next) :: FromOldOrNew(r, rows, next, next + Inserted(rows, sites))
    decreases |rows| + |sites|
  {
    if sites != [] {
      if rows == [] || Less(sites[0].sitename, rows[0].sitename) {
        MergedKeepsRows(rows, sites[1..], next + 1);
      } else if Less(rows[0].sitename, sites[0].sitename) {
        MergedKeepsRows(rows[1..], sites, next);
        assert forall o | o in rows[1..] :: o in rows;
      } else {
        MergedKeepsRows(rows[1..], sites[1..], next);
        assert forall o | o in rows[1..] :: o in rows;
        assert rows[0] in rows;
      }
    }
  }

  lemma {:induction false} MergedKeepsIdsDistinct(rows: seq<Row>, sites: seq<Site>, next: nat)
    requires DistinctIds(rows) && IdsBelow(rows, next)
    ensures DistinctIds(Merged(rows, sites, next))
    ensures IdsBelow(Merged(rows, sites, next), next + Inserted(rows, sites))
    decreases |rows| + |sites|
  {
    MergedKeepsRows(rows, sites, next);
    if sites != [] {
      if rows == [] || Less(sites[0].sitename, rows[0].sitename) {
        MergedKeepsIdsDistinct(rows, sites[1..], next + 1);
        MergedKeepsRows(rows, sites[1..], next + 1);
        NewIdIsApart(Merged(rows, sites[1..], next + 1), rows, next, next + 1, next + 1 + Inserted(rows, sites[1..]));
      } else if Less(rows[0].sitename, sites[0].sitename) {
        MergedKeepsIdsDistinct(rows[1..], sites, next);
      } else {
        MergedKeepsIdsDistinct(rows[1..], sites[1..], next);
        MergedKeepsRows(rows[1..], sites[1..], next);
        NewIdIsApart(Merged(rows[1..], sites[1..], next), rows[1..], rows[0].id, next, next + Inserted(rows[1..], sites[1..]));
      }
    }
  }

  lemma NewIdIsApart(merged: seq<Row>, rows: seq<Row>, id: nat, first: nat, next: nat)
    requires forall r | r in merged :: FromOldOrNew(r, rows, first, next)
    requires id < first && forall o | o in rows :: o.id != id
    ensures forall r | r in merged :: r.id != id
  {
  }

  // ----- how many rows survive

  ghost function RowsNamed(rows: seq<Row>, name: string): nat
    decreases |rows|
  {
    if rows == [] then 0 else (if rows[0].sitename == name then 1 else 0) + RowsNamed(rows[1..], name)
  }

  ghost function SitesNamed(sites: seq<Site>, name: string): nat
    decreases |sites|
  {
    if sites == [] then 0 else (if sites[0].sitename == name then 1 else 0) + SitesNamed(sites[1..], name)
  }

  /** Rows of that name whose id is an old one. */
  ghost function KeptNamed(rows: seq<Row>, name: string, first: nat): nat
    decreases |rows|
  {
    if rows == [] then 0
    else (if rows[0].sitename == name && rows[0].id < first then 1 else 0) + KeptNamed(rows[1..], name, first)
  }

  ghost predicate SortedRows(rows: seq<Row>) {
    forall i, j | 0 <= i < j < |rows| :: !Less(rows[j].sitename, rows[i].sitename)
  }

  ghost predicate SortedSites(sites: seq<Site>) {
    forall i, j | 0 <= i < j < |sites| :: !Less(sites[j].sitename, sites[i].sitename)
  }

  /** The names of the rows ascend, character by character; equal ones stand together. */
  ghost predicate NamesAscend(rows: seq<Row>) {
    forall i, j | 0 <= i < j < |rows| ::
      rows[i].sitename == rows[j].sitename || ComesBefore(rows[i].sitename, rows[j].sitename)
  }

  ghost predicate NamesCapitalised(rows: seq<Row>) {
    forall i | 0 <= i < |rows| :: Capitalised(rows[i].displayname, rows[i].sitename)
  }

  ghost predicate SitesAscend(sites: seq<Site>) {
    forall i, j | 0 <= i < j < |sites| ::
      sites[i].sitename == sites[j].sitename || ComesBefore(sites[i].sitename, sites[j].sitename)
  }

  lemma SortedSitesAscend(sites: seq<Site>)
    requires SortedSites(sites)
    ensures SitesAscend(sites)
  {
    forall i, j | 0 <= i < j < |sites|
      ensures sites[i].sitename == sites[j].sitename || ComesBefore(sites[i].sitename, sites[j].sitename)
    {
      LessIsTotal(sites[i].sitename, sites[j].sitename);
      LessIff(sites[i].sitename, sites[j].sitename);
    }
  }

  lemma NameIsCapitalised(host: string)
    ensures Capitalised(NameFromHost(host), host)
  {
    if host != [] && 'a' <= host[0] <= 'z' {
      var n := host[0] as int - 'a' as int;
      assert CAPITALS[n] == ('A' as int + n) as char;
    }
  }

  /** What an update comes to for the one who reads the rows. */
  lemma RowsReadAscending(rows: seq<Row>, sites: seq<Site>)
    requires ShowsSites(rows, sites) && SitesAscend(sites)
    ensures NamesAscend(rows) && NamesCapitalised(rows)
  {
    forall i | 0 <= i < |rows|
      ensures Capitalised(rows[i].displayname, rows[i].sitename)
    {
      assert ShowsSite(rows[i], sites[i]);
      NameIsCapitalised(rows[i].sitename);
    }
  }

  lemma NotLessThenLess(a: string, b: string, c: string)
    requires Less(a, b) && !Less(c, b)
    ensures Less(a, c)
  {
    LessIsTotal(b, c);
    if Less(b, c) {
      LessIsTransitive(a, b, c);
    }
  }

  /** In a sorted list whose first name is larger, the name does not occur. */
  lemma {:induction false} NoRowsBelow(rows: seq<Row>, name: string)
    requires SortedRows(rows) && (rows != [] ==> Less(name, rows[0].sitename))
    ensures RowsNamed(rows, name) == 0
    decreases |rows|
  {
    if rows != [] {
      LessIsTotal(name, name);
      if |rows| > 1 {
        NotLessThenLess(name, rows[0].sitename, rows[1].sitename);
      }
      NoRowsBelow(rows[1..], name);
    }
  }

  lemma {:induction false} NoSitesBelow(sites: seq<Site>, name: string)
    requires SortedSites(sites) && (sites != [] ==> Less(name, sites[0].sitename))
    ensures SitesNamed(sites, name) == 0
    decreases |sites|
  {
    if sites != [] {
      LessIsTotal(name, name);
      if |sites| > 1 {
        NotLessThenLess(name, sites[0].sitename, sites[1].sitename);
      }
      NoSitesBelow(sites[1..], name);
    }
  }

  lemma KeptFirst(r: Row, rows: seq<Row>, name: string, first: nat)
    ensures KeptNamed([r] + rows, name, first) ==
            KeptNamed(rows, name, first) + if r.sitename == name && r.id < first then 1 else 0
  {
    assert ([r] + rows)[1..] == rows;
  }

  /**
   With both sides sorted, of the rows of each name as many survive as possible, names that
   occur several times included; no row is taken out and made anew without need.
   */
  lemma {:induction false} MergedKeepsMost(rows: seq<Row>, sites: seq<Site>, next: nat, name: string, first: nat)
    requires SortedRows(rows) && SortedSites(sites) && IdsBelow(rows, first) && first <= next
    ensures KeptNamed(Merged(rows, sites, next), name, first) == Min(RowsNamed(rows, name), SitesNamed(sites, name))
    decreases |rows| + |sites|
  {
    if sites == [] {
    } else if rows == [] || Less(sites[0].sitename, rows[0].sitename) {
      KeptFirst(NewRow(next, sites[0]), Merged(rows, sites[1..], next + 1), name, first);
      MergedKeepsMost(rows, sites[1..], next + 1, name, first);
      if sites[0].sitename == name {
        NoRowsBelow(rows, name);
      }
    } else if Less(rows[0].sitename, sites[0].sitename) {
      MergedKeepsMost(rows[1..], sites, next, name, first);
      if rows[0].sitename == name {
        NoSitesBelow(sites, name);
      }
    } else {
      LessIsTotal(rows[0].sitename, sites[0].sitename);
      KeptFirst(rows[0].(count := sites[0].count), Merged(rows[1..], sites[1..], next), name, first);
      MergedKeepsMost(rows[1..], sites[1..], next, name, first);
    }
  }

  /** The site rows: all of them hosts, no identity twice or still to be given out, and sorted. */
  ghost predicate HostsInOrder(rows: seq<Row>, next: nat) {
    HostRows(rows) && DistinctIds(rows) && IdsBelow(rows, next) && SortedRows(rows)
  }

  /** No row is taken out and made anew without need, and no identity is used for another row. */
  ghost predicate MergedWell(rows: seq<Row>, after: seq<Row>, sites: seq<Site>, first: nat, next: nat) {
    && (forall name :: KeptNamed(after, name, first) == Min(RowsNamed(rows, name), SitesNamed(sites, name)))
    && (forall r | r in after :: FromOldOrNew(r, rows, first, next))
  }

  lemma MergedIsWell(rows: seq<Row>, sites: seq<Site>, next: nat)
    requires HostsInOrder(rows, next) && SortedSites(sites)
    ensures
      var after := Merged(rows, sites, next);
      && HostsInOrder(after, next + Inserted(rows, sites)) && ShowsSites(after, sites)
      && MergedWell(rows, after, sites, next, next + Inserted(rows, sites))
  {
    MergedShowsSites(rows, sites, next);
    MergedKeepsRows(rows, sites, next);
    MergedKeepsIdsDistinct(rows, sites, next);
    SortedAsSites(Merged(rows, sites, next), sites);
    forall name: string
      ensures KeptNamed(Merged(rows, sites, next), name, next) == Min(RowsNamed(rows, name), SitesNamed(sites, name))
    {
      MergedKeepsMost(rows, sites, next, name, next);
    }
  }

  // ----- one round of the merge

  /** What the rows come to when those from iter on are still to be merged with the sites from i on. */
  ghost function Outcome(rows: seq<Row>, iter: nat, sites: seq<Site>, i: nat, next: nat): seq<Row>
    requires iter <= |rows| && i <= |sites|
  {
    rows[..iter] + Merged(rows[iter..], sites[i..], next)
  }

  lemma RemoveStep(rows: seq<Row>, iter: nat, sites: seq<Site>, i: nat, next: nat)
    requires iter < |rows| && i <= |sites| && (i < |sites| ==> Less(rows[iter].sitename, sites[i].sitename))
    ensures
      var after := rows[..iter] + rows[iter + 1..];
      && Outcome(after, iter, sites, i, next) == Outcome(rows, iter, sites, i, next)
      && Inserted(after[iter..], sites[i..]) == Inserted(rows[iter..], sites[i..])
  {
    var after := rows[..iter] + rows[iter + 1..];
    assert after[..iter] == rows[..iter] && after[iter..] == rows[iter..][1..];
    if i < |sites| {
      LessIsTotal(rows[iter].sitename, sites[i].sitename);
    }
  }

  lemma InsertStep(rows: seq<Row>, iter: nat, sites: seq<Site>, i: nat, next: nat)
    requires iter <= |rows| && i < |sites| && (iter < |rows| ==> Less(sites[i].sitename, rows[iter].sitename))
    ensures
      var after := rows[..iter] + [NewRow(next, sites[i])] + rows[iter..];
      && Outcome(after, iter + 1, sites, i + 1, next + 1) == Outcome(rows, iter, sites, i, next)
      && 1 + Inserted(after[iter + 1..], sites[i + 1..]) == Inserted(rows[iter..], sites[i..])
  {
    var row := NewRow(next, sites[i]);
    var after := rows[..iter] + [row] + rows[iter..];
    assert after[..iter + 1] == rows[..iter] + [row] && after[iter + 1..] == rows[iter..];
    assert sites[i..][1..] == sites[i + 1..];
    MoveOver(rows[..iter], row, Merged(rows[iter..], sites[i + 1..], next + 1));
  }

  lemma UpdateStep(rows: seq<Row>, iter: nat, sites: seq<Site>, i: nat, next: nat)
    requires iter < |rows| && i < |sites|
    requires !Less(sites[i].sitename, rows[iter].sitename) && !Less(rows[iter].sitename, sites[i].sitename)
    ensures
      var after := rows[iter := rows[iter].(count := sites[i].count)];
      && Outcome(after, iter + 1, sites, i + 1, next) == Outcome(rows, iter, sites, i, next)
      && Inserted(after[iter + 1..], sites[i + 1..]) == Inserted(rows[iter..], sites[i..])
  {
    var row := rows[iter].(count := sites[i].count);
    var after := rows[iter := row];
    assert after[..iter + 1] == rows[..iter] + [row] && after[iter + 1..] == rows[iter..][1..];
    assert sites[i..][1..] == sites[i + 1..];
    MoveOver(rows[..iter], row, Merged(rows[iter + 1..], sites[i + 1..], next));
  }

  // ----- the filter bar

  class FilterBar {
    /** "All", the separator, and one row per site. */
    var rows: seq<Row>
    var nextId: nat

    ghost predicate Valid()
      reads this
    {
      && |rows| >= 2 && rows[0].kind == All && rows[1].kind == Separator
      && HostsInOrder(rows[2..], nextId)
    }

    constructor ()
      ensures Valid() && rows[2..] == []
    {
      rows := [Row(0, All, "", "All", 0), Row(1, Separator, "", "", 0)];
      nextId := 2;
    }

    /** One torrent's trackers. */
    method TallyTorrent(before: map<string, Site>, urls: seq<string>, siteOf: string -> string)
      returns (sites: map<string, Site>)
      ensures sites == CountedAll(before, siteOf, urls)
    {
      sites := before;
      for j := 0 to |urls|
        invariant sites == CountedAll(before, siteOf, urls[..j])
      {
        assert urls[..j + 1][..j] == urls[..j];
        sites := Counted(sites, siteOf, urls[j]);
      }
      assert urls[..|urls|] == urls;
    }

    /** Walks all torrents and their trackers, filling the map of sites. */
    method Tally(torrents: seq<Option<seq<string>>>, siteOf: string -> string)
      returns (sites: map<string, Site>, numTorrents: nat)
      ensures Tallies(sites, multiset(AllUrls(torrents)), siteOf) && numTorrents == CountTorrents(torrents)
    {
      sites, numTorrents := map[], 0;
      for i := 0 to |torrents|
        invariant Tallies(sites, multiset(AllUrls(torrents[..i])), siteOf) && numTorrents == CountTorrents(torrents[..i])
      {
        UrlsSnoc(torrents, i);
        if torrents[i].None? {
          continue;
        }
        CountedAllTallies(sites, multiset(AllUrls(torrents[..i])), siteOf, torrents[i].value);
        sites := TallyTorrent(sites, torrents[i].value, siteOf);
        numTorrents := numTorrents + 1;
      }
      assert torrents[..|torrents|] == torrents;
    }

    /**
     The merge loop: an iterator over the rows and an index into the sites; each round erases
     the row, inserts one before it, or updates it and moves on.
     */
    method Merge(sites: seq<Site>)
      requires |rows| >= 2
      modifies this
      ensures rows == old(rows)[..2] + Merged(old(rows)[2..], sites, old(nextId))
      ensures nextId == old(nextId) + Inserted(old(rows)[2..], sites)
    {
      var iter, i := 2, 0;
      while i < |sites| || iter < |rows|
        invariant 2 <= iter <= |rows| && i <= |sites|
        invariant Outcome(rows, iter, sites, i, nextId) == Outcome(old(rows), 2, sites, 0, old(nextId))
        invariant nextId + Inserted(rows[iter..], sites[i..]) == old(nextId) + Inserted(old(rows)[2..], sites[0..])
        decreases |sites| - i + |rows| - iter, |sites| - i
      {
        var removeRow, insertRow := false, false;
        if i >= |sites| {
          removeRow := true;
        } else if iter >= |rows| {
          insertRow := true;
        } else if Less(rows[iter].sitename, sites[i].sitename) {
          removeRow := true;
        } else if Less(sites[i].sitename, rows[iter].sitename) {
          insertRow := true;
        }
        if removeRow {
          RemoveStep(rows, iter, sites, i, nextId);
          rows := rows[..iter] + rows[iter + 1..];
        } else if insertRow {
          InsertStep(rows, iter, sites, i, nextId);
          rows := rows[..iter] + [NewRow(nextId, sites[i])] + rows[iter..];
          nextId := nextId + 1;
          iter := iter + 1;
          i := i + 1;
        } else {
          UpdateStep(rows, iter, sites, i, nextId);
          UpdateCount(iter, sites[i].count);
          iter := iter + 1;
          i := i + 1;
        }
      }
      assert sites[0..] == sites;
      assert rows == rows[..iter] + [];
    }

    /** The values of the tally; the order in which the hash map is walked is left open. */
    method ListSites(tally: map<string, Site>) returns (sites: seq<Site>)
      requires forall url | url in tally :: tally[url].url == url
      ensures Lists(sites, tally)
    {
      sites := [];
      var left := tally.Keys;
      while left != {}
        invariant left <= tally.Keys && DistinctUrls(sites)
        invariant forall s | s in sites :: s.url in tally && s.url !in left && tally[s.url] == s
        invariant forall url | url in tally && url !in left :: tally[url] in sites
      {
        var url :| url in left;
        sites := sites + [tally[url]];
        left := left - {url};
      }
    }

    /** Stands in for std::sort: all that is promised is a sorted list of the same sites. */
    method SortSites(listed: seq<Site>) returns (sites: seq<Site>)
      ensures SortedSites(sites) && multiset(sites) == multiset(listed)
    {
      sites := [];
      for n := 0 to |listed|
        invariant SortedSites(sites) && multiset(sites) == multiset(listed[..n])
      {
        var site, k := listed[n], 0;
        while k < |sites| && !Less(site.sitename, sites[k].sitename)
          invariant k <= |sites| && forall i | 0 <= i < k :: !Less(site.sitename, sites[i].sitename)
        {
          k := k + 1;
        }
        InsertedIsSorted(sites, k, site);
        assert sites == sites[..k] + sites[k..] && listed[..n + 1] == listed[..n] + [site];
        sites := sites[..k] + [site] + sites[k..];
      }
      assert listed[..|listed|] == listed;
    }

    /** Tallies the torrents' trackers, lists the sites and sorts them. */
    method SortedTally(torrents: seq<Option<seq<string>>>, siteOf: string -> string)
      returns (sites: seq<Site>, numTorrents: nat)
      ensures SortedListing(sites, AllUrls(torrents), siteOf) && TotalCount(sites) == |AllUrls(torrents)|
      ensures SitesAscend(sites)
      ensures numTorrents == CountTorrents(torrents)
    {
      var tally;
      tally, numTorrents := Tally(torrents, siteOf);
      var listed := ListSites(tally);
      sites := SortSites(listed);
      PermutationLists(listed, sites, tally);
      ListingOfTally(sites, tally, AllUrls(torrents), siteOf);
      CountsAddUp(sites, tally, AllUrls(torrents), siteOf);
      SortedSitesAscend(sites);
    }

    /** One update of the filter. The sorted sites are handed back, for what is said about them. */
    method TrackerFilterModelUpdate(torrents: seq<Option<seq<string>>>, siteOf: string -> string)
      returns (sites: seq<Site>)
      requires Valid()
      modifies this
      ensures Valid()
      ensures SortedListing(sites, AllUrls(torrents), siteOf)
      ensures rows[0] == old(rows)[0].(count := |torrents| - multiset(torrents)[None]) && rows[1] == old(rows)[1]
      ensures ShowsSites(rows[2..], sites) && NamesAscend(rows[2..]) && NamesCapitalised(rows[2..])
      ensures TotalCount(sites) == |AllUrls(torrents)|
      ensures MergedWell(old(rows)[2..], rows[2..], sites, old(nextId), nextId)
    {
      var numTorrents;
      sites, numTorrents := SortedTally(torrents, siteOf);
      CountTorrentsMeans(torrents);
      ghost var was := rows[2..];
      UpdateCount(0, numTorrents);
      assert rows[2..] == was;
      Merge(sites);
      assert rows[2..] == Merged(was, sites, old(nextId));
      MergedIsWell(was, sites, old(nextId));
      RowsReadAscending(rows[2..], sites);
    }

    /** Writes the count of a row unless it is there already. */
    method UpdateCount(iter: nat, n: nat)
      requires iter < |rows|
      modifies this`rows
      ensures rows == old(rows)[iter := old(rows)[iter].(count := n)]
    {
      if n != rows[iter].count {
        rows := rows[iter := rows[iter].(count := n)];
      }
    }
  }

  /** Some listing of the tally of these URLs, sorted by name. */
  ghost predicate SortedListing(sites: seq<Site>, urls: seq<string>, siteOf: string -> string) {
    && DistinctUrls(sites) && SortedSites(sites)
    && (forall s | s in sites :: s.url in urls && s == Site(siteOf(s.url), s.url, multiset(urls)[s.url]))
    && (forall url | url in urls :: HasUrl(sites, url))
  }

  lemma InsertedIsSorted(sites: seq<Site>, k: nat, site: Site)
    requires SortedSites(sites) && k <= |sites|
    requires forall i | 0 <= i < k :: !Less(site.sitename, sites[i].sitename)
    requires k < |sites| ==> Less(site.sitename, sites[k].sitename)
    ensures SortedSites(sites[..k] + [site] + sites[k..])
  {
    forall j | k <= j < |sites|
      ensures !Less(sites[j].sitename, site.sitename)
    {
      LessIsTotal(site.sitename, sites[k].sitename);
      if Less(sites[j].sitename, site.sitename) {
        LessIsTransitive(sites[j].sitename, site.sitename, sites[k].sitename);
      }
    }
  }

  /** Sorting the entries of a map lists them still. */
  lemma PermutationLists(listed: seq<Site>, sites: seq<Site>, tally: map<string, Site>)
    requires Lists(listed, tally) && multiset(sites) == multiset(listed)
    ensures Lists(sites, tally)
  {
    forall s
      ensures s in sites <==> s in listed
      ensures multiset(sites)[s] <= 1
    {
      assert s in sites <==> s in multiset(sites);
      assert s in listed <==> s in multiset(listed);
      DistinctIsCountedOnce(listed, s);
    }
    CountedOnceIsDistinct(sites);
    assert forall i | 0 <= i < |sites| :: sites[i] in listed;
  }

  lemma ListingOfTally(sites: seq<Site>, tally: map<string, Site>, urls: seq<string>, siteOf: string -> string)
    requires Lists(sites, tally) && SortedSites(sites) && Tallies(tally, multiset(urls), siteOf)
    ensures SortedListing(sites, urls, siteOf)
  {
    forall s | s in sites
      ensures s.url in urls && s == Site(siteOf(s.url), s.url, multiset(urls)[s.url])
    {
      var i :| 0 <= i < |sites| && sites[i] == s;
    }
    forall url | url in urls
      ensures HasUrl(sites, url)
    {
      assert tally[url] in sites;
    }
  }

  lemma SortedAsSites(rows: seq<Row>, sites: seq<Site>)
    requires SortedSites(sites) && ShowsSites(rows, sites)
    ensures SortedRows(rows) && HostRows(rows)
  {
  }

  lemma UrlsSnoc(torrents: seq<Option<seq<string>>>, i: nat)
    requires i < |torrents|
    ensures AllUrls(torrents[..i + 1]) ==
            AllUrls(torrents[..i]) + (if torrents[i].Some? then torrents[i].value else [])
    ensures CountTorrents(torrents[..i + 1]) == CountTorrents(torrents[..i]) + (if torrents[i].Some? then 1 else 0)
  {
    assert torrents[..i + 1][..i] == torrents[..i];
  }

}
