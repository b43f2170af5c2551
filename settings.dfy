/** The in-memory configuration (`config` in mangoose.py) and the operations that change
    it: setting the downloads folder, adding and deleting a series, and the incremental sync
    (`eat` and `eat_mango`). Every `json.dump` of the configuration to `settings.json` is
    recorded as one more snapshot in the ghost history `saves`. */
module Settings {
  import opened Listing
  import opened Pages
  import opened Sanitise
  import opened Sync

  /** One tracked series: the URL of its index page and the identifiers of the chapters
      downloaded so far, in the order they were downloaded. */
  datatype Series = Series(url: string, downloaded: seq<string>)

  /** The whole configuration as it is written to `settings.json`. */
  datatype Snapshot = Snapshot(downloadsFolder: string, series: map<string, Series>)

  /** The downloads folder of a configuration that starts without a `settings.json`. */
  const DefaultDownloadsFolder := "C:\\tmp"

  /** The directory a chapter is downloaded into, as its path components: the downloads
      folder, the sanitised series name and the sanitised chapter title. */
  function ChapterDir(folder: string, seriesTitle: string, chapterTitle: string): seq<string>
  {
    [folder, Validate(seriesTitle), Validate(chapterTitle)]
  }

  /** One chapter downloaded by a pass: where its files went, and the files. */
  datatype ChapterDownload = ChapterDownload(dir: seq<string>, files: seq<PageFile>)

  /** The chapters of the chapter table `table` that a pass over series `s` downloads, in
      the order it downloads them. */
  function NewChapters(s: Series, table: seq<Link>): seq<Chapter>
  {
    Pending(Reverse(Entries(table)), s.downloaded)
  }

  /** The series record after a complete pass over the chapter table `table`: the pass
      visits the table from its last link to its first, and appends each visited
      identifier that is not in the list yet. */
  function Synced(s: Series, table: seq<Link>): Series
    decreases |table|, 1
  {
    if table == [] then s else SyncedFirst(s, table)
  }

  /** The first link of the table is visited last, after the rest of the table. */
  function SyncedFirst(s: Series, table: seq<Link>): Series
    requires table != []
    decreases |table|, 0
  {
    var rest := Synced(s, table[1..]);
    var id := ChapterKey(EntryOf(table[0]));
    if id in rest.downloaded then rest else rest.(downloaded := rest.downloaded + [id])
  }

  /** The first link of the table is the last chapter visited: it is downloaded exactly
      when its identifier is neither in the list nor among the chapters downloaded
      before it. */
  lemma NewChaptersFront(s: Series, table: seq<Link>)
    requires table != []
    ensures var before := NewChapters(s, table[1..]);
      var c := EntryOf(table[0]);
      NewChapters(s, table) ==
        if ChapterKey(c) in s.downloaded + IdsOf(before) then before else before + [c]
  {
    var c := EntryOf(table[0]);
    var v := Reverse(Entries(table[1..]));
    EntriesFront(table);
    ReverseCons(c, Entries(table[1..]));
    assert (v + [c])[..|v|] == v;
  }

  /** A table whose identifiers are pairwise distinct and all new is downloaded in full,
      from its last link to its first. */
  lemma NewChaptersReversed(s: Series, table: seq<Link>)
    requires forall i, j :: 0 <= i < j < |table| ==>
      ChapterKey(EntryOf(table[i])) != ChapterKey(EntryOf(table[j]))
    requires forall k :: 0 <= k < |table| ==> ChapterKey(EntryOf(table[k])) !in s.downloaded
    ensures |NewChapters(s, table)| == |table|
    ensures forall k :: 0 <= k < |table| ==> NewChapters(s, table)[k] == EntryOf(table[|table| - 1 - k])
  {
    var entries := Entries(table);
    EntriesAt(table);
    forall i, j | 0 <= i < j < |entries|
      ensures ChapterKey(entries[i]) != ChapterKey(entries[j])
    {
    }
    PendingReversed(entries, s.downloaded);
    ReverseAt(entries);
  }

  /** A pass appends to the list exactly the identifiers of the chapters it downloads,
      in the order it downloads them. */
  lemma {:induction false} SyncedIsPending(s: Series, table: seq<Link>)
    ensures Synced(s, table) == s.(downloaded := s.downloaded + IdsOf(NewChapters(s, table)))
    decreases |table|
  {
    if table == [] {
      assert s.downloaded + [] == s.downloaded;
    } else {
      SyncedIsPending(s, table[1..]);
      NewChaptersFront(s, table);
      SyncStep(s, Synced(s, table[1..]), NewChapters(s, table[1..]), NewChapters(s, table), EntryOf(table[0]));
    }
  }

  /** One visited chapter `c`: the record `rest` whose list has the identifiers of
      `before` appended gets the identifier of `c` appended exactly when `after`, the
      chapters downloaded once `c` is visited too, has `c` added. */
  lemma SyncStep(s: Series, rest: Series, before: seq<Chapter>, after: seq<Chapter>, c: Chapter)
    requires rest == s.(downloaded := s.downloaded + IdsOf(before))
    requires after == if ChapterKey(c) in s.downloaded + IdsOf(before) then before else before + [c]
    ensures s.(downloaded := s.downloaded + IdsOf(after)) ==
      if ChapterKey(c) in rest.downloaded then rest
      else rest.(downloaded := rest.downloaded + [ChapterKey(c)])
  {
    IdsOfAppend(before, c);
    assert s.downloaded + (IdsOf(before) + [ChapterKey(c)]) == (s.downloaded + IdsOf(before)) + [ChapterKey(c)];
  }

  /** The series of configuration `m` once the chapters `ids` of series `title` are
      downloaded. */
  function WithDownloaded(m: map<string, Series>, title: string, ids: seq<string>): map<string, Series>
    requires title in m
  {
    m[title := m[title].(downloaded := m[title].downloaded + ids)]
  }

  /** Appending one more identifier to the series' list, in the configuration that
      already has `ids` appended. */
  lemma WithDownloadedNext(m: map<string, Series>, title: string, ids: seq<string>, id: string)
    requires title in m
    ensures var current := WithDownloaded(m, title, ids);
      current[title := current[title].(downloaded := current[title].downloaded + [id])] ==
        WithDownloaded(m, title, ids + [id])
  {
    var next := m[title].(downloaded := m[title].downloaded + (ids + [id]));
    assert (m[title].downloaded + ids) + [id] == m[title].downloaded + (ids + [id]);
    UpdateTwice(m, title, m[title].(downloaded := m[title].downloaded + ids), next);
  }

  /** The snapshots saved by a pass over series `title` of configuration `m` that downloads
      the chapters `ids`, one after each chapter. */
  function Checkpoints(folder: string, m: map<string, Series>, title: string, ids: seq<string>)
    : (saved: seq<Snapshot>)
    requires title in m
    ensures |saved| == |ids|
    decreases |ids|
  {
    if ids == [] then []
    else Checkpoints(folder, m, title, ids[..|ids| - 1]) + [Snapshot(folder, WithDownloaded(m, title, ids))]
  }

  lemma CheckpointsNext(folder: string, m: map<string, Series>, title: string, ids: seq<string>, id: string)
    requires title in m
    ensures Checkpoints(folder, m, title, ids + [id]) ==
      Checkpoints(folder, m, title, ids) + [Snapshot(folder, WithDownloaded(m, title, ids + [id]))]
  {
    assert (ids + [id])[..|ids|] == ids;
  }

  /** One snapshot per downloaded chapter; the `k`-th is the configuration with the first
      `k + 1` chapters appended to the series' list. */
  lemma {:induction false} CheckpointsAt(folder: string, m: map<string, Series>, title: string, ids: seq<string>)
    requires title in m
    ensures forall k :: 0 <= k < |ids| ==>
      Checkpoints(folder, m, title, ids)[k] == Snapshot(folder, WithDownloaded(m, title, ids[..k + 1]))
    decreases |ids|
  {
    if ids != [] {
      var init := ids[..|ids| - 1];
      CheckpointsAt(folder, m, title, init);
      forall k | 0 <= k < |ids|
        ensures Checkpoints(folder, m, title, ids)[k] == Snapshot(folder, WithDownloaded(m, title, ids[..k + 1]))
      {
        if k < |init| {
          assert init[..k + 1] == ids[..k + 1];
        } else {
          assert ids[..k + 1] == ids;
        }
      }
    }
  }

  /** The snapshot saved after the `k`-th downloaded chapter keeps the downloads folder and
      every other series as they were, and the series' list is the old list followed by the
      first `k + 1` identifiers; it differs from the snapshot saved before it only by the
      `k`-th identifier appended to that list. */
  lemma CheckpointsStep(folder: string, m: map<string, Series>, title: string, ids: seq<string>, k: nat)
    requires title in m
    requires k < |ids|
    ensures var saved := Checkpoints(folder, m, title, ids)[k];
      && saved.downloadsFolder == folder
      && saved.series.Keys == m.Keys
      && (forall t :: t in m && t != title ==> saved.series[t] == m[t])
      && saved.series[title].url == m[title].url
      && saved.series[title].downloaded == m[title].downloaded + ids[..k + 1]
    ensures k > 0 ==>
      var previous := Checkpoints(folder, m, title, ids)[k - 1].series;
      && title in previous
      && Checkpoints(folder, m, title, ids)[k].series ==
           previous[title := previous[title].(downloaded := previous[title].downloaded + [ids[k]])]
  {
    CheckpointsAt(folder, m, title, ids);
    if k > 0 {
      assert ids[..k + 1] == ids[..k] + [ids[k]];
      assert m[title].downloaded + ids[..k + 1] == (m[title].downloaded + ids[..k]) + [ids[k]];
      UpdateTwice(m, title, m[title].(downloaded := m[title].downloaded + ids[..k]),
        m[title].(downloaded := m[title].downloaded + ids[..k + 1]));
    }
  }

  /** Updating one key twice keeps only the second value. */
  lemma UpdateTwice<K, V>(m: map<K, V>, k: K, v: V, w: V)
    ensures m[k := v][k := w] == m[k := w]
  {
  }

  /** The series record a pass leaves: synced against the chapter table of its index page,
      or as it was when the page has no table. */
  function Pass(s: Series, index: map<string, seq<Link>>): Series
  {
    if s.url in index then Synced(s, index[s.url]) else s
  }

  /** The series of configuration `m` once the first `n` of `titles` have had a pass, in
      order; a title that is not tracked is passed over. */
  function PassedUpTo(m: map<string, Series>, titles: seq<string>,
                      index: map<string, seq<Link>>, n: nat): map<string, Series>
    requires n <= |titles|
    decreases n
  {
    if n == 0 then m
    else
      var t := titles[n - 1];
      var r := PassedUpTo(m, titles, index, n - 1);
      if t in m then r[t := Pass(m[t], index)] else r
  }

  /** With distinct tracked titles, each of the first `n` series has had its pass and
      every later one is as it was; the same series are tracked. */
  lemma {:induction false} PassedUpToAt(m: map<string, Series>, titles: seq<string>,
                                        index: map<string, seq<Link>>, n: nat)
    requires n <= |titles|
    requires NoDuplicates(titles)
    requires forall k :: 0 <= k < |titles| ==> titles[k] in m
    ensures var r := PassedUpTo(m, titles, index, n);
      && r.Keys == m.Keys
      && (forall k :: 0 <= k < n ==> r[titles[k]] == Pass(m[titles[k]], index))
      && (forall k :: n <= k < |titles| ==> r[titles[k]] == m[titles[k]])
    decreases n
  {
    if n > 0 {
      PassedUpToAt(m, titles, index, n - 1);
      var t := titles[n - 1];
      var r := PassedUpTo(m, titles, index, n);
      forall k | 0 <= k < n - 1
        ensures r[titles[k]] == Pass(m[titles[k]], index)
      {
        assert titles[k] != t;
      }
      forall k | n <= k < |titles|
        ensures r[titles[k]] == m[titles[k]]
      {
        assert titles[k] != t;
      }
    }
  }

  /** The snapshots a pass over series `title` of configuration `m` saves: one per
      chapter it downloads, and none when the index page has no chapter table. */
  ghost function PassSaves(folder: string, m: map<string, Series>, title: string,
                           index: map<string, seq<Link>>): seq<Snapshot>
  {
    if title in m && m[title].url in index then
      Checkpoints(folder, m, title, IdsOf(NewChapters(m[title], index[m[title].url])))
    else []
  }

  /** The snapshots saved by the pass over the `k`-th of `titles`, which starts from the
      configuration the earlier passes left. */
  ghost function TurnSaves(folder: string, m: map<string, Series>, titles: seq<string>,
                           index: map<string, seq<Link>>, k: nat): seq<Snapshot>
    requires k < |titles|
  {
    PassSaves(folder, PassedUpTo(m, titles, index, k), titles[k], index)
  }

  /** The history of saves `prior` followed by the snapshots saved by the passes over the
      first `n` of `titles`, in order. */
  ghost function RunLog(prior: seq<Snapshot>, folder: string, m: map<string, Series>,
                        titles: seq<string>, index: map<string, seq<Link>>, n: nat): seq<Snapshot>
    requires n <= |titles|
  {
    if n == 0 then prior else RunLog(prior, folder, m, titles, index, n - 1) + TurnSaves(folder, m, titles, index, n - 1)
  }

  /** `downloads` is one download per chapter of `chapters`, in order: each went to the
      chapter's directory and is the page loop's result for that chapter. */
  ghost predicate DownloadsOf(site: Site, folder: string, title: string, chapters: seq<Chapter>,
                              downloads: seq<ChapterDownload>)
    requires ServesImages(site)
  {
    && |downloads| == |chapters|
    && forall k :: 0 <= k < |chapters| ==> IsDownloadOf(site, folder, title, chapters[k], downloads[k])
  }

  /** `download` went to the directory of `chapter` of series `title` and is the page
      loop's result for that chapter. */
  ghost predicate IsDownloadOf(site: Site, folder: string, title: string, chapter: Chapter,
                               download: ChapterDownload)
    requires ServesImages(site)
  {
    && download.dir == ChapterDir(folder, title, chapter.title)
    && IsChapterDownload(site, chapter.baseUrl, download.files)
  }

  /** One more chapter and its download extend the downloads of a pass. */
  lemma DownloadsOfNext(site: Site, folder: string, title: string, chapters: seq<Chapter>,
                        downloads: seq<ChapterDownload>, chapter: Chapter, download: ChapterDownload)
    requires ServesImages(site)
    ensures (DownloadsOf(site, folder, title, chapters, downloads) &&
             IsDownloadOf(site, folder, title, chapter, download)) ==>
      DownloadsOf(site, folder, title, chapters + [chapter], downloads + [download])
  {
    if DownloadsOf(site, folder, title, chapters, downloads) {
      forall k | 0 <= k < |chapters|
        ensures (chapters + [chapter])[k] == chapters[k] && (downloads + [download])[k] == downloads[k]
      {
      }
    }
  }

  /** A turn that downloads `chapter`: appending its identifier to the series' list of
      configuration `current` and saving the result keeps the series and the saves in step
      with the chapters downloaded so far. */
  lemma DownloadTurn(site: Site, folder: string, start: map<string, Series>, title: string,
                     saved: seq<Snapshot>, pending: seq<Chapter>, downloads: seq<ChapterDownload>,
                     current: map<string, Series>, saves: seq<Snapshot>,
                     chapter: Chapter, download: ChapterDownload)
    requires ServesImages(site) && title in start
    requires current == WithDownloaded(start, title, IdsOf(pending))
    requires saves == saved + Checkpoints(folder, start, title, IdsOf(pending))
    requires DownloadsOf(site, folder, title, pending, downloads)
    ensures var next := current[title := current[title].(downloaded := current[title].downloaded + [ChapterKey(chapter)])];
      && next == WithDownloaded(start, title, IdsOf(pending + [chapter]))
      && saves + [Snapshot(folder, next)] == saved + Checkpoints(folder, start, title, IdsOf(pending + [chapter]))
      && (IsDownloadOf(site, folder, title, chapter, download) ==>
            DownloadsOf(site, folder, title, pending + [chapter], downloads + [download]))
  {
    var ids, id := IdsOf(pending), ChapterKey(chapter);
    IdsOfAppend(pending, chapter);
    WithDownloadedNext(start, title, ids, id);
    CheckpointsNext(folder, start, title, ids, id);
    DownloadsOfNext(site, folder, title, pending, downloads, chapter, download);
  }

  /** `runs[k]` is what the pass over the `k`-th of `titles`, a series of configuration `m`
      whose index page has a chapter table, downloaded, for each of the first `|runs|`
      titles. */
  ghost predicate RunsOf(site: Site, folder: string, m: map<string, Series>, titles: seq<string>,
                         index: map<string, seq<Link>>, runs: seq<seq<ChapterDownload>>)
    requires ServesImages(site)
  {
    && |runs| <= |titles|
    && forall k :: 0 <= k < |runs| ==>
         titles[k] in m && m[titles[k]].url in index &&
         DownloadsOf(site, folder, titles[k], NewChapters(m[titles[k]], index[m[titles[k]].url]), runs[k])
  }

  /** The downloads of one more pass, over the `n`-th of `titles`, extend the downloads
      of the passes over the first `n`. */
  lemma RunsNext(site: Site, folder: string, m: map<string, Series>, titles: seq<string>,
                 index: map<string, seq<Link>>, runs: seq<seq<ChapterDownload>>,
                 downloads: seq<ChapterDownload>)
    requires ServesImages(site)
    requires RunsOf(site, folder, m, titles, index, runs)
    requires |runs| < |titles| && titles[|runs|] in m && m[titles[|runs|]].url in index
    requires DownloadsOf(site, folder, titles[|runs|],
      NewChapters(m[titles[|runs|]], index[m[titles[|runs|]].url]), downloads)
    ensures RunsOf(site, folder, m, titles, index, runs + [downloads])
  {
    var next := runs + [downloads];
    forall k | 0 <= k < |next|
      ensures titles[k] in m && m[titles[k]].url in index
      ensures DownloadsOf(site, folder, titles[k], NewChapters(m[titles[k]], index[m[titles[k]].url]), next[k])
    {
      if k < |runs| {
        assert next[k] == runs[k];
      }
    }
  }

  /** What a run with `--Auto` ends with. */
  datatype Outcome = NoSeries | Finished | Aborted(title: string)

  class Config {
    var downloadsFolder: string
    var series: map<string, Series>
    /** Every configuration saved to `settings.json`, oldest first. */
    ghost var saves: seq<Snapshot>

    function Current(): Snapshot
      reads this
    {
      Snapshot(downloadsFolder, series)
    }

    /** The configuration used when there is no `settings.json`. Nothing is saved. */
    constructor Default()
      ensures downloadsFolder == DefaultDownloadsFolder
      ensures series == map[]
      ensures saves == []
    {
      downloadsFolder := DefaultDownloadsFolder;
      series := map[];
      saves := [];
    }

    /** `json.dump(config, json_file, indent=2)`: a full overwrite of `settings.json`. */
    method Save()
      modifies this`saves
      ensures saves == old(saves) + [Current()]
    {
      saves := saves + [Current()];
    }

    /** `set_downloads_folder(new_path)`: only the downloads folder changes, to the
        normalised path, and the configuration is saved once. */
    method SetDownloadsFolder(newPath: string, normPath: string -> string)
      modifies this
      ensures downloadsFolder == normPath(newPath)
      ensures series == old(series)
      ensures saves == old(saves) + [Snapshot(normPath(newPath), old(series))]
    {
      var path := normPath(newPath);
      downloadsFolder := path;
      Save();
    }

    /** `add_series(title, chapters_url)`: the series gets a fresh record with no downloaded
        chapters, replacing any record it had; nothing else changes; one save. */
    method AddSeries(title: string, chaptersUrl: string)
      modifies this
      ensures series == old(series)[title := Series(chaptersUrl, [])]
      ensures forall t :: t != title ==>
        (t in series <==> t in old(series)) && (t in series ==> series[t] == old(series)[t])
      ensures downloadsFolder == old(downloadsFolder)
      ensures saves == old(saves) + [Current()]
    {
      series := series[title := Series(chaptersUrl, [])];
      Save();
    }

    /** `delete_series(title)`: the series is removed if it is tracked, and nothing changes
        otherwise; every other series is kept; one save either way. */
    method DeleteSeries(title: string)
      modifies this
      ensures series == old(series) - {title}
      ensures title !in old(series) ==> series == old(series)
      ensures forall t :: t != title ==>
        (t in series <==> t in old(series)) && (t in series ==> series[t] == old(series)[t])
      ensures downloadsFolder == old(downloadsFolder)
      ensures saves == old(saves) + [Current()]
    {
      series := series - {title};
      Save();
    }

    /** Adding a series that is not tracked and deleting it again leaves the series as they
        were, with two saves: the first with the series added, the second, which is what
        `settings.json` holds afterwards, the original configuration. */
    method AddThenDelete(title: string, chaptersUrl: string)
      requires title !in series
      modifies this
      ensures series == old(series)
      ensures downloadsFolder == old(downloadsFolder)
      ensures saves == old(saves) + [Snapshot(old(downloadsFolder), old(series)[title := Series(chaptersUrl, [])]),
                                     Snapshot(old(downloadsFolder), old(series))]
    {
      AddSeries(title, chaptersUrl);
      DeleteSeries(title);
      assert series.Keys == old(series).Keys;
    }

    /** One chapter of a pass: its directory is the downloads folder, the sanitised series
        name and the sanitised chapter title; its pages are downloaded there; its identifier
        is appended to the series' list; and the configuration is saved. */
    method EatChapter(title: string, chapter: Chapter, site: Site)
      returns (download: ChapterDownload)
      requires ServesImages(site)
      requires title in series
      modifies this
      ensures download.dir == ChapterDir(downloadsFolder, title, chapter.title)
      ensures IsChapterDownload(site, chapter.baseUrl, download.files)
      ensures downloadsFolder == old(downloadsFolder)
      ensures series == old(series)[title := old(series)[title].(downloaded := old(series)[title].downloaded + [ChapterKey(chapter)])]
      ensures saves == old(saves) + [Current()]
    {
      var dir := ChapterDir(downloadsFolder, title, chapter.title);
      var files, requested := Download(chapter, site);
      download := ChapterDownload(dir, files);
      var chapterId := ChapterKey(chapter);
      series := series[title := series[title].(downloaded := series[title].downloaded + [chapterId])];
      Save();
    }

    /** One turn of the loop of `eat_mango` over `visit`, the reversed listing: the
        `n`-th chapter is downloaded into its directory, its identifier appended to the
        list and the configuration saved, unless its identifier is in the list already.
        `pending` and `downloads` are the chapters downloaded by the earlier turns and
        their downloads; the same is returned for the turns up to this one. */
    method EatListed(title: string, visit: seq<Chapter>, n: nat, site: Site,
                     ghost start: map<string, Series>, ghost saved: seq<Snapshot>,
                     ghost pending: seq<Chapter>, downloads: seq<ChapterDownload>)
      returns (ghost pending': seq<Chapter>, downloads': seq<ChapterDownload>)
      requires ServesImages(site)
      requires n < |visit|
      requires title in start
      requires pending == Pending(visit[..n], start[title].downloaded)
      requires series == WithDownloaded(start, title, IdsOf(pending))
      requires saves == saved + Checkpoints(downloadsFolder, start, title, IdsOf(pending))
      requires DownloadsOf(site, downloadsFolder, title, pending, downloads)
      modifies this
      ensures downloadsFolder == old(downloadsFolder)
      ensures pending' == Pending(visit[..n + 1], start[title].downloaded)
      ensures series == WithDownloaded(start, title, IdsOf(pending'))
      ensures saves == saved + Checkpoints(downloadsFolder, start, title, IdsOf(pending'))
      ensures DownloadsOf(site, downloadsFolder, title, pending', downloads')
    {
      var chapter := visit[n];
      var chapterId := ChapterKey(chapter);
      PendingNext(visit, n, start[title].downloaded);
      pending', downloads' := pending, downloads;
      if chapterId !in series[title].downloaded {
        ghost var current := series;
        var download := EatChapter(title, chapter, site);
        DownloadTurn(site, downloadsFolder, start, title, saved, pending, downloads,
                     current, old(saves), chapter, download);
        pending', downloads' := pending + [chapter], downloads + [download];
      }
    }

    /** The loop of `eat_mango` over `reversed(chapters)`, with `skip` the series' own list
        of downloaded chapters: each chapter whose identifier is not in the list yet is
        downloaded into its directory, its identifier is appended to the list, and the
        configuration is saved. */
    method EatChapters(title: string, chapters: seq<Chapter>, site: Site)
      returns (downloads: seq<ChapterDownload>)
      requires ServesImages(site)
      requires title in series
      modifies this
      ensures downloadsFolder == old(downloadsFolder)
      ensures var ids := IdsOf(Pending(Reverse(chapters), old(series)[title].downloaded));
        && series == WithDownloaded(old(series), title, ids)
        && saves == old(saves) + Checkpoints(downloadsFolder, old(series), title, ids)
      ensures DownloadsOf(site, downloadsFolder, title,
        Pending(Reverse(chapters), old(series)[title].downloaded), downloads)
    {
      ghost var start, saved := series, saves;
      downloads := [];
      var visit := Reverse(chapters);
      ghost var pending: seq<Chapter> := [];
      assert series == WithDownloaded(start, title, IdsOf(pending)) by {
        assert start[title].(downloaded := start[title].downloaded + []) == start[title];
      }
      for n := 0 to |visit|
        invariant downloadsFolder == old(downloadsFolder)
        invariant pending == Pending(visit[..n], start[title].downloaded)
        invariant series == WithDownloaded(start, title, IdsOf(pending))
        invariant saves == saved + Checkpoints(downloadsFolder, start, title, IdsOf(pending))
        invariant DownloadsOf(site, downloadsFolder, title, pending, downloads)
      {
        pending, downloads := EatListed(title, visit, n, site, start, saved, pending, downloads);
      }
      assert visit[..|visit|] == visit;
    }

    /** `eat_mango(title, url, skip)` as `eat` calls it. `index` maps an index page URL
        to the links of its chapter table; a URL it does not map is a page without such a
        table (the source then raises, and the pass does nothing). */
    method EatMango(title: string, index: map<string, seq<Link>>, site: Site)
      returns (found: bool, downloads: seq<ChapterDownload>)
      requires ServesImages(site)
      requires title in series
      modifies this
      ensures downloadsFolder == old(downloadsFolder)
      ensures found <==> old(series)[title].url in index
      ensures series == old(series)[title := Pass(old(series)[title], index)]
      ensures saves == old(saves) + PassSaves(downloadsFolder, old(series), title, index)
      ensures !found ==> downloads == []
      ensures found ==> DownloadsOf(site, downloadsFolder, title,
        NewChapters(old(series)[title], index[old(series)[title].url]), downloads)
    {
      if series[title].url !in index {
        found, downloads := false, [];
        assert series == old(series)[title := Pass(old(series)[title], index)];
        return;
      }
      found := true;
      var chapters := ParseTable(index[series[title].url]);
      downloads := EatChapters(title, chapters, site);
      SyncedIsPending(old(series)[title], index[old(series)[title].url]);
    }

    /** One turn of the loop of `eat()`: the pass over the `completed`-th series, when the
        earlier ones have had theirs. */
    method EatNext(titles: seq<string>, index: map<string, seq<Link>>, site: Site,
                   ghost start: map<string, Series>, ghost prior: seq<Snapshot>, completed: nat)
      returns (found: bool, downloads: seq<ChapterDownload>)
      requires ServesImages(site)
      requires completed < |titles|
      requires NoDuplicates(titles)
      requires forall k :: 0 <= k < |titles| ==> titles[k] in start
      requires forall k :: 0 <= k < completed ==> start[titles[k]].url in index
      requires series == PassedUpTo(start, titles, index, completed)
      requires saves == RunLog(prior, downloadsFolder, start, titles, index, completed)
      modifies this
      ensures downloadsFolder == old(downloadsFolder)
      ensures found <==> start[titles[completed]].url in index
      ensures found ==> forall k :: 0 <= k < completed + 1 ==> start[titles[k]].url in index
      ensures found ==> series == PassedUpTo(start, titles, index, completed + 1)
      ensures !found ==> series == old(series)
      ensures found ==> saves == RunLog(prior, downloadsFolder, start, titles, index, completed + 1)
      ensures !found ==> saves == old(saves)
      ensures found ==> DownloadsOf(site, downloadsFolder, titles[completed],
        NewChapters(start[titles[completed]], index[start[titles[completed]].url]), downloads)
    {
      var title := titles[completed];
      PassedUpToAt(start, titles, index, completed);
      found, downloads := EatMango(title, index, site);
    }

    /** `eat()`: one pass over every tracked series, in the order `titles` lists them. A
        series whose index page has no chapter table raises in the source, which ends the
        whole run there; `completed` is the number of series done before that, and
        `runs[k]` the chapters the pass over the `k`-th series downloaded. */
    method Eat(titles: seq<string>, index: map<string, seq<Link>>, site: Site)
      returns (completed: nat, runs: seq<seq<ChapterDownload>>)
      requires ServesImages(site)
      requires NoDuplicates(titles)
      requires forall k :: 0 <= k < |titles| ==> titles[k] in series
      modifies this
      ensures completed <= |titles|
      ensures downloadsFolder == old(downloadsFolder)
      ensures forall k :: 0 <= k < completed ==>
        titles[k] in old(series) && old(series)[titles[k]].url in index
      ensures completed < |titles| ==> old(series)[titles[completed]].url !in index
      ensures series == PassedUpTo(old(series), titles, index, completed)
      ensures saves == RunLog(old(saves), downloadsFolder, old(series), titles, index, completed)
      ensures |runs| == completed
      ensures forall k :: 0 <= k < completed ==> DownloadsOf(site, downloadsFolder, titles[k],
        NewChapters(old(series)[titles[k]], index[old(series)[titles[k]].url]), runs[k])
    {
      completed, runs := 0, [];
      while completed < |titles|
        invariant completed <= |titles|
        invariant downloadsFolder == old(downloadsFolder)
        invariant forall k :: 0 <= k < completed ==> old(series)[titles[k]].url in index
        invariant series == PassedUpTo(old(series), titles, index, completed)
        invariant saves == RunLog(old(saves), downloadsFolder, old(series), titles, index, completed)
        invariant |runs| == completed
        invariant RunsOf(site, downloadsFolder, old(series), titles, index, runs)
      {
        var found, downloads := EatNext(titles, index, site, old(series), old(saves), completed);
        if !found {
          return;
        }
        RunsNext(site, downloadsFolder, old(series), titles, index, runs, downloads);
        runs := runs + [downloads];
        completed := completed + 1;
      }
    }

    /** The `--Auto` branch of the main program: with no series tracked nothing happens;
        otherwise one `eat()` pass, which completes the first `completed` titles and
        either finishes them all or aborts at the next one; `runs[k]` holds the chapters
        downloaded for the `k`-th title. */
    method Auto(titles: seq<string>, index: map<string, seq<Link>>, site: Site)
      returns (outcome: Outcome, completed: nat, runs: seq<seq<ChapterDownload>>)
      requires ServesImages(site)
      requires NoDuplicates(titles)
      requires forall t :: t in series <==> t in titles
      modifies this
      ensures completed <= |titles|
      ensures old(series) == map[] <==> outcome == NoSeries
      ensures outcome == NoSeries ==> completed == 0 && series == old(series) && saves == old(saves)
      ensures outcome == Finished <==> old(series) != map[] && completed == |titles|
      ensures outcome.Aborted? ==>
        (completed < |titles| && outcome.title == titles[completed] &&
         outcome.title in old(series) && old(series)[outcome.title].url !in index)
      ensures series == PassedUpTo(old(series), titles, index, completed)
      ensures saves == RunLog(old(saves), downloadsFolder, old(series), titles, index, completed)
      ensures series.Keys == old(series).Keys
      ensures outcome == Finished ==> forall t :: t in old(series) ==>
        old(series)[t].url in index && series[t] == Synced(old(series)[t], index[old(series)[t].url])
      ensures downloadsFolder == old(downloadsFolder)
      ensures |runs| == completed
      ensures forall k :: 0 <= k < completed ==>
        titles[k] in old(series) && old(series)[titles[k]].url in index &&
        DownloadsOf(site, downloadsFolder, titles[k],
          NewChapters(old(series)[titles[k]], index[old(series)[titles[k]].url]), runs[k])
    {
      if series == map[] {
        outcome, completed, runs := NoSeries, 0, [];
        return;
      }
      assert forall k :: 0 <= k < |titles| ==> titles[k] in series;
      completed, runs := Eat(titles, index, site);
      PassedUpToAt(old(series), titles, index, completed);
      if completed == |titles| {
        outcome := Finished;
        forall t | t in old(series)
          ensures old(series)[t].url in index
          ensures series[t] == Synced(old(series)[t], index[old(series)[t].url])
        {
          var k :| 0 <= k < |titles| && titles[k] == t;
        }
      } else {
        outcome := Aborted(titles[completed]);
      }
    }
  }
}
