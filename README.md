# Mangoose in Dafny

Mangoose is a command-line downloader for manga series. It keeps a configuration with a
downloads folder and a set of tracked series. Each series has the URL of its chapter index
page and the identifiers of the chapters already downloaded. The configuration is stored in
`settings.json`. A run with `--Auto` does one pass per series (`eat`). For each series it:

- fetches the index page;
- reads the chapter table (`get_chapters`, `parse_table`);
- visits the chapters in reverse listing order;
- skips every chapter whose identifier is already recorded.

For every other chapter, Mangoose:

- downloads the chapter page by page into a directory named after the sanitised series
  and chapter titles (`validate`, `download`);
- appends the chapter's identifier to the series' list;
- saves the whole configuration again.

The other operations set the downloads folder, add a series and delete a series, each
followed by one save.

The model is split into six modules:

- `Text`: the string built-ins the program relies on, with their specifications:
  `replace`, `split`, `join`, `strip`, `str(n)` and `zfill`.
- `Sanitise`: `validate`, proved equal to a single left-to-right scan and idempotent.
- `Listing`: the chapter entries built from the table's links, and the chapter
  identifier read off a label.
- `Pages`: the page loop of one chapter, against a remote site given as two finite maps.
  - `pages` maps a page URL to the `src` of its `manga-page` image.
  - `images` maps an image URL to its `Content-Type` and bytes.
  - A site given this way has finitely many pages, so on such a site the loop ends.
- `Sync`: which chapters a pass downloads, and in what order.
- `Settings`: the configuration as a class whose methods update its fields.
  - Every `json.dump` appends a snapshot to a ghost history, `saves`.
  - Each pass, and the whole `eat`, is proved against functions of the starting
    configuration (`Synced`, `PassedUpTo`, `Checkpoints`, `RunLog`).

Behaviour of the code worth knowing:

- A series whose index page has no chapter table makes `get_chapters` raise. Nothing in
  `eat` catches it, so the exception ends the whole run at the top-level handler, and the
  series after it get no pass. `Config.Eat` stops at that series.
- `download` writes loose image files into the chapter's directory.
- `validate` turns `'/'` into `'_'`, so `"Chapter: 10?/5"` becomes `"Chapter - 10__5"`.
- The chapters are visited in the reverse of the listing's order. A fresh series listed
  as `["3 - …", "1 - …", "2 - …"]` is downloaded in the order 2, 1, 3
  (`Settings.NewChaptersReversed`).
- When the listing repeats an identifier, only the first chapter visited with it is
  downloaded (`Sync.PendingInOrder`).
- Network failures are not caught per chapter. Any exception ends the run.

## Model

| member | source | states |
|---|---|---|
| Text.ReplaceAbsent | mangoose.py:42 | `replace` of a pattern whose first character never occurs returns the string unchanged |
| Text.ReplaceChar | mangoose.py:42 | replacing one character by another keeps the length and maps each position independently: `c` becomes `d`, every other character stays |
| Text.Split | mangoose.py:58 | `split` with a one-character separator always yields at least one part, so `[0]` and `[-1]` are defined |
| Text.SplitParts | mangoose.py:58 | the split has exactly one part iff the separator does not occur, and no part contains the separator |
| Text.JoinSplit | mangoose.py:99 | joining the parts of a split with the same separator gives back the original string |
| Text.SplitFirst | mangoose.py:80 | the first part is the prefix up to the first separator (the separator follows it), or the whole string when there is none |
| Text.SplitLast | mangoose.py:58 | the string is the join of all parts but the last, the separator, and the last part; or just the last part when there is no separator |
| Text.LastSegmentSpec | mangoose.py:58 | `split("/")[-1]` holds no separator and is a suffix of the string; without a separator it is the whole string |
| Text.DropLastSegmentSpec | mangoose.py:99 | `"/".join(href.split('/')[:-1])`, the separator and the last segment rebuild `href`; without a separator the result is empty |
| Text.TrimStartSpec | mangoose.py:80 | `lstrip` keeps a suffix, drops only whitespace, and its result does not start with whitespace |
| Text.TrimEndSpec | mangoose.py:80 | `rstrip` keeps a prefix, drops only whitespace, and its result does not end with whitespace |
| Text.StripSpec | mangoose.py:80 | `strip` returns a slice outside of which every character is whitespace, and the slice neither starts nor ends with whitespace |
| Text.NatToString | mangoose.py:49 | `str(i)` of a natural number is a non-empty string of decimal digits |
| Text.DecimalOfNatToString | mangoose.py:49 | reading `str(n)` back as a decimal gives `n`, so the rendering is injective |
| Text.ZFillSpec | mangoose.py:59 | `zfill(w)` has length `max(w, len(s))`; it is `s` behind a run of zeros, and a leading sign stays in front of the zeros |
| Text.DecimalLeadingZero | mangoose.py:59 | a leading zero keeps a digit string all digits and does not change its value |
| Text.DecimalLeadingZeros | mangoose.py:59 | any run of leading zeros keeps a digit string all digits and does not change its value |
| Text.ZFillDecimal | mangoose.py:59 | `str(i).zfill(3)` is all digits and still denotes `i` |
| Text.SeparatedPrefix | mangoose.py:59 | two strings `a.x` and `b.y` with no `.` in `a` or `b` that are equal have `a == b` |
| Sanitise.ReplaceSinglesAt | mangoose.py:42 | the chain `':'`→`'-'`, `'?'`→`'_'`, `'/'`→`'_'` keeps the length and maps each character independently |
| Sanitise.ReplaceSinglesAppend | mangoose.py:42 | the single-character replacements distribute over concatenation |
| Sanitise.Validate | mangoose.py:41-43 | the sanitised title contains no `':'`, `'?'` or `'/'` |
| Sanitise.ValidateColon | mangoose.py:42 | a title starting with `": "` sanitises to `" - "` followed by the sanitised rest |
| Sanitise.ValidateOther | mangoose.py:42 | a title of two or more characters not starting with `": "` sanitises to its first character's replacement followed by the sanitised rest |
| Sanitise.ValidateIsScan | mangoose.py:41-43 | the chain of four `replace` calls equals one left-to-right scan: `": "` becomes `" - "`, and otherwise `':'`→`'-'`, `'?'`/`'/'`→`'_'`, other characters unchanged |
| Sanitise.ValidateIdempotent | mangoose.py:41-43 | sanitising a sanitised title changes nothing |
| Listing.EntryOfSpec | mangoose.py:99-100 | an entry keeps the link text as its label; its URL is `https://readms.net` followed by the `href` without its last segment; the `href` is that part, `/` and the page segment |
| Listing.EntriesAt | mangoose.py:96-101 | the entries of a table are one per link, position by position |
| Listing.EntriesFront | mangoose.py:96-101 | the entries of a non-empty table are the first link's entry followed by the entries of the rest |
| Listing.ParseTable | mangoose.py:96-101 | `parse_table` returns one entry per link in table order, each built from its link, and equals the reference `Entries` |
| Listing.ChapterIdSpec | mangoose.py:80 | the identifier is the stripped text before the label's first `-`; it contains no `-`; a label without `-` gives the whole label stripped |
| Pages.PageUrlInjective | mangoose.py:49 | different page numbers give different page URLs |
| Pages.PageUrlSetSize | mangoose.py:47-49 | pages 1..n have n distinct URLs, and a page whose URL is among them is in 1..n |
| Pages.PageUrlSetServed | mangoose.py:49-54 | when pages 1..n all have an image, their URLs are all pages of the site |
| Pages.PageMissing | mangoose.py:48-54 | on a site given as finite maps, some page between 1 and one more than the site's page count has no `manga-page` image, so the page loop reaches a page without one |
| Pages.Download | mangoose.py:46-63 | `download` writes one file per page from 1 up to the first page without an image: the page's bytes under `str(i).zfill(3) + "." + ext`, with `ext` the last `/`-segment of the content type. It requests exactly pages 1..n+1 for n files, and n is bounded by the site's page count |
| Pages.FileNamesDistinct | mangoose.py:59 | different page numbers give different file names, whatever the content types |
| Pages.PageFilesDistinct | mangoose.py:59-62 | the files written for two different pages have different names |
| Pages.DownloadNamesDistinct | mangoose.py:59-62 | no file of one chapter's download overwrites another |
| Pages.DownloadDeterministic | mangoose.py:46-63 | the site determines the download: two downloads of the same chapter write the same files |
| Sync.ReverseAt | mangoose.py:78 | `reversed(chapters)` has the same length, and position k holds the k-th chapter from the end |
| Sync.ReverseCons | mangoose.py:78 | reversing a listing with a chapter in front puts that chapter last |
| Sync.IdsOfAt | mangoose.py:80 | the identifiers of a run of chapters are those chapters' identifiers, position by position |
| Sync.PendingNoDuplicates | mangoose.py:81-90 | a list without duplicates stays without duplicates after a pass: no identifier is appended twice, and none that was already there |
| Sync.PendingCovers | mangoose.py:78-90 | after a pass, every listed chapter's identifier is in the list |
| Sync.PendingSkipsDone | mangoose.py:81-82 | a chapter whose identifier was recorded before the pass is never downloaded |
| Sync.VisitedLast | mangoose.py:78 | an identifier is visited exactly when it is visited before the last chapter or is the last chapter's |
| Sync.PendingIds | mangoose.py:81-90 | after a pass the list holds exactly the identifiers recorded before it and those of the visited chapters |
| Sync.FirstSeenInit | mangoose.py:78-82 | whether a chapter before the last is the first visit of a new identifier does not depend on the last chapter |
| Sync.FirstSeenLast | mangoose.py:81-82 | the last visited chapter is the first visit of a new identifier exactly when its identifier is neither recorded nor appended earlier in the pass, i.e. exactly when `chapter_id in skip` is false |
| Sync.FirstSeenStep | mangoose.py:78-90 | one more visited chapter keeps the taken positions those that are first visits of new identifiers: the earlier ones, plus the last when it is one |
| Sync.PendingInOrder | mangoose.py:78-90 | the downloaded chapters are visited chapters, taken at strictly increasing positions of the visit; a position is taken exactly when its identifier was not recorded before the pass and no earlier visited chapter has it, so of chapters sharing a new identifier the first visited is downloaded |
| Sync.AllNewInit | mangoose.py:78-82 | dropping the last visited chapter keeps the identifiers pairwise distinct and unrecorded |
| Sync.AllNewLast | mangoose.py:81-82 | with distinct, unrecorded identifiers, the last visited chapter's identifier is neither recorded nor among the earlier ones |
| Sync.PendingAllNewStep | mangoose.py:81-90 | a chapter with a new identifier, after chapters that were all downloaded, is downloaded after them |
| Sync.PendingAllNew | mangoose.py:78-90 | when the visited identifiers are pairwise distinct and unrecorded, every visited chapter is downloaded, in visiting order |
| Sync.PendingReversed | mangoose.py:78-90 | such a listing is downloaded in full, in reverse |
| Settings.NewChaptersFront | mangoose.py:78-90 | the table's first link is visited last; it is downloaded exactly when its identifier is neither recorded nor among the chapters downloaded before it |
| Settings.NewChaptersReversed | mangoose.py:78-90 | a table with distinct, unrecorded identifiers is downloaded in full, from its last link to its first |
| Settings.SyncedIsPending | mangoose.py:78-90 | a pass (the fold `Synced` over the table) appends to the list exactly the identifiers of the chapters it downloads, in download order |
| Settings.SyncStep | mangoose.py:80-90 | one visited chapter appends its identifier to the synced record exactly when the set of downloaded chapters gains it |
| Settings.WithDownloadedNext | mangoose.py:90 | appending one more identifier to the series' list of a configuration that has `ids` appended gives the configuration with `ids + [id]` appended |
| Settings.Checkpoints | mangoose.py:88-93 | a pass that downloads k chapters saves exactly k snapshots |
| Settings.CheckpointsAt | mangoose.py:90-93 | the k-th snapshot of a pass is the configuration with the first k+1 downloaded identifiers appended to the series' list |
| Settings.CheckpointsStep | mangoose.py:88-93 | each snapshot keeps the downloads folder, the tracked series, every other series and the series' URL. The series' list is the old list plus the first k+1 identifiers, and it differs from the previous snapshot by one appended identifier |
| Settings.PassedUpToAt | mangoose.py:66-69 | after passes over the first n of distinct tracked titles, those series have had their pass and every later one is untouched; the same series stay tracked |
| Settings.DownloadsOfNext | mangoose.py:84-88 | a pass's downloads, extended by the next chapter's download into its directory, are the downloads of the extended chapter list |
| Settings.DownloadTurn | mangoose.py:84-93 | appending one downloaded chapter's identifier and saving keeps the configuration, the saves and the downloads equal to their reference functions |
| Settings.Config.Default | mangoose.py:162-166 | without a `settings.json` the configuration has downloads folder `C:\tmp` and no series |
| Settings.Config.Save | mangoose.py:92-93 | `json.dump` records the whole current configuration once more |
| Settings.Config.SetDownloadsFolder | mangoose.py:128-136 | only the downloads folder changes, to the normalised path; then one save of the new configuration |
| Settings.Config.AddSeries | mangoose.py:139-143 | the series gets a fresh record (its URL, no downloaded chapters), replacing any earlier one; every other series and the folder are unchanged; then one save |
| Settings.Config.DeleteSeries | mangoose.py:146-150 | the series is removed if tracked (`pop(title, None)` ignores a missing one); every other series and the folder are unchanged; then one save |
| Settings.Config.AddThenDelete | mangoose.py:139-150 | adding an untracked series and deleting it again leaves the folder and the series as they were; the two saves are the configuration with the series added and then the original configuration, which is what `settings.json` holds afterwards |
| Settings.Config.EatChapter | mangoose.py:84-93 | one chapter goes into the directory `[folder, validate(series), validate(chapter)]` as `download`'s result; its identifier is appended to the series' list; then one save |
| Settings.Config.EatListed | mangoose.py:78-93 | one turn of the chapter loop keeps the series, the saves and the downloads equal to the reference functions of the listing prefix visited |
| Settings.Config.EatChapters | mangoose.py:78-93 | the loop over `reversed(chapters)` appends the identifiers of exactly the pending chapters and saves one snapshot per pending chapter, the k-th holding the first k+1 identifiers; each pending chapter's download went to its directory. The skip list is the list being appended to |
| Settings.Config.EatMango | mangoose.py:72-93 | the pass over one series finds a chapter table iff its index page has one; the series becomes `Pass(series)` (the `Synced` fold, or unchanged without a table); the saves grow by that pass's snapshots; the downloads are those of `NewChapters` |
| Settings.Config.EatNext | mangoose.py:67-69 | one turn of `eat`'s loop advances the series and the saves to the reference functions for one more title, and returns that pass's downloads: the title's pending chapters, each downloaded into its directory; when that title's page has no table it leaves both unchanged |
| Settings.Config.Eat | mangoose.py:66-69 | `eat` passes over the titles in order up to the first whose page has no table. The series are the reference `PassedUpTo`, the saves are the reference `RunLog`, and the folder is unchanged. `runs` has one entry per completed title: the pending chapters of that series in the starting configuration, each downloaded into its directory under the downloads folder |
| Settings.Config.Auto | mangoose.py:175-185 | with no series nothing happens and nothing is saved. Otherwise `eat` completes the first `completed` titles: the series are `PassedUpTo` and the saves `RunLog` of those titles, no series is added or removed, and the outcome is `Finished` (every series has had its full `Synced` pass) exactly when all titles completed, or `Aborted` at the next title, a tracked series whose page has no table. For each completed title, `runs` holds the downloads of its pending chapters, each into its directory |

## Left out

- The network (`urllib3`, `requests`) and HTML parsing (BeautifulSoup) are left out. The site is given as finite maps: page URL to image `src`, image URL to response, and index URL to the links of its chapter table.
- `settings.json` is modelled only as the ghost history of saved snapshots. Reading it back with `json.load` is not modelled beyond the default configuration.
- Directories are not modelled. The `os.path.exists`/`os.makedirs` calls at mangoose.py:85-86, the `os.path.isdir`/`os.makedirs` calls at mangoose.py:130-131, and `os.path.join`, are left out; a chapter's directory is its list of path components.
- Config.SetDownloadsFolder: `os.path.normpath` is a parameter, because path normalisation depends on the platform.
- Logging, `setup_logger`, argparse and `setup_parser` are left out. So is the main program's sequence of flag checks: each flag's branch is its own method.
- The top-level `except Exception` handler, which prints the exception class and logs it, is left out.
- The stub scrapers under `scrappers/` are not part of this model.
- EatMango: the `skip=None` default (mangoose.py:73-74) is not modelled, because `eat` always passes the series' list.
- Eat: dictionary iteration order is given as the `titles` parameter, with distinct titles.
- Pages.Download and Pages.PageMissing: the loop at mangoose.py:48 ends only when the server answers some page without a `manga-page` image. A server that answers every page number with an image makes the source loop forever. A site given as finite maps cannot express such a server, so the model's termination comes from that representation, not from the program.
- Config.EatChapters: the model does not order the saves relative to the file writes. The files are return values and the saves a separate ghost history, so the contract does not say that each chapter's save at mangoose.py:92-93 comes after that chapter's files and before the next chapter's; that order is what lets an interrupted run resume.
- Pages.Download: a `manga-page` image without a `src` attribute raises `KeyError` at mangoose.py:52. `except AttributeError` does not catch it, so the run ends there. A site given as maps cannot express such a page: every page it maps has a `src`.
- Pages.Download: it requires that every image a page refers to can be fetched, and that a missing `manga-page` image is the only way a page ends the loop. A failed request or a missing `Content-Type` header raises in the source and is not modelled. The same requirement is carried by Config.EatChapter, Config.EatChapters, Config.EatMango, Config.Eat and Config.Auto.
- Listing.ParseTable: a link without `href` or without children raises in the source. The model takes each link's text and `href` as given.
- Text.IsSpace: it covers the fixed set of code points `str.isspace` accepts, and `split`/`strip` are modelled only for the one-character separators and default whitespace the program uses.
