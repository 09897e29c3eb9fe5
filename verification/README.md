# Page-index engine of the book gallery, in Dafny

The gallery turns folders of scanned book pages into per-book web viewers and
one index page. This project models the selection and indexing logic behind
that. It covers:

- the live viewer builder (`build.py`);
- its two archived variants (`archive/looker-build.py` and
  `archive/build-dev.py`);
- the archived PDF exporter (`archive/export-pdf.py`);
- the index builder (`index-builder.py`).

Each of the five keeps its own variant. The builders' `find_pages_folder` and
`parse_toc` differ in small ways, and each variant is written out and proved
on its own.

The directory tree is an input value: `Fs.Entry` is a file (name and decoded
text) or a directory (name and entries). A listing is a sequence of entries in
enumeration order, and a missing directory is `None`. The order `iterdir`
returns is the operating system's choice, so the listing order is never
assumed to be sorted. Everything else is plain string, list and integer logic
on unbounded integers; the limits of that reading are listed under "Left out".

Modules:

- `Wrappers` (`wrappers.dfy`): `Option`, `Result`, map, filter, "present
  values", "last present value", and a failure-aware left fold.
- `Text` (`text.dfy`): the parts of Python's `str` the code uses: `strip`,
  `split`, `splitlines`, ASCII case mapping, `isdigit`, `int()` and `str(n)`.
- `Order` (`order.dfy`): Python's ordering of `str` and `(int, str)` keys.
  `SortBy` is a stable sort that yields the list `list.sort`/`sorted` yields.
- `Fs` (`fs.dfy`): path suffix and stem, the image filter, the natural page
  key `num_key`, `find_images`, `find_toc_file`, `find_site_root` and
  `img_base`.
- `Toc` (`toc.dfy`): chapter and section records, `key=value` tokens, value
  coercion, and the record rules that the live and dev builders share.
- `Build` (`build.py`), `Looker` (`archive/looker-build.py`), `Dev`
  (`archive/build-dev.py`): each builder's `find_pages_folder` and
  `parse_toc`. `Looker` also has `page_info`.
- `Export` (`archive/export-pdf.py`): the exporter's `find_pages_folder`,
  page-range clamping, slicing and default output name.
- `IndexText` (`index-builder.py`): `extract_title`, `extract_meta_comment`
  and `label_from_filename`.
- `IndexBuilder` (`index-builder.py`): `collect_root_apps`,
  `first_existing_cover` and `collect_books`.

Code that works step by step in the source is modelled the same way. The
`parse_toc` loops, the list-building loops, and the scans that return early
are Dafny methods with loops. Each such method is proved equal to a
specification function. The properties the source promises are then proved
as lemmas about those functions.

## Model

| member | source | states |
|---|---|---|
| Fs.Suffix | build.py:42 | `Path.suffix` is empty, or a dot-led tail of the name with no other dot in it. |
| Fs.StemSuffix | index-builder.py:75 | The stem followed by the suffix is the whole file name. |
| Fs.ImageFiles | build.py:42 | The kept entries are exactly the files whose lower-cased suffix is in {.webp, .jpg, .jpeg, .png, .gif}. They stay in enumeration order. |
| Fs.ImageFilesEmpty | build.py:42 | No image file is kept exactly when the folder holds no image file. |
| Fs.FirstNumber | build.py:45 | `re.search(r"(\d+)")` finds nothing exactly when the name has no decimal digit. Otherwise it is the value of the leftmost digit run, taken whole. |
| Fs.NumKey | build.py:44-46 | The key is (first number, lower-cased name), or (999999, lower-cased name) when the name has no digits. |
| Fs.DigitlessAfterSmallNumbers | build.py:46 | A digitless name sorts after every name whose number is below 999999. |
| Fs.DigitlessBeforeLargeNumbers | build.py:46 | A digitless name sorts before a name whose number exceeds 999999: the sentinel is not an infinity. |
| Order.SortByCorrect | build.py:48 | The sort yields a permutation, ascending by key. Entries with equal keys keep their order. |
| Order.SortByIdempotent | build.py:48 | Sorting a sorted list by the same key changes nothing. |
| Fs.SortedImagesCorrect | build.py:38-49 | The pages are the folder's image files, each exactly once, ascending by `num_key` and stable. The list is empty exactly when the folder holds no image file. `get_sorted_images` in archive/export-pdf.py:44-52 sorts by the same key and is this same function. |
| Fs.FindImages | build.py:38-49 | A missing folder gives `[]`. Otherwise the loop collects the image files and sorts them by `num_key`. The looker and dev builders have the same text. |
| Fs.FindImagesNonEmpty | build.py:54-55 | `find_images(d)` is non-empty exactly when `d` directly holds an image file. |
| Fs.FindTocFile | build.py:69-78 | None exactly when there is no `.txt`. Otherwise the result is the first `.txt` whose lower-cased name contains `toc`, or else the first `.txt`. The looker and dev builders have the same text. |
| Fs.FindSiteRoot | build.py:15-28 | The result is the nearest of start and its parents that has `.git` or `books`. None (the `RuntimeError`) exactly when none has either. `find_site_root` in index-builder.py:26-32 is the same search. |
| Fs.FirstWith | archive/export-pdf.py:36-39 | The first entry in enumeration order that satisfies the test, or none when no entry does. |
| Fs.FirstIsUnique | archive/export-pdf.py:36-39 | Only one answer is "the first entry satisfying the test". |
| Build.ImgBaseChoice | build.py:184 | `img_base` is `""` when the book directory holds an image file. Otherwise it is the on-disk name of the first subfolder that `find_pages_folder` accepts, and that name is never a thumbnail alias. There is none exactly when no subfolder qualifies. |
| Dev.ImgBaseChoice | archive/build-dev.py:158 | `img_base` is `""` when the book directory holds an image file. Otherwise it is the lower-cased name of the first subfolder that `find_pages_folder` accepts, and that name is never a thumbnail alias. There is none exactly when no subfolder qualifies. |
| Looker.ImgBaseChoice | archive/looker-build.py:193-196 | `img_base` is `""` when the book directory holds an image file. Otherwise it is the lower-cased name of the first subfolder holding an image file, thumbnail folders included. There is none exactly when no subfolder holds one. |
| Toc.CoercionsAgreeOnDigits | archive/looker-build.py:115-118 | `int(v)` and `int(v) if v.isdigit() else v` agree whenever `isdigit` accepts. Otherwise the `isdigit` rule keeps the string. |
| Toc.StripAll | archive/build-dev.py:80 | Every token is its piece, stripped. None is dropped. |
| Toc.NonEmpty | build.py:105 | Exactly the non-empty tokens are kept, in order. |
| Toc.KvToken | build.py:121-124 | A token is a key=value pair exactly when it holds `=`. It is split at the first `=`. |
| Toc.ParseKv | build.py:119-124 | The `kv` loop builds the dict of the pair tokens, each value coerced. |
| Toc.LastValueNone | build.py:119-124 | No value is found for a key exactly when no token names it. |
| Toc.LastValueLast | build.py:119-124 | Otherwise the value found is that of the last token naming the key. |
| Toc.KvOfLastValue | build.py:119-124 | The dict holds a key exactly when a token names it. The key is bound to the coerced value of the last such token, so a later duplicate overwrites an earlier one. |
| Toc.RecordFields | build.py:126-131 | Code is `parts[1]` and title is `parts[2]`. `start` defaults to 1 and `end` defaults to the start. A section gets the same fields as a chapter from the same tokens. |
| Toc.ArchiveLine | archive/build-dev.py:76-82 | A blank or `#` line gives no record. Any other line gives at least one token. |
| Toc.ApplyAllMeaning | build.py:118-152 | The chapters are exactly the CHAPTER records, in order, with raw start and end. Each SECTION record after the first chapter becomes one section; the others are dropped. |
| Toc.SectionTouchesLastOnly | build.py:137-152 | A SECTION changes only the last chapter, appending to its sections. It never changes the number of chapters, and with no chapter it does nothing. |
| Build.FindPagesFolder | build.py:52-66 | A missing book gives none. A book holding an image is its own pages folder, and subfolders are not looked at. Otherwise the result is the first subfolder, in enumeration order, that holds an image and whose lower-cased name is not thumbs/thumb/thumbnails/tn; or none. For an existing book the result is `PagesFolderOf` with this builder's subfolder test. |
| Build.Tokens | build.py:105 | Every token is non-empty and stripped. |
| Toc.ApplyLine | build.py:119-152 | The CHAPTER and SECTION branches of the live builder apply the same record rules. `current_chapter` exists exactly when a chapter does. The CHAPTER and SECTION branches of archive/build-dev.py:84-125 are the same and use this member too. |
| Build.ReadTocLine | build.py:102-152 | One line moves the chapters and the offset exactly as the line-by-line specification does. |
| Build.ParseToc | build.py:81-154 | The single loop gives the same chapters and offset as the line-by-line specification. No file gives `([], 0)`. |
| Build.IgnoredLineNeutral | build.py:101-103 | Inserting a blank line or a `#` line anywhere never changes the result. |
| Build.RunOffset | build.py:111-116 | The offset is that of the last `OFFSET` line whose value is an integer, else 0. A malformed value leaves it unchanged. |
| Build.OffsetLineLeavesChapters | build.py:111-116 | An `OFFSET` line anywhere leaves every chapter and section as it was, so the offset is never applied to `start`/`end`. |
| Build.RunChapters | build.py:118-152 | The chapters depend only on the record lines, applied by the shared record rules. |
| Build.ParsedTocChapters | build.py:118-152 | For a whole file, the chapters are the declared CHAPTER records, raw. The number of sections is the number of SECTION records after the first chapter. |
| Dev.FindPagesFolder | archive/build-dev.py:35-49 | A book holding an image is its own pages folder. Otherwise the result is the first non-thumbnail subfolder holding an image, or none. Listing a missing book raises. For an existing book the result is `PagesFolderOf` with this builder's subfolder test. |
| Dev.ParseToc | archive/build-dev.py:66-127 | The loop gives the chapters of the specification. No file gives no chapters. |
| Dev.CommentLineIgnored | archive/build-dev.py:76-78 | Inserting a blank or `#` line anywhere never changes the chapters. |
| Dev.OffsetDirectiveIsComment | archive/build-dev.py:76-78 | A `# offset=` line is an ignored comment: this builder has no offset. |
| Dev.ParsedTocChapters | archive/build-dev.py:86-125 | The chapters are the CHAPTER records as written, with empty tokens kept. Each SECTION after the first chapter becomes one section. |
| Looker.FirstImageFolder | archive/looker-build.py:45-50 | The scan returns the first subfolder holding an image, thumbnail folders included, or none. |
| Looker.FindPagesFolder | archive/looker-build.py:38-52 | A book holding an image is its own pages folder. Otherwise the result is the first subfolder with an image, with no thumbnail exclusion, or none. Listing a missing book raises. For an existing book the result is `PagesFolderOf` with this builder's subfolder test. |
| Looker.DirectiveField | archive/looker-build.py:85-87 | On a `# offset=` line the `IndexError` cannot occur. The value read is the text between the first and second `=`. |
| Looker.ReadOffset | archive/looker-build.py:82-90 | After the first loop, the local offset and `result["offset"]` both equal the last valid directive, or 0. |
| Looker.OffsetFromLastDirective | archive/looker-build.py:82-90 | The offset is 0 without a valid directive. Otherwise it is the value of the last valid one, wherever it stands relative to the chapters. |
| Looker.ResultCarriesOffset | archive/looker-build.py:74-88 | Whenever the parse does not raise, the result carries that offset. |
| Looker.Pages | archive/looker-build.py:120-127 | The subtraction raises exactly when the start or the end is a string. Otherwise it gives (start − offset, end − offset), with `end` defaulting to the raw start. |
| Looker.ShiftPages | archive/looker-build.py:120-127 | The reads and subtractions compute `Pages`. |
| Looker.ApplyLine | archive/looker-build.py:103-158 | The CHAPTER and SECTION branches give `Record`, raising where it raises. `current_chapter` tracks the last chapter. |
| Looker.ReadLine | archive/looker-build.py:95-101 | A blank or `#` line is skipped. Otherwise the line's `|` tokens, stripped and with empty ones kept, are applied. |
| Looker.ReadChapters | archive/looker-build.py:92-158 | The second loop computes the fold of the specification and stops at the first error. |
| Looker.ParseToc | archive/looker-build.py:72-160 | The two loops give the specification's result or error. No file gives `{"chapters": [], "offset": 0}`. |
| Looker.RaiseIsFinal | archive/looker-build.py:120-127 | Once a line raises, nothing after it changes the outcome. |
| Looker.ChapterShift | archive/looker-build.py:105-130 | A stored chapter has the raw code and title, and start/end = raw value − offset. So stored `end − start` equals the raw span. It raises exactly when the raw start or end is not an integer. |
| Looker.SectionShift | archive/looker-build.py:132-158 | The same for a stored section. |
| Looker.NonIntegerStartRaises | archive/looker-build.py:115-121 | A chapter whose start is not an integer makes the whole parse raise, whatever follows. |
| Looker.SectionBeforeChapterSkipped | archive/looker-build.py:132-134 | A SECTION before any chapter is skipped, even one whose values would raise. |
| Looker.EmptyTokenKept | archive/looker-build.py:99 | `CHAPTER\|\|T` keeps its empty second token. |
| Looker.EmptyCodeKept | archive/looker-build.py:105-130 | For every title `t` and offset `o`, `CHAPTER\|\|t` is a chapter with code `""` and title `t`, starting and ending on page `1 − o`. |
| Looker.PageInfos | archive/looker-build.py:203-216 | There is one entry per image. Entry `i` is `(i, i + 1 − offset)`, so consecutive book pages differ by 1. The chapter scan records nothing. |
| Export.NamedPages | archive/export-pdf.py:25-28 | A picked named folder is a directory of the book called by one of the names. |
| Export.NamedPagesMeaning | archive/export-pdf.py:25-28 | A named folder is picked only if it is a directory with an image-suffixed entry. None is picked exactly when each name is missing or names a directory without one. The only error is listing a plain file. |
| Export.ExportFolder | archive/export-pdf.py:23-41 | A chosen subfolder is a directory of the book. |
| Export.ExportFolderMeaning | archive/export-pdf.py:23-41 | The result is never none, and each case is stated. A failure happens exactly when the named scan fails, and it is `NotADirectory`. A named pages/Pages/PAGES folder with an image-suffixed entry is returned. Otherwise the book is returned if it holds an image file. Otherwise the first subfolder that holds an image file and is not named thumbs/thumb/thumbnails is returned (`tn` is allowed). When there is no such subfolder, the book is returned. |
| Export.AnyImageEntry | archive/export-pdf.py:27 | The `any(...)` test is true exactly when some entry has an image suffix. |
| Export.FindNamedPages | archive/export-pdf.py:25-28 | The loop over the three names computes `NamedPages`. |
| Export.FirstCandidate | archive/export-pdf.py:35-39 | The last scan returns the first non-thumbnail subfolder holding an image file. |
| Export.FindPagesFolder | archive/export-pdf.py:23-41 | The function with early returns computes `ExportFolder`. |
| Export.ClampBounds | archive/export-pdf.py:74-75 | With at least one page, 1 ≤ from ≤ to ≤ total. |
| Export.ClampInRange | archive/export-pdf.py:74-75 | An in-range range is unchanged. A range with to < from becomes the single page `from`. |
| Export.ClampIdempotent | archive/export-pdf.py:74-75 | Clamping a clamped range changes nothing. |
| Export.Selection | archive/export-pdf.py:77 | `images[from-1:to]` has `to − from + 1` consecutive pages in sorted order. |
| Export.DefaultNameRoundTrip | archive/export-pdf.py:81-82 | `pages-{from}-{to}.pdf` reads back to (from, to), so different ranges never share a name. |
| Export.ExportPdf | archive/export-pdf.py:55-108 | A missing book returns 1. A listing error raises. No images returns 1, before any clamping. With at least one image the export always happens and returns 0. So the exit code is 1 exactly for a missing book or an empty page list, 0 exactly when the folder resolves with images, and absent exactly when finding the folder raises. The export's range is `Clamp` of the request, within [1, total]. Its pages are that slice of the sorted pages. Its name is the given output, or the default name built from the clamped values. |
| IndexText.FindFrom | index-builder.py:63 | The leftmost case-insensitive occurrence from a position, or none when there is no occurrence. |
| IndexText.Collapse | index-builder.py:66 | `re.sub(r"\s+", " ")` leaves no two adjacent white space characters and no white space other than a single space. |
| IndexText.CollapseKeepsVisible | index-builder.py:66 | Collapsing keeps every non-white-space character, in order. |
| IndexText.CollapseCollapsed | index-builder.py:66 | Collapsing collapsed text changes nothing. |
| IndexText.StripCollapsed | index-builder.py:66 | Stripping keeps text collapsed. |
| IndexText.ExtractTitle | index-builder.py:62-66 | A title is non-empty, stripped and collapsed. An empty one is None. |
| IndexText.TitleRoundTrip | index-builder.py:62-66 | `<title>t</title>` gives back `t` for any non-empty, stripped, collapsed `t` without `<`. |
| IndexText.GroupEnd | index-builder.py:70 | The lazy group ends at the first place where `\s*-->` follows. It never crosses a line feed. |
| IndexText.ExtractMeta | index-builder.py:69-71 | A value is non-empty, stripped and on one line. An empty one is None. |
| IndexText.MetaRoundTrip | index-builder.py:69-71 | `<!-- KEY: v -->` gives back `v` for any stripped one-line `v` without `>`. |
| IndexText.TitleCaseMeaning | index-builder.py:76 | `str.title` changes case only. Each word starts upper case and continues lower case. |
| IndexText.LabelFromFilename | index-builder.py:74-76 | With no words, the label is the whole file name. Otherwise it is the words title-cased: same length, same text up to case. |
| IndexText.WordsClean | index-builder.py:75 | After the replacements no `-` or `_` is left. |
| IndexText.LabelMeaning | index-builder.py:74-76 | A label made from words is non-empty, stripped, and free of `-` and `_`. |
| IndexBuilder.AppOf | index-builder.py:94-98 | The href is the file name. The topic is the meta TOPIC or "Unsorted", and is never empty. The desc defaults to `""`. The title falls back to the file label. |
| IndexBuilder.ReadApp | index-builder.py:82-98 | The four tests and the reads of one root entry give `AppEntry`. |
| IndexBuilder.Selected | index-builder.py:81-92 | What the loop keeps of a listing visited in lower-cased name order is exactly what the tests keep of its entries. |
| IndexBuilder.AppsMeaning | index-builder.py:81-92 | An app comes from an entry that is a file, has suffix `.html` in any case, is not an ignored page and starts with neither `_` nor `.`. Every such entry gives an app. |
| IndexBuilder.Topics | index-builder.py:98 | The group keys are exactly the apps' topics, each once, in first-seen order. |
| IndexBuilder.WithTopic | index-builder.py:98 | A group holds exactly the apps of its topic. |
| IndexBuilder.AddApp | index-builder.py:98 | `setdefault(...).append` keeps the keys and every group equal to the specification. |
| IndexBuilder.GroupApps | index-builder.py:81-98 | After the first loop, the keys are the topics and each group is its apps, in loop order. |
| IndexBuilder.SortGroups | index-builder.py:100-101 | Each group is sorted by lower-cased title, stably. No key is added or removed. |
| IndexBuilder.GroupMeaning | index-builder.py:100-101 | A sorted group is a permutation of its topic's apps, ascending by lower-cased title, with equal titles in loop order. |
| IndexBuilder.ListedKeys | index-builder.py:105 | The keys whose lower-cased form is not `unsorted`, in order. |
| IndexBuilder.SortedItems | index-builder.py:105-106 | One item per sorted topic, in that order, each bound to its group. |
| IndexBuilder.Ordered | index-builder.py:103-108 | The `ordered` dict has one item per topic of the order, each bound to its group. |
| IndexBuilder.OrderedTopicsMeaning | index-builder.py:104-108 | A topic is listed exactly when it is a key and either is not a spelling of `unsorted` or is exactly "Unsorted". Listed topics come sorted case-insensitively. "Unsorted" comes last. Other spellings such as "UNSORTED" are dropped. |
| IndexBuilder.EveryAppListed | index-builder.py:79-110 | Every app appears in its own topic's group, unless its topic is a spelling of `unsorted` other than "Unsorted". |
| IndexBuilder.CollectRootApps | index-builder.py:79-110 | The loops give the specification's ordered groups. |
| IndexBuilder.Candidates | index-builder.py:119-121 | The loops try `pages/001<ext>` before `thumbs/001<ext>`, with ext in the order .webp, .png, .jpg, .jpeg. |
| IndexBuilder.FirstCover | index-builder.py:119-124 | The first candidate that exists, with none before it, or none when no candidate exists. |
| IndexBuilder.Cover | index-builder.py:113-124 | A cover exists on disk. There is none exactly when no candidate exists. |
| IndexBuilder.FirstExistingCover | index-builder.py:113-124 | The nested loops with early return give `Cover`. |
| IndexBuilder.CoverFound | index-builder.py:119-124 | There is no cover exactly when none of the eight `base/001<ext>` paths exists. |
| IndexBuilder.PagesPreferred | index-builder.py:119-124 | An existing `pages/001<ext>` always wins over `thumbs`. |
| IndexBuilder.ExtensionOrder | index-builder.py:120-121 | A cover with a later extension means no earlier extension exists in that folder. |
| IndexBuilder.CoverSrc | index-builder.py:148-152 | `cover_src` is `""` exactly when there is no cover. It never holds a backslash. |
| IndexBuilder.TileEntry | index-builder.py:132-152 | An entry gets a tile exactly when it is a directory with `viewer.html`. The tile carries its name and viewer link. Its `cover_src` is `""` exactly when there is no cover, and the tile is kept. |
| IndexBuilder.ReadBook | index-builder.py:133-152 | The tests and cover lookup of one entry give `TileEntry`. |
| IndexBuilder.CollectBooks | index-builder.py:127-154 | A missing `books/` gives no tiles. Otherwise the loop gives the specification's tiles. |
| IndexBuilder.TilesMeaning | index-builder.py:132-139 | A tile is made for exactly the folders of `books/` that hold `viewer.html`. |
| IndexBuilder.TilesSorted | index-builder.py:132 | Tiles come in lower-cased name order. |

## Left out

- Real file-system access, `read_text` decoding with replacement characters, and `iterdir`/`glob` order. Listings and decoded file texts are inputs. A name appears at most once per directory.
- Reading a path that exists but is of the wrong kind is not modelled: a TOC "file" that is a directory, or a book path or `books/` that is a plain file. `parse_toc` receives the decoded text, and `find_pages_folder` receives the book's listing. Listing a plain file is modelled only where the source can reach it: the exporter's named `pages` folder.
- Every exact-name lookup assumes a case-sensitive file system, although the scripts also run on Windows, where names are matched without regard to case. This affects the exporter's `pages`/`Pages`/`PAGES` lookup (on a case-insensitive system the three names find the same folder), the `*.txt` glob of `find_toc_file` (`Fs.IsTxt`, `Fs.TxtFiles`: `TOC.TXT` would match there), the cover tests `(pages|thumbs)/001<ext>` (`IndexBuilder.CoverExists`), the `viewer.html` test (`IndexBuilder.TileEntry`), and the `.git`/`books` tests of `Fs.FindSiteRoot`.
- Python's Unicode character classes are modelled by their ASCII parts. This covers `str.isspace`/`strip`, `\s`, `\d`, `isdigit`, `int()`, `lower`/`upper`, `re.IGNORECASE` and `str.title`. `int()` is modelled as optional blanks, an optional sign, and digits with single underscores.
- Text.ParseInt, Text.DigitsValue and Toc.Coerce read digit strings of any length. Python 3.11 and later (and the matching security releases of older versions) make `int()` raise `ValueError` on a decimal string of more than 4300 digits. Such a value in a TOC differs from the model in four places. In build.py:125/143 the uncaught error ends `parse_toc`, where the model stores an `Int`. In build.py:114 an OFFSET line leaves the offset unchanged, where the model sets it. In the looker builder's first pass (archive/looker-build.py:85-89, `Looker.Directive`) the error is caught and the previous offset is kept, where the model sets it. In its second pass a start or end value stays a string, and the later subtraction raises `TypeError`. The limit depends on the interpreter version and setting, so it is not modelled. `num_key` cannot reach it, because file names are at most 255 bytes.
- `str.title` is modelled on ASCII letters only: a letter after a letter is lower-cased, and any other letter is upper-cased.
- IndexText.ExtractMeta: the `\s*` before and after the key is taken whole. This is exactly what the regex does for keys that do not start with white space, which holds for the two keys used, `TOPIC` and `DESC`.
- Order.SortByCorrect: `list.sort` and `sorted` are modelled by the list they return (a stable sort by key), not by an in-place algorithm. The sort is a library call, not code of this repository.
- `current_chapter` is a reference to the dict last appended to `result["chapters"]`. The model keeps a flag for "a chapter exists" and appends to the last chapter of the list, which is the same dict.
- The rest of `build_viewer`/`build_looker` is left out: the template reading and placeholder replacement, `json.dumps`, writing `viewer.html`, and the printouts.
- Also left out: `discover_books`, `main` and command-line parsing.
- From the exporter: Pillow image opening, mode conversion, PDF saving, the file-size printout, and the Pillow auto-install. The default output name is modelled as the file name inside the book directory.
- From the index builder: `build_index_html`, the template injection and `index.html` writing.
- `push.py`, `books/fams/thumbs.py`, the backup scripts and `archive/index-builder_old.py` are not part of this model.
