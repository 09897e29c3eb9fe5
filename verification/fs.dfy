/**
 * The directory tree as the builders see it, and the natural page order.
 *
 * A directory is the list of its entries in enumeration order (`iterdir`
 * order is up to the operating system, so it is an input here, never assumed
 * sorted). File contents are already-decoded text.
 */
module Fs {
  import opened Wrappers
  import opened Text
  import opened Order

  datatype Entry = File(name: string, text: string) | Dir(name: string, entries: seq<Entry>)

  /** Index of the first entry called `name` (names in one directory are distinct). */
  function ChildIndex(listing: seq<Entry>, name: string): (r: Option<nat>)
    ensures r.Some? ==> r.value < |listing| && listing[r.value].name == name
    ensures r.Some? ==> forall j :: 0 <= j < r.value ==> listing[j].name != name
    ensures r.None? <==> forall j :: 0 <= j < |listing| ==> listing[j].name != name
  {
    if listing == [] then None
    else if listing[0].name == name then Some(0)
    else match ChildIndex(listing[1..], name)
      case None => None
      case Some(j) => Some(j + 1)
  }

  /** `(dir / name).exists()` */
  predicate HasChild(listing: seq<Entry>, name: string) {
    ChildIndex(listing, name).Some?
  }

  // ---------------------------------------------------------------- file names

  /** `Path.suffix`: from the last dot, unless the dot leads or ends the name. */
  function Suffix(name: string): (r: string)
    ensures r == [] || (|r| >= 2 && r[0] == '.' && |r| < |name| && EndsWith(name, r))
    ensures forall i :: 0 < i < |r| ==> r[i] != '.'
  {
    var i := LastIndexOf(name, '.');
    if 0 < i < |name| - 1 then name[i..] else ""
  }

  /** `Path.stem`: the name without its suffix. */
  function Stem(name: string): string {
    var i := LastIndexOf(name, '.');
    if 0 < i < |name| - 1 then name[..i] else name
  }

  lemma StemSuffix(name: string)
    ensures Stem(name) + Suffix(name) == name
  {
  }

  /** `IMAGE_EXTS` of the three builders and of the PDF exporter. */
  const ImageExts: set<string> := {".webp", ".jpg", ".jpeg", ".png", ".gif"}

  predicate HasImageSuffix(e: Entry) {
    Lower(Suffix(e.name)) in ImageExts
  }

  /** `f.is_file() and f.suffix.lower() in IMAGE_EXTS` */
  predicate IsImageFile(e: Entry) {
    e.File? && HasImageSuffix(e)
  }

  /** The image files of a listing, in enumeration order. */
  function ImageFiles(listing: seq<Entry>): (r: seq<Entry>)
    ensures |r| <= |listing|
    ensures forall e :: e in r <==> e in listing && IsImageFile(e)
  {
    if listing == [] then []
    else
      var last := listing[|listing| - 1];
      ImageFiles(listing[..|listing| - 1]) + (if IsImageFile(last) then [last] else [])
  }

  /** A folder "has images" exactly when one of its entries is an image file. */
  predicate HasImages(listing: seq<Entry>) {
    exists i | 0 <= i < |listing| :: IsImageFile(listing[i])
  }

  lemma ImageFilesEmpty(listing: seq<Entry>)
    ensures ImageFiles(listing) == [] <==> !HasImages(listing)
  {
    if HasImages(listing) {
      var i :| 0 <= i < |listing| && IsImageFile(listing[i]);
      assert listing[i] in ImageFiles(listing);
    }
  }

  // ---------------------------------------------------------------- natural order

  /** Index of the first decimal digit, or `|s|`. */
  function FirstDigit(s: string): (r: nat)
    ensures r <= |s|
    ensures r < |s| ==> IsDigit(s[r])
    ensures forall i :: 0 <= i < r ==> !IsDigit(s[i])
  {
    if s == [] then 0 else if IsDigit(s[0]) then 0 else 1 + FirstDigit(s[1..])
  }

  /** End of the run of digits that starts at `i`. */
  function RunEnd(s: string, i: nat): (r: nat)
    requires i <= |s|
    ensures i <= r <= |s|
    ensures forall k :: i <= k < r ==> IsDigit(s[k])
    ensures r < |s| ==> !IsDigit(s[r])
    decreases |s| - i
  {
    if i < |s| && IsDigit(s[i]) then RunEnd(s, i + 1) else i
  }

  /** `re.search(r"(\d+)", name)`: the leftmost run of digits, taken whole. */
  function FirstNumber(name: string): (r: Option<nat>)
    ensures r.None? <==> forall i :: 0 <= i < |name| ==> !IsDigit(name[i])
  {
    var i := FirstDigit(name);
    if i == |name| then None else Some(DigitsValue(name[i..RunEnd(name, i)]))
  }

  /** The sentinel of `num_key` for names without digits. */
  const NoNumber: int := 999999

  /** `num_key`: the first number in the name, then the lower-cased name. */
  function NumKey(name: string): (k: Key)
    ensures k.s == Lower(name)
    ensures FirstNumber(name).Some? ==> k.n == FirstNumber(name).value
    ensures FirstNumber(name).None? ==> k.n == NoNumber
  {
    match FirstNumber(name)
    case Some(n) => Key(n, Lower(name))
    case None => Key(NoNumber, Lower(name))
  }

  function EntryKey(e: Entry): Key {
    NumKey(e.name)
  }

  /** A name without digits sorts after every name whose number is below the
      sentinel ... */
  lemma DigitlessAfterSmallNumbers(a: string, b: string)
    requires FirstNumber(a).Some? && FirstNumber(a).value < NoNumber
    requires FirstNumber(b).None?
    ensures KeyLt(NumKey(a), NumKey(b))
  {
  }

  /** ... but before every name whose number exceeds it: the sentinel is not
      an infinity. */
  lemma DigitlessBeforeLargeNumbers(a: string, b: string)
    requires FirstNumber(a).Some? && FirstNumber(a).value > NoNumber
    requires FirstNumber(b).None?
    ensures KeyLt(NumKey(b), NumKey(a))
  {
  }

  // ---------------------------------------------------------------- find_images

  /** What `find_images` returns for an existing folder: its image files in
      natural page order. */
  function SortedImages(listing: seq<Entry>): seq<Entry> {
    SortBy(ImageFiles(listing), EntryKey)
  }

  /** The pages are exactly the image files of the folder, each once, ascending
      by `num_key`, and entries with equal keys keep their enumeration order. */
  lemma SortedImagesCorrect(listing: seq<Entry>)
    ensures var r := SortedImages(listing);
      && multiset(r) == multiset(ImageFiles(listing))
      && (forall e :: e in r <==> e in listing && IsImageFile(e))
      && SortedBy(r, EntryKey)
      && (forall k :: WithKey(r, EntryKey, k) == WithKey(ImageFiles(listing), EntryKey, k))
      && (r == [] <==> !HasImages(listing))
  {
    var r := SortedImages(listing);
    SortByCorrect(ImageFiles(listing), EntryKey);
    SortByLength(ImageFiles(listing), EntryKey);
    ImageFilesEmpty(listing);
    forall e ensures e in r <==> e in ImageFiles(listing) {
      assert e in r <==> e in multiset(r);
    }
  }

  /** `find_images` (the same text in the live, looker and dev builders): a
      missing folder has no pages; otherwise the image files are collected in
      enumeration order and sorted by `num_key`. */
  method FindImages(folder: Option<seq<Entry>>) returns (images: seq<Entry>)
    ensures folder.None? ==> images == []
    ensures folder.Some? ==> images == SortedImages(folder.value)
  {
    if folder.None? {
      return [];
    }
    var listing := folder.value;
    images := [];
    for i := 0 to |listing|
      invariant images == ImageFiles(listing[..i])
    {
      assert listing[..i + 1][..i] == listing[..i];
      var f := listing[i];
      if f.File? && Lower(Suffix(f.name)) in ImageExts {
        images := images + [f];
      }
    }
    assert listing[..|listing|] == listing;
    images := SortBy(images, EntryKey);
  }

  /** `find_images(folder)` is non-empty exactly when the folder holds an image file. */
  lemma FindImagesNonEmpty(listing: seq<Entry>)
    ensures SortedImages(listing) != [] <==> HasImages(listing)
  {
    SortedImagesCorrect(listing);
  }

  // ---------------------------------------------------------------- find_toc_file

  /** Matched by the glob `*.txt`. */
  predicate IsTxt(e: Entry) {
    EndsWith(e.name, ".txt")
  }

  predicate IsTocTxt(e: Entry) {
    IsTxt(e) && Contains(Lower(e.name), "toc")
  }

  /** `list(book_dir.glob("*.txt"))`, as indices into the listing: every
      `.txt` entry, each once, in enumeration order. */
  method TxtFiles(listing: seq<Entry>) returns (txt: seq<nat>)
    ensures forall k :: 0 <= k < |txt| ==> txt[k] < |listing| && IsTxt(listing[txt[k]])
    ensures forall k, l :: 0 <= k < l < |txt| ==> txt[k] < txt[l]
    ensures forall j :: 0 <= j < |listing| && IsTxt(listing[j]) ==> j in txt
  {
    txt := [];
    for i := 0 to |listing|
      invariant forall k :: 0 <= k < |txt| ==> txt[k] < i && IsTxt(listing[txt[k]])
      invariant forall k, l :: 0 <= k < l < |txt| ==> txt[k] < txt[l]
      invariant forall j :: 0 <= j < i && IsTxt(listing[j]) ==> j in txt
    {
      if EndsWith(listing[i].name, ".txt") {
        txt := txt + [i];
      }
    }
  }

  /** `find_toc_file` (the same text in the live, looker and dev builders):
      the first `.txt` whose lower-cased name contains `toc`, else the first
      `.txt`, else none. The result is an index into the listing. */
  method FindTocFile(listing: seq<Entry>) returns (r: Option<nat>)
    ensures r.None? <==> forall i :: 0 <= i < |listing| ==> !IsTxt(listing[i])
    ensures r.Some? ==> r.value < |listing| && IsTxt(listing[r.value])
    ensures r.Some? && IsTocTxt(listing[r.value]) ==>
      forall j :: 0 <= j < r.value ==> !IsTocTxt(listing[j])
    ensures r.Some? && !IsTocTxt(listing[r.value]) ==>
      (forall j :: 0 <= j < |listing| ==> !IsTocTxt(listing[j]))
      && forall j :: 0 <= j < r.value ==> !IsTxt(listing[j])
  {
    var txt := TxtFiles(listing);
    if txt == [] {
      return None;
    }
    for k := 0 to |txt|
      invariant forall l :: 0 <= l < k ==> !IsTocTxt(listing[txt[l]])
    {
      if Contains(Lower(listing[txt[k]].name), "toc") {
        forall j | 0 <= j < txt[k]
          ensures !IsTocTxt(listing[j])
        {
          if IsTxt(listing[j]) {
            var l :| 0 <= l < |txt| && txt[l] == j;
            assert l < k;
          }
        }
        return Some(txt[k]);
      }
    }
    forall j | 0 <= j < |listing|
      ensures !IsTocTxt(listing[j])
      ensures j < txt[0] ==> !IsTxt(listing[j])
    {
      if IsTxt(listing[j]) {
        var l :| 0 <= l < |txt| && txt[l] == j;
        assert l == 0 || txt[0] < txt[l];
      }
    }
    r := Some(txt[0]);
  }

  // ---------------------------------------------------------------- find_site_root

  /** `find_site_root` (the same text in the live builder and the index
      builder): `chain` holds the listings of `start` and of each of its
      parents, nearest first. The result is the index of the first one that
      has a `.git` or a `books` entry; `None` stands for the `RuntimeError`. */
  method FindSiteRoot(chain: seq<seq<Entry>>) returns (r: Option<nat>)
    ensures r.Some? ==> r.value < |chain| && IsSiteRoot(chain[r.value])
    ensures r.Some? ==> forall j :: 0 <= j < r.value ==> !IsSiteRoot(chain[j])
    ensures r.None? <==> forall j :: 0 <= j < |chain| ==> !IsSiteRoot(chain[j])
  {
    for i := 0 to |chain|
      invariant forall j :: 0 <= j < i ==> !IsSiteRoot(chain[j])
    {
      if HasChild(chain[i], ".git") {
        return Some(i);
      }
      if HasChild(chain[i], "books") {
        return Some(i);
      }
    }
    return None;
  }

  predicate IsSiteRoot(listing: seq<Entry>) {
    HasChild(listing, ".git") || HasChild(listing, "books")
  }

  // ---------------------------------------------------------------- pages folders

  /** The error `iterdir` raises on a path that is missing or is not a directory. */
  datatype FsError = NotFound | NotADirectory

  /** Folder names the live and dev builders never take for the pages. */
  const ThumbAliases: set<string> := {"thumbs", "thumb", "thumbnails", "tn"}

  /** A subfolder that the live and dev `find_pages_folder` may pick. */
  predicate IsPagesCandidate(e: Entry) {
    e.Dir? && Lower(e.name) !in ThumbAliases && HasImages(e.entries)
  }

  /** The loop test of the live and dev `find_pages_folder`: a subfolder
      whose lower-cased name is no thumbnail alias and that holds an image. */
  method IsPagesSubfolder(sub: Entry) returns (ok: bool)
    ensures ok <==> IsPagesCandidate(sub)
  {
    if !sub.Dir? || Lower(sub.name) in ThumbAliases {
      return false;
    }
    var subImages := FindImages(Some(sub.entries));
    FindImagesNonEmpty(sub.entries);
    ok := subImages != [];
  }

  /** The scan of the live and dev `find_pages_folder` over the book's
      entries, in enumeration order. */
  method FirstPagesSubfolder(listing: seq<Entry>) returns (r: Option<PagesFolder>)
    ensures IsFirst(listing, IsPagesCandidate, r)
  {
    for i := 0 to |listing|
      invariant forall j :: 0 <= j < i ==> !IsPagesCandidate(listing[j])
    {
      var ok := IsPagesSubfolder(listing[i]);
      if ok {
        return Some(SubDir(i));
      }
    }
    return None;
  }

  /** `r` is the first entry of the listing that satisfies `ok`, or none when
      no entry does. */
  predicate IsFirst(listing: seq<Entry>, ok: Entry -> bool, r: Option<PagesFolder>) {
    && (r.None? <==> forall j :: 0 <= j < |listing| ==> !ok(listing[j]))
    && (r.Some? ==>
          && r.value.SubDir? && r.value.index < |listing|
          && ok(listing[r.value.index])
          && forall j :: 0 <= j < r.value.index ==> !ok(listing[j]))
  }

  /** The first entry satisfying `ok`, from the front of the listing. */
  function FirstWith(listing: seq<Entry>, ok: Entry -> bool): (r: Option<PagesFolder>)
    ensures IsFirst(listing, ok, r)
  {
    if listing == [] then None
    else if ok(listing[0]) then Some(SubDir(0))
    else
      match FirstWith(listing[1..], ok)
      case None => None
      case Some(f) => Some(SubDir(f.index + 1))
  }

  /** Only one answer satisfies `IsFirst`. */
  lemma FirstIsUnique(listing: seq<Entry>, ok: Entry -> bool, r: Option<PagesFolder>)
    requires IsFirst(listing, ok, r)
    ensures r == FirstWith(listing, ok)
  {
    var q := FirstWith(listing, ok);
    if r.Some? && q.Some? {
      assert !(r.value.index < q.value.index) && !(q.value.index < r.value.index);
    }
  }

  /** Where a book's pages are: the book directory itself or the entry at an
      index of its listing. */
  datatype PagesFolder = BookDir | SubDir(index: nat)

  /** The `img_base` given to the viewer: `""` for the book directory, else
      the name of the folder (lower-cased by the looker and dev builders). */
  function ImgBase(listing: seq<Entry>, f: PagesFolder, lower: bool): (r: string)
    requires f.SubDir? ==> f.index < |listing|
    ensures f.BookDir? ==> r == ""
    ensures f.SubDir? && !lower ==> r == listing[f.index].name
    ensures f.SubDir? && lower ==> r == Lower(listing[f.index].name)
  {
    match f
    case BookDir => ""
    case SubDir(i) => if lower then Lower(listing[i].name) else listing[i].name
  }

  /** The folder `find_pages_folder` settles on in an existing book
      directory: the directory itself when it holds an image file, else the
      first subfolder passing the builder's test `ok`, else none. */
  function PagesFolderOf(book: seq<Entry>, ok: Entry -> bool): (r: Option<PagesFolder>)
    ensures r.Some? && r.value.SubDir? ==> r.value.index < |book|
  {
    if HasImages(book) then Some(BookDir) else FirstWith(book, ok)
  }

  /** `img_base` as `build_viewer` sets it once a pages folder is found
      (`""` for the book directory, else the folder's name, lower-cased when
      `lower`); none when there is no pages folder and the build stops. */
  function ViewerImgBase(book: seq<Entry>, ok: Entry -> bool, lower: bool): Option<string> {
    match PagesFolderOf(book, ok)
    case None => None
    case Some(f) => Some(ImgBase(book, f, lower))
  }

  /** The book directory gives `""`; otherwise the name is that of the first
      subfolder passing `ok`, and there is none exactly when no subfolder
      passes it. */
  lemma ImgBaseMeaning(book: seq<Entry>, ok: Entry -> bool, lower: bool)
    ensures HasImages(book) ==> ViewerImgBase(book, ok, lower) == Some("")
    ensures !HasImages(book) ==>
      (ViewerImgBase(book, ok, lower).None? <==> forall j :: 0 <= j < |book| ==> !ok(book[j]))
    ensures !HasImages(book) && ViewerImgBase(book, ok, lower).Some? ==>
      exists i :: 0 <= i < |book| && ok(book[i]) && (forall j :: 0 <= j < i ==> !ok(book[j]))
        && ViewerImgBase(book, ok, lower).value == (if lower then Lower(book[i].name) else book[i].name)
  {
    var f := FirstWith(book, ok);
    if !HasImages(book) && f.Some? {
      var i := f.value.index;
      assert ok(book[i]) && forall j :: 0 <= j < i ==> !ok(book[j]);
    }
  }
}
