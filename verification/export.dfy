/**
 * The archived PDF exporter (`archive/export-pdf.py`): where the pages are,
 * which of them are exported, and the default name of the PDF.
 */
module Export {
  import opened Wrappers
  import opened Text
  import opened Order
  import opened Fs

  // ---------------------------------------------------------------- find_pages_folder

  /** The folder names tried first, in this order (the file system is taken
      to be case-sensitive). */
  const PagesNames: seq<string> := ["pages", "Pages", "PAGES"]

  /** Folder names this exporter skips; `tn` is not one of them. */
  const ExportThumbs: set<string> := {"thumbs", "thumb", "thumbnails"}

  /** `any(f.suffix.lower() in IMAGE_EXTS for f in p.iterdir())`: folders
      with an image suffix count as well. */
  predicate AnyImageSuffix(listing: seq<Entry>) {
    exists i | 0 <= i < |listing| :: HasImageSuffix(listing[i])
  }

  /** A subfolder of the last scan: not a thumbnail folder, and holding an
      image file. */
  predicate IsExportCandidate(e: Entry) {
    e.Dir? && Lower(e.name) !in ExportThumbs && HasImages(e.entries)
  }

  /** The first of `names` that exists and has an image-suffixed entry, as an
      index into the listing; listing an existing plain file raises. */
  function NamedPages(listing: seq<Entry>, names: seq<string>): (r: Result<Option<nat>, FsError>)
    ensures r.Success? && r.value.Some? ==>
      r.value.value < |listing| && listing[r.value.value].Dir? && listing[r.value.value].name in names
  {
    if names == [] then Success(None)
    else
      match ChildIndex(listing, names[0])
      case None => NamedPages(listing, names[1..])
      case Some(j) =>
        if listing[j].File? then Failure(NotADirectory)
        else if AnyImageSuffix(listing[j].entries) then Success(Some(j))
        else NamedPages(listing, names[1..])
  }

  /** Where `find_pages_folder` looks, in order: a `pages` folder, the book
      directory, the first non-thumbnail subfolder with an image, and the book
      directory again as the fallback. */
  function ExportFolder(book: seq<Entry>): (r: Result<PagesFolder, FsError>)
    ensures r.Success? && r.value.SubDir? ==> r.value.index < |book| && book[r.value.index].Dir?
  {
    match NamedPages(book, PagesNames)
    case Failure(e) => Failure(e)
    case Success(Some(j)) => Success(SubDir(j))
    case Success(None) =>
      if HasImages(book) then Success(BookDir)
      else
        match FirstWith(book, IsExportCandidate)
        case None => Success(BookDir)
        case Some(f) => Success(f)
  }

  /** A named folder is picked only if it is a directory called by one of the
      names and has an image-suffixed entry; none is picked only if each name
      is missing or names a directory without one. */
  lemma {:induction false} NamedPagesMeaning(listing: seq<Entry>, names: seq<string>)
    ensures NamedPages(listing, names).Success? && NamedPages(listing, names).value.Some? ==>
      var j := NamedPages(listing, names).value.value;
      && j < |listing| && listing[j].name in names
      && listing[j].Dir? && AnyImageSuffix(listing[j].entries)
    ensures NamedPages(listing, names) == Success(None) <==>
      forall k :: 0 <= k < |names| ==>
        var c := ChildIndex(listing, names[k]);
        c.None? || (listing[c.value].Dir? && !AnyImageSuffix(listing[c.value].entries))
    ensures NamedPages(listing, names).Failure? ==> NamedPages(listing, names) == Failure(NotADirectory)
    decreases |names|
  {
    if names != [] {
      NamedPagesMeaning(listing, names[1..]);
      assert forall k :: 1 <= k < |names| ==> names[k] == names[1..][k - 1];
    }
  }

  /** The result is always a folder, never none, and the four places are
      tried in order: a named pages folder, then the book directory if it
      holds an image file, then the first non-thumbnail subfolder holding one,
      else the book directory. The only error is listing a plain file. */
  lemma ExportFolderMeaning(book: seq<Entry>)
    ensures var n, r := NamedPages(book, PagesNames), ExportFolder(book);
      && (n.Failure? <==> r.Failure?)
      && (r.Failure? ==> r.error == NotADirectory)
      && (forall j :: n == Success(Some(j)) ==> r == Success(SubDir(j)))
      && (n == Success(None) && HasImages(book) ==> r == Success(BookDir))
      && (n == Success(None) && !HasImages(book) && (exists k | 0 <= k < |book| :: IsExportCandidate(book[k])) ==>
            && r.Success? && r.value.SubDir? && r.value.index < |book|
            && IsExportCandidate(book[r.value.index])
            && forall j :: 0 <= j < r.value.index ==> !IsExportCandidate(book[j]))
      && (n == Success(None) && !HasImages(book) && (forall k :: 0 <= k < |book| ==> !IsExportCandidate(book[k])) ==>
            r == Success(BookDir))
  {
    NamedPagesMeaning(book, PagesNames);
    var n := NamedPages(book, PagesNames);
    if n.Success? && n.value.None? && !HasImages(book) {
      var fw := FirstWith(book, IsExportCandidate);
      assert IsFirst(book, IsExportCandidate, fw);
      assert ExportFolder(book) == (if fw.None? then Success(BookDir) else Success(fw.value));
    }
  }

  /** The `any(...)` test of a named folder. */
  method AnyImageEntry(entries: seq<Entry>) returns (any: bool)
    ensures any == AnyImageSuffix(entries)
  {
    any := false;
    for i := 0 to |entries|
      invariant any <==> exists j | 0 <= j < i :: HasImageSuffix(entries[j])
    {
      if Lower(Suffix(entries[i].name)) in ImageExts {
        any := true;
      }
    }
  }

  /** The scan over the fixed names. */
  method FindNamedPages(book: seq<Entry>) returns (r: Result<Option<nat>, FsError>)
    ensures r == NamedPages(book, PagesNames)
  {
    var names := PagesNames;
    for k := 0 to |names|
      invariant NamedPages(book, names) == NamedPages(book, names[k..])
    {
      assert names[k..][1..] == names[k + 1..];
      var p := ChildIndex(book, names[k]);
      if p.Some? {
        if book[p.value].File? {
          return Failure(NotADirectory);
        }
        var any := AnyImageEntry(book[p.value].entries);
        if any {
          return Success(Some(p.value));
        }
      }
    }
    assert names[|names|..] == [];
    return Success(None);
  }

  /** The last scan of `find_pages_folder`: the first non-thumbnail subfolder
      holding an image file. */
  method FirstCandidate(book: seq<Entry>) returns (r: Option<PagesFolder>)
    ensures r == FirstWith(book, IsExportCandidate)
  {
    for i := 0 to |book|
      invariant forall j :: 0 <= j < i ==> !IsExportCandidate(book[j])
    {
      var sub := book[i];
      if sub.Dir? && Lower(sub.name) !in ExportThumbs {
        var subImages := FindImages(Some(sub.entries));
        FindImagesNonEmpty(sub.entries);
        if subImages != [] {
          FirstIsUnique(book, IsExportCandidate, Some(SubDir(i)));
          return Some(SubDir(i));
        }
      }
    }
    FirstIsUnique(book, IsExportCandidate, None);
    return None;
  }

  /** `find_pages_folder` */
  method FindPagesFolder(book: seq<Entry>) returns (r: Result<PagesFolder, FsError>)
    ensures r == ExportFolder(book)
  {
    var named := FindNamedPages(book);
    if named.Failure? {
      return Failure(named.error);
    }
    if named.value.Some? {
      return Success(SubDir(named.value.value));
    }
    var images := FindImages(Some(book));
    FindImagesNonEmpty(book);
    if images != [] {
      return Success(BookDir);
    }
    var sub := FirstCandidate(book);
    if sub.None? {
      return Success(BookDir);
    }
    return Success(sub.value);
  }

  /** The listing of the chosen folder. */
  function FolderListing(book: seq<Entry>, f: PagesFolder): seq<Entry>
    requires f.SubDir? ==> f.index < |book| && book[f.index].Dir?
  {
    match f
    case BookDir => book
    case SubDir(j) => book[j].entries
  }

  // ---------------------------------------------------------------- the range

  function Max(a: int, b: int): int { if a < b then b else a }

  function Min(a: int, b: int): int { if a < b then a else b }

  /** `from_page = max(1, min(total, from_page))`, then
      `to_page = max(from_page, min(total, to_page))`. */
  function Clamp(total: int, from: int, to: int): (int, int) {
    var f := Max(1, Min(total, from));
    (f, Max(f, Min(total, to)))
  }

  /** With at least one page the range lies within the pages and is not empty. */
  lemma ClampBounds(total: int, from: int, to: int)
    requires total >= 1
    ensures var (f, t) := Clamp(total, from, to); 1 <= f <= t <= total
  {
  }

  /** A range already within the pages is left as it is; one whose end is
      before its start becomes the single page at its (clamped) start. */
  lemma ClampInRange(total: int, from: int, to: int)
    ensures 1 <= from <= to <= total ==> Clamp(total, from, to) == (from, to)
    ensures 1 <= from <= total && to < from ==> Clamp(total, from, to) == (from, from)
  {
  }

  lemma ClampIdempotent(total: int, from: int, to: int)
    requires total >= 1
    ensures var (f, t) := Clamp(total, from, to); Clamp(total, f, t) == (f, t)
  {
  }

  /** `images[from_page - 1 : to_page]` for a clamped range: `to - from + 1`
      consecutive pages, in their sorted order. */
  function Selection(images: seq<Entry>, f: int, t: int): (r: seq<Entry>)
    requires 1 <= f <= t <= |images|
    ensures |r| == t - f + 1
    ensures forall k :: 0 <= k < |r| ==> r[k] == images[f - 1 + k]
    ensures SortedBy(images, EntryKey) ==> SortedBy(r, EntryKey)
  {
    images[f - 1..t]
  }

  // ---------------------------------------------------------------- the output name

  /** `f"pages-{from_page}-{to_page}.pdf"` */
  function DefaultName(f: nat, t: nat): string {
    "pages-" + NatToString(f) + "-" + NatToString(t) + ".pdf"
  }

  /** Reads the range back from a default name. */
  function RangeOfName(name: string): Option<(nat, nat)> {
    if |name| < 10 || !StartsWith(name, "pages-") || !EndsWith(name, ".pdf") then None
    else
      var mid := name[6..|name| - 4];
      var i := IndexOf(mid, '-');
      if i < |mid| && IsAllDigits(mid[..i]) && IsAllDigits(mid[i + 1..])
      then Some((DigitsValue(mid[..i]), DigitsValue(mid[i + 1..])))
      else None
  }

  /** The default name records the exported range: it can be read back, so
      two different ranges never share a name. */
  lemma DefaultNameRoundTrip(f: nat, t: nat)
    ensures RangeOfName(DefaultName(f, t)) == Some((f, t))
  {
    var a, b := NatToString(f), NatToString(t);
    assert DefaultName(f, t) == "pages-" + (a + "-" + b) + ".pdf";
    NameMiddle(a + "-" + b);
    MiddleParts(a, b);
    DigitsOfNatToString(f);
    DigitsOfNatToString(t);
  }

  lemma NameMiddle(mid: string)
    ensures var name := "pages-" + mid + ".pdf";
      && |name| == |mid| + 10
      && StartsWith(name, "pages-") && EndsWith(name, ".pdf")
      && name[6..|name| - 4] == mid
  {
    var name := "pages-" + mid + ".pdf";
    assert name[..6] == "pages-";
    assert name[|name| - 4..] == ".pdf";
  }

  lemma MiddleParts(a: string, b: string)
    requires IsAllDigits(a)
    ensures var mid := a + "-" + b;
      && IndexOf(mid, '-') == |a|
      && mid[..|a|] == a && mid[|a| + 1..] == b
  {
    var mid := a + "-" + b;
    assert forall i :: 0 <= i < |a| ==> mid[i] == a[i] && IsDigit(a[i]);
    assert mid[|a|] == '-';
  }

  // ---------------------------------------------------------------- export_pdf

  /** What `export_pdf` settles on before the images are converted. */
  datatype Plan = Plan(first: int, last: int, pages: seq<Entry>, output: string)

  datatype Outcome =
    | BookNotFound          // returns 1
    | NoImages              // returns 1
    | Raised(error: FsError)
    | Exported(plan: Plan)  // returns 0

  /** The return value of `export_pdf`; `None` when it raises instead. */
  function ExitCode(o: Outcome): (r: Option<int>)
    ensures r == None <==> o.Raised?
    ensures r == Some(0) <==> o.Exported?
    ensures r == Some(1) <==> o.BookNotFound? || o.NoImages?
  {
    match o
    case BookNotFound => Some(1)
    case NoImages => Some(1)
    case Raised(_) => None
    case Exported(_) => Some(0)
  }

  /** `export_pdf` up to the conversion: the book must exist and the chosen
      folder must hold an image file, checked before any clamping; then the
      export always happens, with the range clamped, sliced out of the sorted
      pages and named. `output` is
      the name given on the command line, if any. */
  method ExportPdf(book: Option<seq<Entry>>, from: int, to: int, output: Option<string>)
    returns (o: Outcome)
    ensures ExitCode(o) == None <==> book.Some? && ExportFolder(book.value).Failure?
    ensures ExitCode(o) == Some(1) <==>
      || book.None?
      || (&& book.Some? && ExportFolder(book.value).Success?
          && SortedImages(FolderListing(book.value, ExportFolder(book.value).value)) == [])
    ensures ExitCode(o) == Some(0) <==>
      && book.Some? && ExportFolder(book.value).Success?
      && SortedImages(FolderListing(book.value, ExportFolder(book.value).value)) != []
    ensures book.None? ==> o == BookNotFound
    ensures book.Some? && ExportFolder(book.value).Failure? ==> o == Raised(NotADirectory)
    ensures book.Some? && ExportFolder(book.value).Success? ==>
      var images := SortedImages(FolderListing(book.value, ExportFolder(book.value).value));
      && (images == [] ==> o == NoImages)
      && (images != [] ==>
            && o.Exported?
            && 1 <= o.plan.first <= o.plan.last <= |images|
            && (o.plan.first, o.plan.last) == Clamp(|images|, from, to)
            && o.plan.pages == Selection(images, o.plan.first, o.plan.last)
            && |o.plan.pages| >= 1
            && SortedBy(o.plan.pages, EntryKey)
            && o.plan.output == (if output.None? then DefaultName(o.plan.first, o.plan.last) else output.value))
  {
    if book.None? {
      return BookNotFound;
    }
    var folder := FindPagesFolder(book.value);
    ExportFolderMeaning(book.value);
    if folder.Failure? {
      return Raised(folder.error);
    }
    var images := SortedImages(FolderListing(book.value, folder.value));
    if images == [] {
      return NoImages;
    }
    SortedImagesCorrect(FolderListing(book.value, folder.value));
    var total := |images|;
    ClampBounds(total, from, to);
    var (f, t) := Clamp(total, from, to);
    var selected := Selection(images, f, t);
    var name := if output.None? then DefaultName(f, t) else output.value;
    return Exported(Plan(f, t, selected, name));
  }
}
