/**
 * The archived looker builder (`archive/looker-build.py`): the page offset
 * comes from a `# offset=` comment read in a first pass and is subtracted from
 * every start and end; values go through `int()`; each image gets a book page
 * number.
 */
module Looker {
  import opened Wrappers
  import opened Text
  import opened Fs
  import opened Toc

  // ---------------------------------------------------------------- find_pages_folder

  /** A subfolder this builder may pick: any directory holding an image. */
  predicate HoldsImages(e: Entry) {
    e.Dir? && HasImages(e.entries)
  }

  /** The scan of `find_pages_folder` over the book's entries: the first
      subfolder holding an image, thumbnail folders included. */
  method FirstImageFolder(listing: seq<Entry>) returns (r: Option<PagesFolder>)
    ensures IsFirst(listing, HoldsImages, r)
  {
    for i := 0 to |listing|
      invariant forall j :: 0 <= j < i ==> !HoldsImages(listing[j])
    {
      var subfolder := listing[i];
      if !subfolder.Dir? {
        continue;
      }
      var subImages := FindImages(Some(subfolder.entries));
      FindImagesNonEmpty(subfolder.entries);
      if subImages != [] {
        return Some(SubDir(i));
      }
    }
    return None;
  }

  /** `find_pages_folder`: the book directory when it holds an image, else the
      first subfolder holding an image, thumbnail folders included, else none.
      Listing a missing book directory raises. */
  method FindPagesFolder(book: Option<seq<Entry>>) returns (r: Result<Option<PagesFolder>, FsError>)
    ensures book.None? ==> r == Failure(NotFound)
    ensures book.Some? && HasImages(book.value) ==> r == Success(Some(BookDir))
    ensures book.Some? && !HasImages(book.value) ==>
      r.Success? && IsFirst(book.value, HoldsImages, r.value)
    ensures book.Some? ==> r == Success(PagesFolderOf(book.value, HoldsImages))
  {
    var images := FindImages(book);
    if images != [] {
      FindImagesNonEmpty(book.value);
      return Success(Some(BookDir));
    }
    if book.None? {
      return Failure(NotFound);
    }
    FindImagesNonEmpty(book.value);
    var sub := FirstImageFolder(book.value);
    FirstIsUnique(book.value, HoldsImages, sub);
    return Success(sub);
  }

  /** `img_base`: empty for a book directory holding an image file,
      otherwise the lower-cased name of the first subfolder holding one,
      thumbnail folders included; none when no folder qualifies. */
  lemma ImgBaseChoice(book: seq<Entry>)
    ensures HasImages(book) ==> ViewerImgBase(book, HoldsImages, true) == Some("")
    ensures !HasImages(book) ==>
      (ViewerImgBase(book, HoldsImages, true).None? <==>
         forall j :: 0 <= j < |book| ==> !HoldsImages(book[j]))
    ensures var r := ViewerImgBase(book, HoldsImages, true);
      !HasImages(book) && r.Some? ==>
        exists i :: 0 <= i < |book| && HoldsImages(book[i])
          && (forall j :: 0 <= j < i ==> !HoldsImages(book[j]))
          && r.value == Lower(book[i].name)
  {
    ImgBaseMeaning(book, HoldsImages, true);
  }

  // ---------------------------------------------------------------- first pass: the offset

  /** The offset a line sets in the first pass: a stripped line starting with
      `# offset=` whose second `=`-separated field is an integer. `None` for
      any other line, and when `int()` raises (the error is swallowed). */
  function Directive(raw: string): Option<int> {
    var line := Strip(raw);
    if !StartsWith(line, "# offset=") then None
    else
      var pieces := Split(line, '=');
      if |pieces| < 2 then None else ParseInt(Strip(pieces[1]))
  }

  lemma SplitHead(s: string, sep: char)
    ensures Split(s, sep)[0] == s[..IndexOf(s, sep)]
  {
  }

  /** For a directive line the `IndexError` cannot happen, and the value read
      is the text between the first and the second `=`. */
  lemma DirectiveField(line: string)
    requires StartsWith(line, "# offset=")
    ensures |Split(line, '=')| >= 2
    ensures Split(line, '=')[1] == line[9..][..IndexOf(line[9..], '=')]
  {
    assert line[..9] == "# offset=";
    assert forall i :: 0 <= i < 8 ==> line[i] != '=';
    assert line[8] == '=';
    assert IndexOf(line, '=') == 8;
    SplitHead(line[9..], '=');
  }

  /** The offset after the first pass. */
  function DirectiveOffset(lines: seq<string>): int {
    LastOr(Map(Directive, lines), 0)
  }

  // ---------------------------------------------------------------- second pass: the chapters

  /** Subtracting the offset from a `str` raises `TypeError`. */
  datatype TocError = TypeError

  /** The dict `parse_toc` returns: it always carries the offset. */
  datatype LookerToc = LookerToc(chapters: seq<Chapter<int>>, offset: int)

  /** `v - offset` */
  function Minus(v: Value, offset: int): Result<int, TocError> {
    if v.Int? then Success(v.n - offset) else Failure(TypeError)
  }

  /** A record's `kv` dict, values through `int()`. */
  function RecordKv(parts: seq<string>): map<string, Value>
    requires |parts| >= 3
  {
    KvOf(KvTokens(parts[3..]), IntCall)
  }

  /** `start` (default 1) and `end` (default the raw start), each less the
      offset, the start first; the subtraction raises on a `str`. */
  function Pages(kv: map<string, Value>, offset: int): (r: Result<(int, int), TocError>)
    ensures r.Failure? <==> StartOf(kv).Str? || EndOf(kv).Str?
    ensures r.Success? ==> r.value == (StartOf(kv).n - offset, EndOf(kv).n - offset)
  {
    match Minus(StartOf(kv), offset)
    case Failure(e) => Failure(e)
    case Success(start) =>
      match Minus(EndOf(kv), offset)
      case Failure(e) => Failure(e)
      case Success(end) => Success((start, end))
  }

  /** The stored chapter of a CHAPTER record. */
  function ShiftedChapter(parts: seq<string>, offset: int): Result<Chapter<int>, TocError>
    requires |parts| >= 3
  {
    match Pages(RecordKv(parts), offset)
    case Failure(e) => Failure(e)
    case Success(p) => Success(Chapter(parts[1], parts[2], p.0, p.1, []))
  }

  /** The stored section of a SECTION record. */
  function ShiftedSection(parts: seq<string>, offset: int): Result<Section<int>, TocError>
    requires |parts| >= 3
  {
    match Pages(RecordKv(parts), offset)
    case Failure(e) => Failure(e)
    case Success(p) => Success(Section(parts[1], parts[2], p.0, p.1))
  }

  /** A record line of the second pass applied to the chapters so far. */
  function Record(chapters: seq<Chapter<int>>, parts: seq<string>, offset: int)
    : Result<seq<Chapter<int>>, TocError>
  {
    if IsChapterRecord(parts) then
      match ShiftedChapter(parts, offset)
      case Failure(e) => Failure(e)
      case Success(ch) => Success(chapters + [ch])
    else if IsSectionRecord(parts) && chapters != [] then
      match ShiftedSection(parts, offset)
      case Failure(e) => Failure(e)
      case Success(s) => Success(AddSection(chapters, s))
    else Success(chapters)
  }

  /** One line of the second pass: skipped lines leave the chapters as they are. */
  function Step(chapters: seq<Chapter<int>>, l: Option<seq<string>>, offset: int)
    : Result<seq<Chapter<int>>, TocError>
  {
    if l.None? then Success(chapters) else Record(chapters, l.value, offset)
  }

  function StepAt(offset: int): (seq<Chapter<int>>, Option<seq<string>>) -> Result<seq<Chapter<int>>, TocError> {
    (chapters, l) => Step(chapters, l, offset)
  }

  /** The second pass over the tokenised lines; an error ends the parse. */
  function Run(ls: seq<Option<seq<string>>>, offset: int): Result<seq<Chapter<int>>, TocError> {
    Fold(StepAt(offset), [], ls)
  }

  /** What `parse_toc` returns or raises for a file (`None`: no file, or it
      does not exist). */
  function ParsedToc(file: Option<string>): Result<LookerToc, TocError> {
    match file
    case None => Success(LookerToc([], 0))
    case Some(text) =>
      var lines := SplitLines(text);
      var offset := DirectiveOffset(lines);
      match Run(Map(ArchiveLine, lines), offset)
      case Failure(e) => Failure(e)
      case Success(chapters) => Success(LookerToc(chapters, offset))
  }


  /** The reads of `start` and `end` and their subtractions. */
  method ShiftPages(kv: map<string, Value>, offset: int) returns (r: Result<(int, int), TocError>)
    ensures r == Pages(kv, offset)
  {
    var startPage := Get(kv, "start", Int(1));
    if startPage.Str? {
      return Failure(TypeError);
    }
    var endPage := Get(kv, "end", startPage);
    if endPage.Str? {
      return Failure(TypeError);
    }
    return Success((startPage.n - offset, endPage.n - offset));
  }

  /** The CHAPTER and SECTION branches of the second loop. */
  method ApplyLine(chapters: seq<Chapter<int>>, current: bool, parts: seq<string>, offset: int)
    returns (r: Result<seq<Chapter<int>>, TocError>, current': bool)
    requires |parts| >= 1
    requires current <==> chapters != []
    ensures r == Record(chapters, parts, offset)
    ensures r.Success? ==> (current' <==> r.value != [])
  {
    r, current' := Success(chapters), current;
    var kind := Upper(parts[0]);
    if kind == "CHAPTER" && |parts| >= 3 {
      var kv := ParseKv(parts[3..], IntCall);
      assert kv == RecordKv(parts);
      var pages := ShiftPages(kv, offset);
      if pages.Failure? {
        return Failure(TypeError), current;
      }
      r := Success(chapters + [Chapter(parts[1], parts[2], pages.value.0, pages.value.1, [])]);
      current' := true;
    } else if kind == "SECTION" && |parts| >= 3 {
      if !current {
        return;
      }
      var kv := ParseKv(parts[3..], IntCall);
      assert kv == RecordKv(parts);
      var pages := ShiftPages(kv, offset);
      if pages.Failure? {
        return Failure(TypeError), current;
      }
      var s := Section(parts[1], parts[2], pages.value.0, pages.value.1);
      var last := chapters[|chapters| - 1];
      r := Success(chapters[|chapters| - 1 := last.(sections := last.sections + [s])]);
    }
  }

  /** The first loop of `parse_toc`: every valid directive overwrites both
      the local offset and the result's, so they end as the last one. */
  method ReadOffset(lines: seq<string>) returns (offset: int, resultOffset: int)
    ensures offset == resultOffset == DirectiveOffset(lines)
  {
    ghost var ds := Map(Directive, lines);
    offset, resultOffset := 0, 0;
    for i := 0 to |lines|
      invariant offset == resultOffset == LastOr(ds[..i], 0)
    {
      LastOrStep(ds, 0, i);
      assert ds[i] == Directive(lines[i]);
      var line := Strip(lines[i]);
      if StartsWith(line, "# offset=") {
        var pieces := Split(line, '=');
        if |pieces| >= 2 {
          var n := ParseInt(Strip(pieces[1]));
          if n.Some? {
            offset := n.value;
            resultOffset := offset;
          }
        }
      }
    }
    assert ds[..|lines|] == ds;
  }

  /** One iteration of the second loop: blank and `#` lines are skipped,
      any other line is split on `|` into stripped tokens and applied. */
  method ReadLine(chapters: seq<Chapter<int>>, current: bool, raw: string, offset: int)
    returns (r: Result<seq<Chapter<int>>, TocError>, current': bool)
    requires current <==> chapters != []
    ensures r == Step(chapters, ArchiveLine(raw), offset)
    ensures r.Success? ==> (current' <==> r.value != [])
  {
    var line := Strip(raw);
    if line == [] || StartsWith(line, "#") {
      return Success(chapters), current;
    }
    var parts := StripAll(Split(line, '|'));
    r, current' := ApplyLine(chapters, current, parts, offset);
  }

  /** The second loop of `parse_toc`; `current_chapter` is always the last
      chapter appended. */
  method ReadChapters(lines: seq<string>, offset: int) returns (r: Result<seq<Chapter<int>>, TocError>)
    ensures r == Run(Map(ArchiveLine, lines), offset)
  {
    ghost var ls := Map(ArchiveLine, lines);
    var chapters: seq<Chapter<int>> := [];
    var current := false;
    for i := 0 to |lines|
      invariant Run(ls[..i], offset) == Success(chapters)
      invariant current <==> chapters != []
    {
      FoldStep(StepAt(offset), [], ls, i);
      assert ls[i] == ArchiveLine(lines[i]);
      var step;
      step, current := ReadLine(chapters, current, lines[i], offset);
      if step.Failure? {
        FoldFailurePrefix(StepAt(offset), [], ls, i + 1);
        return step;
      }
      chapters := step.value;
    }
    assert ls[..|lines|] == ls;
    return Success(chapters);
  }

  /** `parse_toc`: a first pass for the offset, then a second pass for the
      chapters. */
  method ParseToc(file: Option<string>) returns (r: Result<LookerToc, TocError>)
    ensures r == ParsedToc(file)
    ensures file.None? ==> r == Success(LookerToc([], 0))
  {
    if file.None? {
      return Success(LookerToc([], 0));
    }
    var lines := SplitLines(file.value);
    var offset, resultOffset := ReadOffset(lines);
    var chapters := ReadChapters(lines, offset);
    if chapters.Failure? {
      return Failure(chapters.error);
    }
    return Success(LookerToc(chapters.value, resultOffset));
  }

  // ---------------------------------------------------------------- properties

  /** The offset is the value of the last valid directive, 0 when there is
      none, and it applies to every line of the file, before it or after. */
  lemma OffsetFromLastDirective(lines: seq<string>)
    ensures (forall i :: 0 <= i < |lines| ==> Directive(lines[i]).None?) ==> DirectiveOffset(lines) == 0
    ensures forall i :: 0 <= i < |lines| && Directive(lines[i]).Some?
                 && (forall j :: i < j < |lines| ==> Directive(lines[j]).None?)
                 ==> DirectiveOffset(lines) == Directive(lines[i]).value
  {
    var ds := Map(Directive, lines);
    LastOrMeaning(ds, 0);
  }

  /** The result carries that offset whenever the parse does not raise. */
  lemma ResultCarriesOffset(text: string)
    ensures ParsedToc(Some(text)).Success? ==>
      ParsedToc(Some(text)).value.offset == DirectiveOffset(SplitLines(text))
  {
  }


  /** Once a line raises, the rest of the file is never read. */
  lemma RaiseIsFinal(a: seq<Option<seq<string>>>, b: seq<Option<seq<string>>>, offset: int)
    requires Run(a, offset).Failure?
    ensures Run(a + b, offset) == Run(a, offset)
  {
    FoldFailure(StepAt(offset), [], a, b);
  }

  /** A stored chapter is its raw start and end less the offset, so its span
      `end - start` is the raw span; it raises exactly when the raw start or
      end is not an integer. */
  lemma ChapterShift(parts: seq<string>, offset: int)
    requires |parts| >= 3
    ensures var raw, r := ChapterOf(parts, IntCall), ShiftedChapter(parts, offset);
      && (r.Failure? <==> raw.start.Str? || raw.end.Str?)
      && (r.Success? ==>
            && r.value.code == parts[1] && r.value.title == parts[2]
            && r.value.start == raw.start.n - offset
            && r.value.end == raw.end.n - offset
            && r.value.end - r.value.start == raw.end.n - raw.start.n)
  {
  }


  /** The same holds for a stored section. */
  lemma SectionShift(parts: seq<string>, offset: int)
    requires |parts| >= 3
    ensures var raw, r := SectionOf(parts, IntCall), ShiftedSection(parts, offset);
      && (r.Failure? <==> raw.start.Str? || raw.end.Str?)
      && (r.Success? ==>
            && r.value.code == parts[1] && r.value.title == parts[2]
            && r.value.start == raw.start.n - offset
            && r.value.end == raw.end.n - offset
            && r.value.end - r.value.start == raw.end.n - raw.start.n)
  {
  }

  /** A chapter whose start is not an integer makes the whole parse raise,
      whatever follows. */
  lemma NonIntegerStartRaises(a: seq<Option<seq<string>>>, parts: seq<string>, b: seq<Option<seq<string>>>, offset: int)
    requires IsChapterRecord(parts) && ChapterOf(parts, IntCall).start.Str?
    ensures Run(a + [Some(parts)] + b, offset).Failure?
  {
    var p := a + [Some(parts)];
    FoldSnoc(StepAt(offset), [], a, Some(parts));
    assert ShiftedChapter(parts, offset).Failure?;
    FoldFailure(StepAt(offset), [], p, b);
  }

  /** A SECTION line before the first chapter is skipped, even one whose
      values would raise. */
  lemma SectionBeforeChapterSkipped(a: seq<Option<seq<string>>>, parts: seq<string>, offset: int)
    requires Run(a, offset) == Success([])
    requires IsSectionRecord(parts)
    ensures Run(a + [Some(parts)], offset) == Success([])
  {
    FoldSnoc(StepAt(offset), [], a, Some(parts));
  }

  lemma SplitEmptyToken()
    ensures Split("CHAPTER||T", '|') == ["CHAPTER", "", "T"]
  {
    SplitEmptyPiece("CHAPTER", '|', "T");
    assert "CHAPTER" + ['|', '|'] + "T" == "CHAPTER||T";
  }

  lemma StripEmptyToken()
    ensures StripAll(["CHAPTER", "", "T"]) == ["CHAPTER", "", "T"]
  {
    var parts := ["CHAPTER", "", "T"];
    assert Trimmed(parts[0]) && Trimmed(parts[1]) && Trimmed(parts[2]);
    StripAllOfTrimmed(parts);
  }

  /** Empty tokens are kept: `CHAPTER||T` has an empty second token. */
  lemma EmptyTokenKept()
    ensures ArchiveLine("CHAPTER||T") == Some(["CHAPTER", "", "T"])
  {
    var line := "CHAPTER||T";
    StripTrimmed(line);
    assert line[0] == 'C';
    assert line[..1][0] == 'C';
    SplitEmptyToken();
    StripEmptyToken();
  }

  /** ... so `CHAPTER||t` is a chapter whose code is empty, for any title and
      any offset, starting and ending on page 1 shifted by the offset. */
  lemma EmptyCodeKept(t: string, offset: int)
    ensures ShiftedChapter(["CHAPTER", "", t], offset) == Success(Chapter("", t, 1 - offset, 1 - offset, []))
  {
    var parts := ["CHAPTER", "", t];
    assert parts[3..] == [];
    assert KvTokens([]) == [];
    assert RecordKv(parts) == map[];
  }

  // ---------------------------------------------------------------- page_info

  datatype PageInfo = PageInfo(imageIndex: nat, bookPage: int)

  /** The `page_info` loop of `build_looker`: one entry per image, image `i`
      on book page `i + 1 - offset`. The scan for a chapter starting on that
      page stops at the first match and records nothing. */
  method PageInfos(images: seq<Entry>, toc: LookerToc) returns (info: seq<PageInfo>)
    ensures |info| == |images|
    ensures forall i :: 0 <= i < |info| ==> info[i] == PageInfo(i, i + 1 - toc.offset)
    ensures forall i :: 0 < i < |info| ==> info[i].bookPage == info[i - 1].bookPage + 1
  {
    info := [];
    for i := 0 to |images|
      invariant |info| == i
      invariant forall j :: 0 <= j < i ==> info[j] == PageInfo(j, j + 1 - toc.offset)
    {
      var bookPage := i + 1 - toc.offset;
      for k := 0 to |toc.chapters| {
        if toc.chapters[k].start == bookPage {
          break;
        }
      }
      info := info + [PageInfo(i, bookPage)];
    }
  }
}
