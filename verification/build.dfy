/**
 * The live viewer builder (`build.py`): where a book's pages are, which text
 * file is its table of contents, and how that file becomes a chapter tree
 * plus a page offset.
 */
module Build {
  import opened Wrappers
  import opened Text
  import opened Order
  import opened Fs
  import opened Toc

  // ---------------------------------------------------------------- find_pages_folder

  /** `find_pages_folder`: the book directory when it holds an image itself
      (its subfolders are not looked at), else the first non-thumbnail
      subfolder in enumeration order that holds an image, else none. A
      missing book directory (`None`) has no pages folder. */
  method FindPagesFolder(book: Option<seq<Entry>>) returns (r: Option<PagesFolder>)
    ensures book.None? ==> r.None?
    ensures book.Some? && HasImages(book.value) ==> r == Some(BookDir)
    ensures book.Some? && !HasImages(book.value) ==>
      IsFirst(book.value, IsPagesCandidate, r)
    ensures book.Some? ==> r == PagesFolderOf(book.value, IsPagesCandidate)
  {
    var images := FindImages(book);
    if images != [] {
      FindImagesNonEmpty(book.value);
      return Some(BookDir);
    }
    if book.None? {
      return None;
    }
    FindImagesNonEmpty(book.value);
    r := FirstPagesSubfolder(book.value);
    FirstIsUnique(book.value, IsPagesCandidate, r);
  }

  /** `img_base = "" if pages_folder == book_dir else pages_folder.name`:
      empty for a book directory holding an image file, otherwise the name,
      as written on disk, of the first subfolder `find_pages_folder` accepts,
      which is never a thumbnail alias; none when no folder qualifies. */
  lemma ImgBaseChoice(book: seq<Entry>)
    ensures HasImages(book) ==> ViewerImgBase(book, IsPagesCandidate, false) == Some("")
    ensures !HasImages(book) ==>
      (ViewerImgBase(book, IsPagesCandidate, false).None? <==>
         forall j :: 0 <= j < |book| ==> !IsPagesCandidate(book[j]))
    ensures var r := ViewerImgBase(book, IsPagesCandidate, false);
      !HasImages(book) && r.Some? ==>
        exists i :: 0 <= i < |book| && IsPagesCandidate(book[i])
          && (forall j :: 0 <= j < i ==> !IsPagesCandidate(book[j]))
          && r.value == book[i].name && Lower(r.value) !in ThumbAliases
  {
    ImgBaseMeaning(book, IsPagesCandidate, false);
  }

  // ---------------------------------------------------------------- parse_toc

  /** `[p.strip() for p in line.split("|") if p.strip() != ""]` */
  function Tokens(line: string): (r: seq<string>)
    ensures forall i :: 0 <= i < |r| ==> r[i] != [] && Trimmed(r[i])
  {
    var pieces := Split(line, '|');
    StripAllTrimmed(pieces);
    NonEmpty(StripAll(pieces))
  }

  /** What one line of the TOC file is to the parser. */
  datatype Line =
    | Skip                          // blank, a `#` comment, or no tokens
    | Offset(value: Option<int>)    // `OFFSET|n`; `None` when `int(n)` fails
    | Record(parts: seq<string>)    // any other line, as its tokens

  function Classify(raw: string): Line {
    var line := Strip(raw);
    if line == [] || StartsWith(line, "#") then Skip else TokensLine(Tokens(line))
  }

  /** What a line's tokens are to the parser. */
  function TokensLine(parts: seq<string>): Line {
    if parts == [] then Skip
    else if Upper(parts[0]) == "OFFSET" && |parts| >= 2 then Offset(ParseInt(parts[1]))
    else Record(parts)
  }

  function Classes(lines: seq<string>): (r: seq<Line>) {
    Map(Classify, lines)
  }

  /** `(toc_data, offset)` */
  datatype TocData = TocData(chapters: seq<Chapter<Value>>, offset: int)

  function Step(t: TocData, l: Line): TocData {
    match l
    case Skip => t
    case Offset(v) => if v.Some? then t.(offset := v.value) else t
    case Record(parts) => t.(chapters := ApplyRecord(t.chapters, parts))
  }

  function Run(ls: seq<Line>): TocData {
    if ls == [] then TocData([], 0) else Step(Run(ls[..|ls| - 1]), ls[|ls| - 1])
  }

  /** What `parse_toc` returns for a file (`None`: no file, or it does not exist). */
  function ParsedToc(file: Option<string>): TocData {
    match file
    case None => TocData([], 0)
    case Some(text) => Run(Classes(SplitLines(text)))
  }

  lemma {:induction false} RunStep(ls: seq<Line>, i: nat)
    requires i < |ls|
    ensures Run(ls[..i + 1]) == Step(Run(ls[..i]), ls[i])
  {
    assert ls[..i + 1][..i] == ls[..i];
  }

  /** One pass of the `parse_toc` loop over a raw line. */
  method ReadTocLine(chapters: seq<Chapter<Value>>, offset: int, current: bool, raw: string)
    returns (chapters': seq<Chapter<Value>>, offset': int, current': bool)
    requires current <==> chapters != []
    ensures TocData(chapters', offset') == Step(TocData(chapters, offset), Classify(raw))
    ensures current' <==> chapters' != []
  {
    var line := Strip(raw);
    if line == [] || StartsWith(line, "#") {
      return chapters, offset, current;
    }
    var parts := Tokens(line);
    chapters', offset', current' := ApplyTokens(chapters, offset, current, parts);
  }

  /** The loop body after tokenising: no tokens, an `OFFSET` line, or a record. */
  method ApplyTokens(chapters: seq<Chapter<Value>>, offset: int, current: bool, parts: seq<string>)
    returns (chapters': seq<Chapter<Value>>, offset': int, current': bool)
    requires current <==> chapters != []
    ensures TocData(chapters', offset') == Step(TocData(chapters, offset), TokensLine(parts))
    ensures current' <==> chapters' != []
  {
    chapters', offset', current' := chapters, offset, current;
    if parts == [] {
      return;
    }
    var kind := Upper(parts[0]);
    if kind == "OFFSET" && |parts| >= 2 {
      var n := ParseInt(parts[1]);
      if n.Some? {
        offset' := n.value;
      }
      return;
    }
    chapters', current' := ApplyLine(chapters, current, parts);
  }

  /** `parse_toc`: one pass over the lines; `current_chapter` is always the
      last chapter appended, so a section goes into the last chapter. */
  method ParseToc(file: Option<string>) returns (chapters: seq<Chapter<Value>>, offset: int)
    ensures TocData(chapters, offset) == ParsedToc(file)
    ensures file.None? ==> chapters == [] && offset == 0
  {
    chapters, offset := [], 0;
    if file.None? {
      return;
    }
    var lines := SplitLines(file.value);
    ghost var ls := Classes(lines);
    var current := false;
    for i := 0 to |lines|
      invariant TocData(chapters, offset) == Run(ls[..i])
      invariant current <==> chapters != []
    {
      RunStep(ls, i);
      chapters, offset, current := ReadTocLine(chapters, offset, current, lines[i]);
    }
    assert ls[..|lines|] == ls;
  }

  // ---------------------------------------------------------------- properties

  /** A blank line or a `#` line never changes the result. */
  lemma IgnoredLineNeutral(before: seq<string>, raw: string, after: seq<string>)
    requires Strip(raw) == [] || StartsWith(Strip(raw), "#")
    ensures Run(Classes(before + [raw] + after)) == Run(Classes(before + after))
  {
    ClassesAppend(before + [raw], after);
    ClassesAppend(before, [raw]);
    ClassesAppend(before, after);
    assert Classes([raw]) == [Skip];
    SkipNeutral(Classes(before), Classes(after));
  }

  lemma ClassesAppend(a: seq<string>, b: seq<string>)
    ensures Classes(a + b) == Classes(a) + Classes(b)
  {
    MapAppend(Classify, a, b);
  }

  lemma {:induction false} SkipNeutral(a: seq<Line>, b: seq<Line>)
    ensures Run(a + [Skip] + b) == Run(a + b)
    decreases |b|
  {
    if b == [] {
      assert a + [Skip] + b == a + [Skip];
      assert (a + [Skip])[..|a|] == a;
      assert a + b == a;
    } else {
      var b' := b[..|b| - 1];
      SkipNeutral(a, b');
      assert (a + [Skip] + b)[..|a + [Skip] + b| - 1] == a + [Skip] + b';
      assert (a + b)[..|a + b| - 1] == a + b';
    }
  }

  predicate IsValidOffset(l: Line) {
    l.Offset? && l.value.Some?
  }

  /** The offset is that of the last `OFFSET|n` line whose `n` is an integer,
      or 0 when there is none; a malformed one leaves it as it was. */
  lemma {:induction false} RunOffset(ls: seq<Line>)
    ensures (forall i :: 0 <= i < |ls| ==> !IsValidOffset(ls[i])) ==> Run(ls).offset == 0
    ensures forall i :: 0 <= i < |ls| && IsValidOffset(ls[i])
                   && (forall j :: i < j < |ls| ==> !IsValidOffset(ls[j]))
                   ==> Run(ls).offset == ls[i].value.value
    decreases |ls|
  {
    if ls != [] {
      var init := ls[..|ls| - 1];
      RunOffset(init);
      RunOffsetStep(ls);
      assert forall i :: 0 <= i < |init| ==> init[i] == ls[i];
    }
  }

  lemma RunOffsetStep(ls: seq<Line>)
    requires ls != []
    ensures var l := ls[|ls| - 1];
      Run(ls).offset == if IsValidOffset(l) then l.value.value else Run(ls[..|ls| - 1]).offset
  {
  }

  /** The tokens of the lines that are chapter or section candidates: every
      line that is neither skipped nor an `OFFSET` line. */
  function Records(ls: seq<Line>): seq<seq<string>> {
    if ls == [] then []
    else
      var l := ls[|ls| - 1];
      Records(ls[..|ls| - 1]) + (if l.Record? then [l.parts] else [])
  }

  lemma {:induction false} RecordsAppend(a: seq<Line>, b: seq<Line>)
    ensures Records(a + b) == Records(a) + Records(b)
    decreases |b|
  {
    if b == [] {
      assert a + b == a;
    } else {
      var b' := b[..|b| - 1];
      RecordsAppend(a, b');
      assert (a + b)[..|a + b| - 1] == a + b';
    }
  }

  /** The chapters depend on the record lines alone, attached as the shared
      record rules say; no offset is ever applied to them. */
  lemma {:induction false} RunChapters(ls: seq<Line>)
    ensures Run(ls).chapters == ApplyAll(Records(ls))
    decreases |ls|
  {
    if ls != [] {
      var init := ls[..|ls| - 1];
      RunChapters(init);
      var l, rs := ls[|ls| - 1], Records(ls);
      if l.Record? {
        assert rs == Records(init) + [l.parts];
        assert rs[..|rs| - 1] == Records(init);
        assert Run(ls).chapters == ApplyRecord(Run(init).chapters, l.parts);
      } else {
        assert rs == Records(init) + [];
        assert rs == Records(init);
      }
    }
  }

  /** An `OFFSET` line anywhere leaves every chapter and section as it was. */
  lemma {:induction false} OffsetLineLeavesChapters(a: seq<Line>, v: Option<int>, b: seq<Line>)
    ensures Run(a + [Offset(v)] + b).chapters == Run(a + b).chapters
    decreases |b|
  {
    var o := a + [Offset(v)];
    if b == [] {
      assert o + b == o;
      assert o[..|a|] == a;
      assert a + b == a;
    } else {
      var b' := b[..|b| - 1];
      OffsetLineLeavesChapters(a, v, b');
      assert (o + b)[..|o + b| - 1] == o + b';
      assert (a + b)[..|a + b| - 1] == a + b';
    }
  }

  /** The chapters as parsed: exactly the CHAPTER records, raw; each SECTION
      record after the first chapter lands in some chapter. */
  lemma ParsedTocChapters(text: string)
    ensures var ls := Classes(SplitLines(text));
      && Heads(ParsedToc(Some(text)).chapters) == DeclaredChapters(Records(ls))
      && SectionCount(ParsedToc(Some(text)).chapters) == AttachedSections(Records(ls))
  {
    var ls := Classes(SplitLines(text));
    RunChapters(ls);
    ApplyAllMeaning(Records(ls));
  }
}
