/**
 * The archived dev builder (`archive/build-dev.py`): no page offset, empty
 * tokens kept, `isdigit` coercion.
 */
module Dev {
  import opened Wrappers
  import opened Text
  import opened Fs
  import opened Toc

  /** `find_pages_folder`: the book directory when it holds an image, else the
      first non-thumbnail subfolder holding an image, else none. Listing a
      missing book directory raises. */
  method FindPagesFolder(book: Option<seq<Entry>>) returns (r: Result<Option<PagesFolder>, FsError>)
    ensures book.None? ==> r == Failure(NotFound)
    ensures book.Some? && HasImages(book.value) ==> r == Success(Some(BookDir))
    ensures book.Some? && !HasImages(book.value) ==>
      r.Success? && IsFirst(book.value, IsPagesCandidate, r.value)
    ensures book.Some? ==> r == Success(PagesFolderOf(book.value, IsPagesCandidate))
  {
    var images := FindImages(book);
    if images != [] {
      FindImagesNonEmpty(book.value);
      return Success(Some(BookDir));
    }
    if book.None? {
      return Failure(NotFound);
    }
    FindImagesNonEmpty(book.value);
    var sub := FirstPagesSubfolder(book.value);
    FirstIsUnique(book.value, IsPagesCandidate, sub);
    return Success(sub);
  }

  /** `img_base = "" if pages_folder == book_dir else pages_folder.name.lower()`:
      empty for a book directory holding an image file, otherwise the
      lower-cased name of the first subfolder `find_pages_folder` accepts,
      which is never a thumbnail alias; none when no folder qualifies. */
  lemma ImgBaseChoice(book: seq<Entry>)
    ensures HasImages(book) ==> ViewerImgBase(book, IsPagesCandidate, true) == Some("")
    ensures !HasImages(book) ==>
      (ViewerImgBase(book, IsPagesCandidate, true).None? <==>
         forall j :: 0 <= j < |book| ==> !IsPagesCandidate(book[j]))
    ensures var r := ViewerImgBase(book, IsPagesCandidate, true);
      !HasImages(book) && r.Some? ==>
        exists i :: 0 <= i < |book| && IsPagesCandidate(book[i])
          && (forall j :: 0 <= j < i ==> !IsPagesCandidate(book[j]))
          && r.value == Lower(book[i].name) && r.value !in ThumbAliases
  {
    ImgBaseMeaning(book, IsPagesCandidate, true);
  }

  /** The chapters `parse_toc` returns for a file (`None`: no file, or it
      does not exist): every line that is neither blank nor a comment is a
      record, applied by the shared record rules. */
  function ParsedToc(file: Option<string>): seq<Chapter<Value>> {
    match file
    case None => []
    case Some(text) => ApplyAll(Somes(Map(ArchiveLine, SplitLines(text))))
  }

  lemma ApplyAllStep(rs: seq<seq<string>>, p: seq<string>)
    ensures ApplyAll(rs + [p]) == ApplyRecord(ApplyAll(rs), p)
  {
    assert (rs + [p])[..|rs|] == rs;
  }

  /** `parse_toc`: one pass over the lines; `current_chapter` is always the
      last chapter appended. */
  method ParseToc(file: Option<string>) returns (chapters: seq<Chapter<Value>>)
    ensures chapters == ParsedToc(file)
    ensures file.None? ==> chapters == []
  {
    chapters := [];
    if file.None? {
      return;
    }
    var lines := SplitLines(file.value);
    ghost var ls := Map(ArchiveLine, lines);
    var current := false;
    for i := 0 to |lines|
      invariant chapters == ApplyAll(Somes(ls[..i]))
      invariant current <==> chapters != []
    {
      SomesStep(ls, i);
      assert ls[i] == ArchiveLine(lines[i]);
      var line := Strip(lines[i]);
      if line == [] || StartsWith(line, "#") {
        assert ls[i] == None;
        continue;
      }
      // `if not parts` never holds: a split always yields a piece
      var parts := StripAll(Split(line, '|'));
      assert ls[i] == Some(parts);
      ApplyAllStep(Somes(ls[..i]), parts);
      chapters, current := ApplyLine(chapters, current, parts);
    }
    assert ls[..|lines|] == ls;
  }

  /** Blank lines and every `#` line, `# offset=` included, never change the
      result: this builder has no offset. */
  lemma CommentLineIgnored(before: seq<string>, raw: string, after: seq<string>)
    requires Strip(raw) == [] || StartsWith(Strip(raw), "#")
    ensures ApplyAll(Somes(Map(ArchiveLine, before + [raw] + after)))
         == ApplyAll(Somes(Map(ArchiveLine, before + after)))
  {
    assert ArchiveLine(raw) == None;
    SomesMapSkip(ArchiveLine, before, raw, after);
  }

  /** An offset directive is a comment to this builder. */
  lemma OffsetDirectiveIsComment(raw: string)
    requires StartsWith(Strip(raw), "# offset=")
    ensures ArchiveLine(raw) == None
  {
    assert Strip(raw)[..1] == Strip(raw)[..9][..1];
  }

  /** The chapters are exactly the CHAPTER records, in order and as written;
      every SECTION record after the first chapter becomes one section. */
  lemma ParsedTocChapters(text: string)
    ensures var rs := Somes(Map(ArchiveLine, SplitLines(text)));
      && Heads(ParsedToc(Some(text))) == DeclaredChapters(rs)
      && SectionCount(ParsedToc(Some(text))) == AttachedSections(rs)
  {
    ApplyAllMeaning(Somes(Map(ArchiveLine, SplitLines(text))));
  }
}
