/**
 * What the three TOC parsers share: the chapter/section records, the
 * `key=value` tokens after a record's title, and the way the live builder and
 * the dev builder attach records to the chapter list (their record handling is
 * the same text in both files; only tokenising and the offset differ).
 */
module Toc {
  import opened Wrappers
  import opened Text

  /** A `key=value` value after coercion: an `int` or the `str` as written. */
  datatype Value = Int(n: int) | Str(s: string)

  datatype Section<V> = Section(code: string, title: string, start: V, end: V)

  datatype Chapter<V> = Chapter(code: string, title: string, start: V, end: V, sections: seq<Section<V>>)

  /** How a value is coerced: `int(v) if v.isdigit() else v` (live and dev
      builders) or `try: int(v) except ValueError: v` (looker builder). */
  datatype Coercion = IsDigitTest | IntCall

  function Coerce(c: Coercion, v: string): Value {
    match c
    case IsDigitTest => if IsAllDigits(v) then Int(DigitsValue(v)) else Str(v)
    case IntCall =>
      match ParseInt(v)
      case Some(n) => Int(n)
      case None => Str(v)
  }

  /** The two coercions agree wherever `isdigit` accepts; `int()` accepts more
      (a sign, surrounding blanks, underscores). */
  lemma CoercionsAgreeOnDigits(v: string)
    ensures Coerce(IsDigitTest, v).Int? ==> Coerce(IntCall, v) == Coerce(IsDigitTest, v)
    ensures Coerce(IsDigitTest, v).Str? ==> Coerce(IsDigitTest, v) == Str(v)
  {
    if IsAllDigits(v) {
      IntOfDigits(v);
    }
  }

  // ---------------------------------------------------------------- tokens

  /** `[p.strip() for p in parts]` */
  function StripAll(parts: seq<string>): (r: seq<string>)
    ensures |r| == |parts|
    ensures forall i :: 0 <= i < |r| ==> r[i] == Strip(parts[i])
  {
    seq(|parts|, i requires 0 <= i < |parts| => Strip(parts[i]))
  }

  /** Every stripped piece is trimmed. */
  lemma StripAllTrimmed(parts: seq<string>)
    ensures forall p :: p in StripAll(parts) ==> Trimmed(p)
  {
    var r := StripAll(parts);
    forall p | p in r ensures Trimmed(p) {
      var i :| 0 <= i < |r| && r[i] == p;
      assert p == Strip(parts[i]);
    }
  }

  /** Pieces with no white space at their ends come through unchanged. */
  lemma StripAllOfTrimmed(parts: seq<string>)
    requires forall i :: 0 <= i < |parts| ==> Trimmed(parts[i])
    ensures StripAll(parts) == parts
  {
    forall i | 0 <= i < |parts| ensures StripAll(parts)[i] == parts[i] {
      StripTrimmed(parts[i]);
    }
  }

  /** `[p for p in parts if p != ""]` */
  function NonEmpty(parts: seq<string>): (r: seq<string>)
    ensures |r| <= |parts|
    ensures forall i :: 0 <= i < |r| ==> r[i] != []
    ensures forall p :: p in r <==> p in parts && p != []
  {
    if parts == [] then []
    else
      var last := parts[|parts| - 1];
      NonEmpty(parts[..|parts| - 1]) + (if last != [] then [last] else [])
  }

  // ---------------------------------------------------------------- key=value tokens

  /** A `k=v` token as the pair `(k, v)`, split at the first `=` and both
      sides stripped; `None` when `"=" not in p`. */
  type Pair = Option<(string, string)>

  function KvToken(p: string): (r: Pair)
    ensures r.None? <==> '=' !in p
  {
    var i := IndexOf(p, '=');
    if i == |p| then None else Some((Strip(p[..i]), Strip(p[i + 1..])))
  }

  function KvTokens(tokens: seq<string>): (r: seq<Pair>)
    ensures |r| == |tokens|
    ensures forall i :: 0 <= i < |tokens| ==> r[i] == KvToken(tokens[i])
  {
    seq(|tokens|, i requires 0 <= i < |tokens| => KvToken(tokens[i]))
  }

  /** The `kv` dict after the loop over the tokens that follow the title. */
  function KvOf(pairs: seq<Pair>, c: Coercion): map<string, Value> {
    if pairs == [] then map[]
    else
      var kv, t := KvOf(pairs[..|pairs| - 1], c), pairs[|pairs| - 1];
      if t.None? then kv else kv[t.value.0 := Coerce(c, t.value.1)]
  }

  lemma {:induction false} KvOfStep(pairs: seq<Pair>, c: Coercion, i: nat)
    requires i < |pairs|
    ensures pairs[i].None? ==> KvOf(pairs[..i + 1], c) == KvOf(pairs[..i], c)
    ensures pairs[i].Some? ==>
      KvOf(pairs[..i + 1], c) == KvOf(pairs[..i], c)[pairs[i].value.0 := Coerce(c, pairs[i].value.1)]
  {
    assert pairs[..i + 1][..i] == pairs[..i];
  }

  /** The loop `for p in parts[3:]: if "=" in p: ... kv[k] = ...`. */
  method ParseKv(tokens: seq<string>, c: Coercion) returns (kv: map<string, Value>)
    ensures kv == KvOf(KvTokens(tokens), c)
  {
    ghost var pairs := KvTokens(tokens);
    kv := map[];
    for i := 0 to |tokens|
      invariant kv == KvOf(pairs[..i], c)
    {
      KvOfStep(pairs, c, i);
      var p := tokens[i];
      if '=' in p {
        var j := IndexOf(p, '=');
        var k, v := Strip(p[..j]), Strip(p[j + 1..]);
        assert pairs[i] == Some((k, v));
        kv := kv[k := Coerce(c, v)];
      }
    }
    assert pairs[..|tokens|] == pairs;
  }

  predicate HasKey(t: Pair, k: string) {
    t.Some? && t.value.0 == k
  }

  /** The value of the last pair whose key is `k`: a later token with the
      same key overwrites an earlier one. */
  function LastValue(pairs: seq<Pair>, k: string): Option<string> {
    if pairs == [] then None
    else if HasKey(pairs[|pairs| - 1], k) then Some(pairs[|pairs| - 1].value.1)
    else LastValue(pairs[..|pairs| - 1], k)
  }

  /** `LastValue` finds nothing exactly when no token names the key. */
  lemma {:induction false} LastValueNone(pairs: seq<Pair>, k: string)
    ensures LastValue(pairs, k).None? <==> forall i :: 0 <= i < |pairs| ==> !HasKey(pairs[i], k)
    decreases |pairs|
  {
    if pairs != [] {
      var n := |pairs| - 1;
      var init := pairs[..n];
      LastValueNone(init, k);
      if !HasKey(pairs[n], k) {
        assert forall i :: 0 <= i < n ==> init[i] == pairs[i];
      }
    }
  }

  /** Otherwise it finds the value of the last token that names the key. */
  lemma {:induction false} LastValueLast(pairs: seq<Pair>, k: string, i: nat)
    requires i < |pairs| && HasKey(pairs[i], k)
    requires forall j :: i < j < |pairs| ==> !HasKey(pairs[j], k)
    ensures LastValue(pairs, k) == Some(pairs[i].value.1)
    decreases |pairs|
  {
    var n := |pairs| - 1;
    if i < n {
      var init := pairs[..n];
      assert !HasKey(pairs[n], k);
      LastValueLast(init, k, i);
    }
  }

  /** The dict holds a key exactly when some token names it, bound to the
      coerced value of the last such token. */
  lemma {:induction false} KvOfLastValue(pairs: seq<Pair>, c: Coercion, k: string)
    ensures k in KvOf(pairs, c) <==> LastValue(pairs, k).Some?
    ensures k in KvOf(pairs, c) ==> KvOf(pairs, c)[k] == Coerce(c, LastValue(pairs, k).value)
    decreases |pairs|
  {
    if pairs != [] {
      var n := |pairs| - 1;
      KvOfLastValue(pairs[..n], c, k);
      KvOfStep(pairs, c, n);
      assert pairs[..n + 1] == pairs;
    }
  }

  /** `kv.get(k, d)` */
  function Get(kv: map<string, Value>, k: string, d: Value): Value {
    if k in kv then kv[k] else d
  }

  /** `kv.get("start", 1)` */
  function StartOf(kv: map<string, Value>): Value {
    Get(kv, "start", Int(1))
  }

  /** `kv.get("end", kv.get("start", 1))` */
  function EndOf(kv: map<string, Value>): Value {
    Get(kv, "end", StartOf(kv))
  }

  // ---------------------------------------------------------------- records

  /** The tokens of a CHAPTER line (at least kind, code and title). */
  predicate IsChapterRecord(parts: seq<string>) {
    |parts| >= 3 && Upper(parts[0]) == "CHAPTER"
  }

  /** The tokens of a SECTION line (at least kind, code and title). */
  predicate IsSectionRecord(parts: seq<string>) {
    |parts| >= 3 && Upper(parts[0]) == "SECTION"
  }

  /** The chapter dict built from a CHAPTER record, with no sections yet. */
  function ChapterOf(parts: seq<string>, c: Coercion): Chapter<Value>
    requires |parts| >= 3
  {
    var kv := KvOf(KvTokens(parts[3..]), c);
    Chapter(parts[1], parts[2], StartOf(kv), EndOf(kv), [])
  }

  /** The section dict built from a SECTION record. */
  function SectionOf(parts: seq<string>, c: Coercion): Section<Value>
    requires |parts| >= 3
  {
    var kv := KvOf(KvTokens(parts[3..]), c);
    Section(parts[1], parts[2], StartOf(kv), EndOf(kv))
  }

  /** What a record's start and end become: `start` defaults to 1, `end` to
      the start, and a given value is the coerced value of the last token
      with that key. */
  lemma RecordFields(parts: seq<string>, c: Coercion)
    requires |parts| >= 3
    ensures var ch, tokens := ChapterOf(parts, c), KvTokens(parts[3..]);
      && ch.code == parts[1] && ch.title == parts[2] && ch.sections == []
      && ch.start == (match LastValue(tokens, "start")
                      case None => Int(1)
                      case Some(v) => Coerce(c, v))
      && ch.end == (match LastValue(tokens, "end")
                    case None => ch.start
                    case Some(v) => Coerce(c, v))
    ensures var ch := ChapterOf(parts, c);
      SectionOf(parts, c) == Section(ch.code, ch.title, ch.start, ch.end)
  {
    KvOfLastValue(KvTokens(parts[3..]), c, "start");
    KvOfLastValue(KvTokens(parts[3..]), c, "end");
  }

  /** `current_chapter["sections"].append(s)`: the open chapter is always the
      last one appended to `result["chapters"]`. */
  function AddSection<V>(chapters: seq<Chapter<V>>, s: Section<V>): (r: seq<Chapter<V>>)
    requires |chapters| > 0
  {
    var last := chapters[|chapters| - 1];
    chapters[|chapters| - 1 := last.(sections := last.sections + [s])]
  }

  /** The CHAPTER and SECTION branches of the live and dev `parse_toc` loops. */
  method ApplyLine(chapters: seq<Chapter<Value>>, current: bool, parts: seq<string>)
    returns (chapters': seq<Chapter<Value>>, current': bool)
    requires |parts| >= 1
    requires current <==> chapters != []
    ensures chapters' == ApplyRecord(chapters, parts)
    ensures current' <==> chapters' != []
  {
    chapters', current' := chapters, current;
    var kind := Upper(parts[0]);
    if kind == "CHAPTER" && |parts| >= 3 {
      var kv := ParseKv(parts[3..], IsDigitTest);
      chapters' := chapters + [Chapter(parts[1], parts[2], StartOf(kv), EndOf(kv), [])];
      current' := true;
    } else if kind == "SECTION" && |parts| >= 3 {
      if !current {
        return;
      }
      var kv := ParseKv(parts[3..], IsDigitTest);
      var s := Section(parts[1], parts[2], StartOf(kv), EndOf(kv));
      var last := chapters[|chapters| - 1];
      chapters' := chapters[|chapters| - 1 := last.(sections := last.sections + [s])];
    }
  }

  /** A line as the two archived builders tokenise it: `None` when it is
      blank or a `#` comment after stripping, else
      `[p.strip() for p in line.split("|")]` (empty tokens are kept, so there
      is always at least one). */
  function ArchiveLine(raw: string): (r: Option<seq<string>>)
    ensures r.Some? ==> |r.value| >= 1
  {
    var line := Strip(raw);
    if line == [] || StartsWith(line, "#") then None else Some(StripAll(Split(line, '|')))
  }

  /** One record of the live or dev builder: a CHAPTER opens a new chapter, a
      SECTION joins the open chapter if there is one, anything else is skipped. */
  function ApplyRecord(chapters: seq<Chapter<Value>>, parts: seq<string>): seq<Chapter<Value>> {
    if IsChapterRecord(parts) then chapters + [ChapterOf(parts, IsDigitTest)]
    else if IsSectionRecord(parts) && |chapters| > 0 then AddSection(chapters, SectionOf(parts, IsDigitTest))
    else chapters
  }

  /** The chapter list after a sequence of records. */
  function ApplyAll(records: seq<seq<string>>): seq<Chapter<Value>> {
    if records == [] then []
    else ApplyRecord(ApplyAll(records[..|records| - 1]), records[|records| - 1])
  }

  /** A chapter without its sections. */
  function Head(ch: Chapter<Value>): Chapter<Value> {
    ch.(sections := [])
  }

  function Heads(chapters: seq<Chapter<Value>>): (r: seq<Chapter<Value>>)
    ensures |r| == |chapters|
    ensures forall i :: 0 <= i < |r| ==> r[i] == Head(chapters[i])
  {
    if chapters == [] then [] else Heads(chapters[..|chapters| - 1]) + [Head(chapters[|chapters| - 1])]
  }

  /** The chapters the CHAPTER records declare, in order. */
  function DeclaredChapters(records: seq<seq<string>>): seq<Chapter<Value>> {
    if records == [] then []
    else
      var r := records[|records| - 1];
      DeclaredChapters(records[..|records| - 1]) + (if IsChapterRecord(r) then [ChapterOf(r, IsDigitTest)] else [])
  }

  /** The number of SECTION records that come after some CHAPTER record. */
  function AttachedSections(records: seq<seq<string>>): nat {
    if records == [] then 0
    else
      var init, r := records[..|records| - 1], records[|records| - 1];
      AttachedSections(init)
        + (if IsSectionRecord(r) && !IsChapterRecord(r) && DeclaredChapters(init) != [] then 1 else 0)
  }

  function SectionCount(chapters: seq<Chapter<Value>>): nat {
    if chapters == [] then 0
    else SectionCount(chapters[..|chapters| - 1]) + |chapters[|chapters| - 1].sections|
  }

  lemma HeadsSnoc(chapters: seq<Chapter<Value>>, ch: Chapter<Value>)
    requires ch.sections == []
    ensures Heads(chapters + [ch]) == Heads(chapters) + [ch]
    ensures SectionCount(chapters + [ch]) == SectionCount(chapters)
  {
    assert (chapters + [ch])[..|chapters|] == chapters;
  }

  lemma {:induction false} HeadsAddSection(chapters: seq<Chapter<Value>>, s: Section<Value>)
    requires |chapters| > 0
    ensures Heads(AddSection(chapters, s)) == Heads(chapters)
    ensures SectionCount(AddSection(chapters, s)) == SectionCount(chapters) + 1
  {
    var r := AddSection(chapters, s);
    assert r[..|r| - 1] == chapters[..|chapters| - 1];
  }

  /** Chapters appear exactly as their CHAPTER records declare them (the raw
      start and end, nothing applied to them), one per record and in order;
      every SECTION record after the first CHAPTER becomes one section, and
      the others are dropped. */
  lemma {:induction false} ApplyAllMeaning(records: seq<seq<string>>)
    ensures Heads(ApplyAll(records)) == DeclaredChapters(records)
    ensures SectionCount(ApplyAll(records)) == AttachedSections(records)
    decreases |records|
  {
    if records != [] {
      var init, r := records[..|records| - 1], records[|records| - 1];
      ApplyAllMeaning(init);
      MeaningStep(ApplyAll(init), r);
    }
  }

  /** What one record adds to the chapter heads and to the section count. */
  lemma MeaningStep(before: seq<Chapter<Value>>, r: seq<string>)
    ensures Heads(ApplyRecord(before, r)) ==
      Heads(before) + (if IsChapterRecord(r) then [ChapterOf(r, IsDigitTest)] else [])
    ensures SectionCount(ApplyRecord(before, r)) ==
      SectionCount(before) + (if IsSectionRecord(r) && !IsChapterRecord(r) && before != [] then 1 else 0)
  {
    if IsChapterRecord(r) {
      HeadsSnoc(before, ChapterOf(r, IsDigitTest));
    } else if IsSectionRecord(r) && |before| > 0 {
      HeadsAddSection(before, SectionOf(r, IsDigitTest));
    } else {
      assert Heads(before) + [] == Heads(before);
    }
  }

  /** A SECTION record touches only the last chapter and never changes how
      many chapters there are. */
  lemma SectionTouchesLastOnly(chapters: seq<Chapter<Value>>, parts: seq<string>)
    requires IsSectionRecord(parts)
    ensures var r := ApplyRecord(chapters, parts);
      && |r| == |chapters|
      && (chapters != [] ==>
            && r[..|r| - 1] == chapters[..|chapters| - 1]
            && r[|r| - 1].sections == chapters[|chapters| - 1].sections + [SectionOf(parts, IsDigitTest)])
  {
  }
}
