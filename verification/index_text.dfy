/**
 * The text helpers of the index builder (`index-builder.py`): the `<title>`
 * of an app page, its `<!-- KEY: value -->` comments, and a label made from
 * a file name. The regular expressions are modelled by the search each one
 * performs.
 */
module IndexText {
  import opened Wrappers
  import opened Text
  import opened Fs

  // ---------------------------------------------------------------- case-insensitive search

  /** `pat` (lower case) occurs at `i`, ignoring case. */
  predicate MatchesAt(s: string, pat: string, i: nat) {
    i + |pat| <= |s| && Lower(s[i..i + |pat|]) == pat
  }

  /** The first case-insensitive occurrence of `pat` at or after `from`. */
  function FindFrom(s: string, pat: string, from: nat): (r: Option<nat>)
    requires from <= |s|
    ensures r.Some? ==> from <= r.value && MatchesAt(s, pat, r.value)
    ensures r.Some? ==> forall i :: from <= i < r.value ==> !MatchesAt(s, pat, i)
    ensures r.None? ==> forall i :: from <= i <= |s| ==> !MatchesAt(s, pat, i)
    decreases |s| - from
  {
    if MatchesAt(s, pat, from) then Some(from)
    else if from == |s| then None
    else FindFrom(s, pat, from + 1)
  }

  lemma {:induction false} FindFromFound(s: string, pat: string, from: nat, n: nat)
    requires from <= n && MatchesAt(s, pat, n)
    requires forall i :: from <= i < n ==> !MatchesAt(s, pat, i)
    ensures FindFrom(s, pat, from) == Some(n)
    decreases n - from
  {
    if from < n {
      FindFromFound(s, pat, from + 1, n);
    }
  }

  // ---------------------------------------------------------------- white space runs

  /** Text in which every white space character is a single space between
      two other characters or at an end. */
  predicate Collapsed(s: string) {
    forall k :: 0 <= k < |s| && IsSpace(s[k]) ==> s[k] == ' ' && (k + 1 < |s| ==> !IsSpace(s[k + 1]))
  }

  /** `re.sub(r"\s+", " ", s)` */
  function Collapse(s: string): (r: string)
    ensures |r| <= |s|
    ensures s != [] ==> r != [] && (IsSpace(s[0]) ==> r[0] == ' ') && (!IsSpace(s[0]) ==> r[0] == s[0])
    ensures Collapsed(r)
    decreases |s|
  {
    if s == [] then []
    else if IsSpace(s[0]) then
      var rest := TrimLeft(s);
      [' '] + Collapse(rest)
    else [s[0]] + Collapse(s[1..])
  }

  /** The characters that are not white space, in order. */
  function Visible(s: string): string {
    if s == [] then [] else (if IsSpace(s[0]) then [] else [s[0]]) + Visible(s[1..])
  }

  lemma {:induction false} VisibleTrimLeft(s: string)
    ensures Visible(TrimLeft(s)) == Visible(s)
  {
    if s != [] && IsSpace(s[0]) {
      VisibleTrimLeft(s[1..]);
    }
  }

  /** Collapsing only rewrites white space: the other characters are kept, in order. */
  lemma {:induction false} CollapseKeepsVisible(s: string)
    ensures Visible(Collapse(s)) == Visible(s)
    decreases |s|
  {
    if s != [] {
      if IsSpace(s[0]) {
        var rest := TrimLeft(s);
        CollapseKeepsVisible(rest);
        VisibleTrimLeft(s);
        assert Visible([' '] + Collapse(rest)) == Visible(Collapse(rest));
      } else {
        CollapseKeepsVisible(s[1..]);
        assert ([s[0]] + Collapse(s[1..]))[1..] == Collapse(s[1..]);
      }
    }
  }

  /** Any piece of collapsed text is collapsed. */
  lemma CollapsedSlice(s: string, i: nat, j: nat)
    requires Collapsed(s) && i <= j <= |s|
    ensures Collapsed(s[i..j])
  {
    var t := s[i..j];
    forall k | 0 <= k < |t| && IsSpace(t[k])
      ensures t[k] == ' ' && (k + 1 < |t| ==> !IsSpace(t[k + 1]))
    {
      assert t[k] == s[i + k];
      if k + 1 < |t| {
        assert t[k + 1] == s[i + k + 1];
      }
    }
  }

  /** Collapsed text is left as it is. */
  lemma {:induction false} CollapseCollapsed(s: string)
    requires Collapsed(s)
    ensures Collapse(s) == s
    decreases |s|
  {
    if s != [] {
      CollapsedSlice(s, 1, |s|);
      CollapseCollapsed(s[1..]);
      if IsSpace(s[0]) {
        TrimLeftOnce(s);
      }
    }
  }

  lemma TrimLeftOnce(s: string)
    requires Collapsed(s) && s != [] && IsSpace(s[0])
    ensures TrimLeft(s) == s[1..]
  {
    assert |s| > 1 ==> !IsSpace(s[1]);
  }

  lemma StripCollapsed(s: string)
    requires Collapsed(s)
    ensures Collapsed(Strip(s))
  {
    var l := TrimLeft(s);
    CollapsedSlice(s, |s| - |l|, |s|);
    CollapsedSlice(l, 0, |TrimRight(l)|);
  }

  // ---------------------------------------------------------------- extract_title

  /** `extract_title`: the text between the first `<title>` and the first
      `</title>` after it (any case, across lines), its white space runs made
      single spaces and its ends stripped; `None` when there is no such pair
      or the text is empty. */
  function ExtractTitle(html: string): (r: Option<string>)
    ensures r.Some? ==> r.value != [] && Trimmed(r.value) && Collapsed(r.value)
  {
    match FindFrom(html, "<title>", 0)
    case None => None
    case Some(i) =>
      match FindFrom(html, "</title>", i + 7)
      case None => None
      case Some(j) =>
        var t := Strip(Collapse(html[i + 7..j]));
        StripCollapsed(Collapse(html[i + 7..j]));
        if t == [] then None else Some(t)
  }

  lemma LowerNoAngle(s: string, k: nat)
    requires k < |s| && s[k] != '<'
    ensures Lower(s)[k] != '<'
  {
  }

  /** A title written plainly is read back as written. */
  lemma TitleRoundTrip(t: string)
    requires t != [] && Trimmed(t) && Collapsed(t) && '<' !in t
    ensures ExtractTitle("<title>" + t + "</title>") == Some(t)
  {
    var html := "<title>" + t + "</title>";
    TitleLaid(html, t);
    OpenTitleFound(html);
    CloseTitleFound(html, t);
    TitleFound(html, t);
  }

  lemma TitleLaid(html: string, t: string)
    requires html == "<title>" + t + "</title>"
    ensures |html| == 15 + |t| && html[0..7] == "<title>" && html[7..7 + |t|] == t
    ensures html[7 + |t|..15 + |t|] == "</title>"
  {
  }

  lemma OpenTitleFound(html: string)
    requires |html| >= 7 && html[0..7] == "<title>"
    ensures FindFrom(html, "<title>", 0) == Some(0)
  {
    LowerPlain("<title>");
    FindFromFound(html, "<title>", 0, 0);
  }

  /** Text without capitals is its own lower case. */
  lemma LowerPlain(p: string)
    requires forall k :: 0 <= k < |p| ==> !('A' <= p[k] <= 'Z')
    ensures Lower(p) == p
  {
  }

  lemma CloseTitleFound(html: string, t: string)
    requires '<' !in t
    requires |html| == 15 + |t| && html[7..7 + |t|] == t && html[7 + |t|..15 + |t|] == "</title>"
    ensures FindFrom(html, "</title>", 7) == Some(7 + |t|)
  {
    var n := 7 + |t|;
    LowerPlain("</title>");
    forall i | 7 <= i < n
      ensures !MatchesAt(html, "</title>", i)
    {
      assert html[i] == t[i - 7];
      if MatchesAt(html, "</title>", i) {
        LowerNoAngle(html[i..i + 8], 0);
      }
    }
    FindFromFound(html, "</title>", 7, n);
  }

  lemma TitleFound(html: string, t: string)
    requires t != [] && Trimmed(t) && Collapsed(t)
    requires FindFrom(html, "<title>", 0) == Some(0)
    requires 7 + |t| <= |html| && FindFrom(html, "</title>", 7) == Some(7 + |t|)
    requires html[7..7 + |t|] == t
    ensures ExtractTitle(html) == Some(t)
  {
    CollapseCollapsed(t);
    StripTrimmed(t);
  }


  // ---------------------------------------------------------------- extract_meta_comment

  /** `\s*` from `i`: the end of the white space run that starts there. */
  function SkipSpace(s: string, i: nat): (r: nat)
    requires i <= |s|
    ensures i <= r <= |s|
    ensures forall k :: i <= k < r ==> IsSpace(s[k])
    ensures r == |s| || !IsSpace(s[r])
    decreases |s| - i
  {
    if i < |s| && IsSpace(s[i]) then SkipSpace(s, i + 1) else i
  }

  /** `\s*-->` matches at `q`. */
  predicate CloseAt(s: string, q: nat)
    requires q <= |s|
  {
    OccursAt(s, "-->", SkipSpace(s, q))
  }

  /** The lazy group `(.*?)` from `p`: the first `q` at or after `from` where
      the comment closes, the group never crossing a line feed. */
  function GroupEnd(s: string, from: nat): (r: Option<nat>)
    requires from <= |s|
    ensures r.Some? ==> from <= r.value <= |s| && CloseAt(s, r.value)
    ensures r.Some? ==> forall k :: from <= k < r.value ==> s[k] != '\n' && !CloseAt(s, k)
    decreases |s| - from
  {
    if CloseAt(s, from) then Some(from)
    else if from == |s| || s[from] == '\n' then None
    else GroupEnd(s, from + 1)
  }

  /** The group of `<!--\s*KEY\s*:\s*(.*?)\s*-->` when the match starts at
      `i`. The `\s*` runs are taken whole, as the key starts with a letter. */
  function MetaAt(s: string, key: string, i: nat): (r: Option<string>)
    ensures r.Some? ==> '\n' !in r.value
  {
    if !OccursAt(s, "<!--", i) then None else KeyAt(s, key, SkipSpace(s, i + 4))
  }

  /** The rest of the match from `KEY` at `a`. */
  function KeyAt(s: string, key: string, a: nat): (r: Option<string>)
    requires a <= |s|
    ensures r.Some? ==> '\n' !in r.value
  {
    if !MatchesAt(s, Lower(key), a) then None else ColonAt(s, SkipSpace(s, a + |key|))
  }

  /** The rest of the match from the `:` at `b`. */
  function ColonAt(s: string, b: nat): (r: Option<string>)
    requires b <= |s|
    ensures r.Some? ==> '\n' !in r.value
  {
    if b == |s| || s[b] != ':' then None else GroupAt(s, SkipSpace(s, b + 1))
  }

  /** The group `(.*?)` from `c`. */
  function GroupAt(s: string, c: nat): (r: Option<string>)
    requires c <= |s|
    ensures r.Some? ==> '\n' !in r.value
  {
    match GroupEnd(s, c)
    case None => None
    case Some(q) =>
      assert forall k :: 0 <= k < q - c ==> s[c..q][k] == s[c + k];
      Some(s[c..q])
  }

  /** `re.search`: the leftmost start at or after `i` where the comment matches. */
  function FirstMeta(s: string, key: string, i: nat): (r: Option<string>)
    requires i <= |s|
    ensures r.Some? ==> '\n' !in r.value
    decreases |s| - i
  {
    if MetaAt(s, key, i).Some? then MetaAt(s, key, i)
    else if i == |s| then None
    else FirstMeta(s, key, i + 1)
  }

  /** `extract_meta_comment`: the stripped group of the first matching
      comment, `None` when there is none or it is empty. */
  function ExtractMeta(html: string, key: string): (r: Option<string>)
    ensures r.Some? ==> r.value != [] && Trimmed(r.value) && '\n' !in r.value
  {
    match FirstMeta(html, key, 0)
    case None => None
    case Some(g) =>
      var v := Strip(g);
      if v == [] then None
      else
        StripKeepsAbsent(g, '\n');
        Some(v)
  }

  lemma NoCloseInside(s: string, c: nat, n: nat)
    requires c <= n && n + 4 <= |s|
    requires s[n] == ' ' && s[n + 1..n + 4] == "-->"
    requires forall k :: c <= k < n ==> s[k] != '>'
    requires forall k :: c <= k < n ==> IsSpace(s[k]) ==> exists m :: k < m < n && !IsSpace(s[m])
    ensures forall q :: c <= q < n ==> !CloseAt(s, q)
  {
    forall q | c <= q < n
      ensures !CloseAt(s, q)
    {
      var k := SkipSpace(s, q);
      if IsSpace(s[q]) {
        var m :| q < m < n && !IsSpace(s[m]);
        assert k <= m;
      }
      assert k < n;
      assert s[k + 2] != '>' by {
        if k + 2 == n + 1 {
          assert s[n + 1] == s[n + 1..n + 4][0];
        }
      }
      assert k + 3 > |s| || s[k..k + 3][2] == s[k + 2];
    }
  }

  /** `<!-- KEY: ` laid out at the start of `s`, the value starting with `v0`. */
  predicate OpeningLaid(s: string, key: string, v0: char) {
    && |s| >= 8 + |key|
    && s[..4] == "<!--" && s[4] == ' ' && s[5..5 + |key|] == key
    && s[5 + |key|] == ':' && s[6 + |key|] == ' ' && s[7 + |key|] == v0
    && (key != [] ==> s[5] == key[0])
    && (key == [] ==> s[5] == ':')
  }

  /** `v -->` laid out from `c` to the end of `s`. */
  predicate TailLaid(s: string, v: string, c: nat) {
    && |s| == c + |v| + 4 && s[c..c + |v|] == v
    && s[c + |v|] == ' ' && s[c + |v| + 1..c + |v| + 4] == "-->"
  }

  lemma MetaLaid(s: string, key: string, v: string)
    requires v != []
    requires s == "<!-- " + key + ": " + v + " -->"
    ensures OpeningLaid(s, key, v[0])
    ensures TailLaid(s, v, 7 + |key|)
  {
  }

  /** The prefix `<!-- KEY: ` of a plainly written comment is matched whole. */
  lemma OpeningOf(s: string, key: string, v0: char)
    requires key == [] || !IsSpace(key[0])
    requires !IsSpace(v0)
    requires OpeningLaid(s, key, v0)
    ensures OccursAt(s, "<!--", 0)
    ensures SkipSpace(s, 4) == 5
    ensures MatchesAt(s, Lower(key), 5)
    ensures SkipSpace(s, 5 + |key|) == 5 + |key|
    ensures SkipSpace(s, 6 + |key|) == 7 + |key|
  {
  }

  /** ... and its group is the value, which runs to the space before `-->`. */
  lemma GroupOfValue(s: string, v: string, c: nat)
    requires v != [] && Trimmed(v) && '\n' !in v && '>' !in v
    requires TailLaid(s, v, c)
    ensures GroupAt(s, c) == Some(v)
  {
    var n := c + |v|;
    ValueInside(s, v, c);
    NoCloseInside(s, c, n);
    assert SkipSpace(s, n) == n + 1;
    assert CloseAt(s, n);
    GroupEndFound(s, c, n);
  }

  /** A trimmed value on one line without `>`, placed at `c`: no character of
      it is `>` or a line break, and after each white space a non-space follows. */
  lemma ValueInside(s: string, v: string, c: nat)
    requires v != [] && Trimmed(v) && '\n' !in v && '>' !in v
    requires c + |v| <= |s| && s[c..c + |v|] == v
    ensures forall k :: c <= k < c + |v| ==> s[k] != '>' && s[k] != '\n'
    ensures forall k :: c <= k < c + |v| ==> IsSpace(s[k]) ==> exists m :: k < m < c + |v| && !IsSpace(s[m])
  {
    var n := c + |v|;
    forall k | c <= k < n
      ensures s[k] != '>' && s[k] != '\n'
      ensures IsSpace(s[k]) ==> exists m :: k < m < n && !IsSpace(s[m])
    {
      assert s[k] == v[k - c];
      assert s[n - 1] == v[|v| - 1];
      if IsSpace(s[k]) {
        assert k < n - 1;
      }
    }
  }

  /** A comment written plainly is read back: `<!-- KEY: value -->` gives the
      value, for any value on one line without a `>`. */
  lemma MetaRoundTrip(key: string, v: string)
    requires key == [] || !IsSpace(key[0])
    requires v != [] && Trimmed(v) && '\n' !in v && '>' !in v
    ensures ExtractMeta("<!-- " + key + ": " + v + " -->", key) == Some(v)
  {
    var s := "<!-- " + key + ": " + v + " -->";
    MetaLaid(s, key, v);
    MetaAtValue(s, key, v);
    ExtractMetaAt(s, key, v);
  }

  lemma ExtractMetaAt(s: string, key: string, v: string)
    requires v != [] && Trimmed(v) && MetaAt(s, key, 0) == Some(v)
    ensures ExtractMeta(s, key) == Some(v)
  {
    StripTrimmed(v);
  }

  lemma MetaAtValue(s: string, key: string, v: string)
    requires key == [] || !IsSpace(key[0])
    requires v != [] && Trimmed(v) && '\n' !in v && '>' !in v
    requires OpeningLaid(s, key, v[0]) && TailLaid(s, v, 7 + |key|)
    ensures MetaAt(s, key, 0) == Some(v)
  {
    OpeningOf(s, key, v[0]);
    GroupOfValue(s, v, 7 + |key|);
    ColonFound(s, 5 + |key|, v);
    KeyFound(s, key, 5, v);
  }

  lemma ColonFound(s: string, b: nat, v: string)
    requires b < |s| && s[b] == ':' && GroupAt(s, SkipSpace(s, b + 1)) == Some(v)
    ensures ColonAt(s, b) == Some(v)
  {
  }

  lemma KeyFound(s: string, key: string, a: nat, v: string)
    requires OccursAt(s, "<!--", 0) && SkipSpace(s, 4) == a && MatchesAt(s, Lower(key), a)
    requires a + |key| <= |s| && ColonAt(s, SkipSpace(s, a + |key|)) == Some(v)
    ensures MetaAt(s, key, 0) == Some(v)
  {
  }

  lemma {:induction false} GroupEndFound(s: string, from: nat, n: nat)
    requires from <= n <= |s| && CloseAt(s, n)
    requires forall k :: from <= k < n ==> s[k] != '\n' && !CloseAt(s, k)
    ensures GroupEnd(s, from) == Some(n)
    decreases n - from
  {
    if from < n {
      GroupEndFound(s, from + 1, n);
    }
  }

  // ---------------------------------------------------------------- label_from_filename

  /** `str.title()` on ASCII: a letter is upper-cased when it does not follow
      a letter, lower-cased when it does; other characters are kept. */
  function TitleCase(s: string): (r: string)
    ensures |r| == |s|
  {
    seq(|s|, i requires 0 <= i < |s| =>
      if i > 0 && IsLetter(s[i - 1]) then LowerChar(s[i]) else UpperChar(s[i]))
  }

  /** Title-casing changes case only, keeps every other character, and
      every word then starts upper case. */
  lemma TitleCaseMeaning(s: string)
    ensures Lower(TitleCase(s)) == Lower(s)
    ensures forall i :: 0 <= i < |s| && !IsLetter(s[i]) ==> TitleCase(s)[i] == s[i]
    ensures forall i :: 0 <= i < |s| && IsLetter(s[i]) ==> IsLetter(TitleCase(s)[i])
    ensures forall i :: 0 <= i < |s| && 'a' <= s[i] <= 'z' && (i == 0 || !IsLetter(s[i - 1]))
              ==> 'A' <= TitleCase(s)[i] <= 'Z'
    ensures forall i :: 0 < i < |s| && 'A' <= s[i] <= 'Z' && IsLetter(s[i - 1])
              ==> 'a' <= TitleCase(s)[i] <= 'z'
  {
  }

  /** The stem with `-` and `_` made spaces, stripped. */
  function Words(name: string): string {
    Strip(ReplaceChar(ReplaceChar(Stem(name), '-', ' '), '_', ' '))
  }

  /** `label_from_filename`: the words title-cased; the whole file name when
      there are none. */
  function LabelFromFilename(name: string): (r: string)
    ensures Words(name) == [] ==> r == name
    ensures Words(name) != [] ==> |r| == |Words(name)| && Lower(r) == Lower(Words(name))
  {
    var words := Words(name);
    if words == [] then name
    else
      TitleCaseMeaning(words);
      TitleCase(words)
  }

  lemma ReplaceKeepsAbsent(s: string, a: char, b: char, c: char)
    requires c != b && c !in s
    ensures c !in ReplaceChar(s, a, b)
  {
    var r := ReplaceChar(s, a, b);
    forall k | 0 <= k < |r| ensures r[k] != c {
      assert s[k] in s;
    }
  }

  lemma StripKeepsAbsent(s: string, c: char)
    requires c !in s
    ensures c !in Strip(s)
  {
    var l := TrimLeft(s);
    var r := TrimRight(l);
    forall k | 0 <= k < |r| ensures r[k] != c {
      assert r[k] == l[k] == s[|s| - |l| + k];
      assert s[|s| - |l| + k] in s;
    }
  }

  lemma WordsClean(name: string)
    ensures '-' !in Words(name) && '_' !in Words(name)
  {
    var step1 := ReplaceChar(Stem(name), '-', ' ');
    var step2 := ReplaceChar(step1, '_', ' ');
    ReplaceKeepsAbsent(step1, '_', ' ', '-');
    StripKeepsAbsent(step2, '-');
    StripKeepsAbsent(step2, '_');
  }

  /** Case mapping keeps white space, `-` and `_` as they are, and maps no
      other character to one of them. */
  lemma CaseKeepsMarks(c: char)
    ensures IsSpace(LowerChar(c)) == IsSpace(c) && IsSpace(UpperChar(c)) == IsSpace(c)
    ensures (LowerChar(c) == '-') == (c == '-') && (UpperChar(c) == '-') == (c == '-')
    ensures (LowerChar(c) == '_') == (c == '_') && (UpperChar(c) == '_') == (c == '_')
  {
  }

  lemma TitleCaseClean(w: string)
    requires w != [] && Trimmed(w) && '-' !in w && '_' !in w
    ensures var r := TitleCase(w); r != [] && Trimmed(r) && '-' !in r && '_' !in r
  {
    var r := TitleCase(w);
    forall k | 0 <= k < |r| ensures r[k] != '-' && r[k] != '_' {
      assert w[k] in w;
      CaseKeepsMarks(w[k]);
    }
    CaseKeepsMarks(w[0]);
    CaseKeepsMarks(w[|w| - 1]);
  }

  /** A label from a name with words is never empty, has no white space at
      its ends, and holds no `-` or `_`. */
  lemma LabelMeaning(name: string)
    ensures var r := LabelFromFilename(name);
      Words(name) != [] ==> r != [] && Trimmed(r) && '-' !in r && '_' !in r
  {
    if Words(name) != [] {
      WordsClean(name);
      TitleCaseClean(Words(name));
    }
  }
}
