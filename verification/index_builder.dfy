/**
 * The selection logic of the index builder (`index-builder.py`): which root
 * pages are apps and how they are grouped by topic, which books get a tile,
 * and which image is a book's cover.
 */
module IndexBuilder {
  import opened Wrappers
  import opened Text
  import opened Order
  import opened Fs
  import opened IndexText

  // ---------------------------------------------------------------- apps

  datatype AppLink = AppLink(href: string, title: string, topic: string, desc: string)

  const IgnoreRootHtml: set<string> := {"index.html", "viewer-template.html"}

  /** A root entry the builder lists as an app: an `.html` file (suffix in
      any case), not an ignored page, and not starting with `_` or `.`. */
  predicate IsApp(e: Entry) {
    && e.File?
    && Lower(Suffix(e.name)) == ".html"
    && Lower(e.name) !in IgnoreRootHtml
    && !StartsWith(e.name, "_")
    && !StartsWith(e.name, ".")
  }

  /** Python's `x or d` on an optional string. */
  function Or(o: Option<string>, d: string): string {
    if o.Some? && o.value != [] then o.value else d
  }

  /** The link made for an app page: the topic defaults to `Unsorted`, the
      description to nothing, the title to a label made from the file name. */
  function AppOf(e: Entry): (r: AppLink)
    requires e.File?
    ensures r.href == e.name
    ensures r.topic != []
    ensures ExtractMeta(e.text, "TOPIC").None? ==> r.topic == "Unsorted"
    ensures ExtractMeta(e.text, "TOPIC").Some? ==> r.topic == ExtractMeta(e.text, "TOPIC").value
    ensures ExtractMeta(e.text, "DESC").None? ==> r.desc == ""
    ensures ExtractTitle(e.text).None? ==> r.title == LabelFromFilename(e.name)
    ensures e.name != [] ==> r.title != []
  {
    var topic := Or(ExtractMeta(e.text, "TOPIC"), "Unsorted");
    var desc := Or(ExtractMeta(e.text, "DESC"), "");
    var title := Or(ExtractTitle(e.text), LabelFromFilename(e.name));
    LabelMeaning(e.name);
    AppLink(e.name, title, topic, desc)
  }

  function AppEntry(e: Entry): Option<AppLink> {
    if IsApp(e) then Some(AppOf(e)) else None
  }

  /** `key=lambda p: p.name.lower()` */
  function NameKey(e: Entry): Key { StrKey(Lower(e.name)) }

  /** `key=lambda a: a.title.lower()` */
  function TitleKey(a: AppLink): Key { StrKey(Lower(a.title)) }

  /** `key=str.lower` */
  function TopicKey(t: string): Key { StrKey(Lower(t)) }

  /** The apps of the root listing, in the order the loop visits them. */
  function Apps(root: seq<Entry>): seq<AppLink> {
    Somes(Map(AppEntry, SortBy(root, NameKey)))
  }

  /** Every app comes from an app page of the root, and every app page
      gives one. */
  lemma AppsMeaning(root: seq<Entry>, a: AppLink)
    ensures a in Apps(root) <==> exists e :: e in root && AppEntry(e) == Some(a)
  {
    Selected(root, AppEntry, a);
  }

  /** What the builder keeps of a listing visited in lower-cased name order
      is exactly what `f` keeps of its entries. */
  lemma Selected<T>(listing: seq<Entry>, f: Entry -> Option<T>, x: T)
    ensures x in Somes(Map(f, SortBy(listing, NameKey))) <==> exists e :: e in listing && f(e) == Some(x)
  {
    var sorted := SortBy(listing, NameKey);
    var ls := Map(f, sorted);
    SortByCorrect(listing, NameKey);
    SomesMember(ls, x);
    if x in Somes(ls) {
      var k :| 0 <= k < |ls| && ls[k] == Some(x);
      assert sorted[k] in multiset(listing);
    }
    if exists e :: e in listing && f(e) == Some(x) {
      var e :| e in listing && f(e) == Some(x);
      assert e in multiset(sorted);
      var k :| 0 <= k < |sorted| && sorted[k] == e;
      assert ls[k] == Some(x);
    }
  }

  /** The topics of `apps` in the order they first appear: the keys of
      `groups`, in insertion order. */
  function Topics(apps: seq<AppLink>): (r: seq<string>)
    ensures forall t :: t in r <==> exists k :: 0 <= k < |apps| && apps[k].topic == t
    ensures forall i, j :: 0 <= i < j < |r| ==> r[i] != r[j]
  {
    if apps == [] then []
    else
      var init, last := apps[..|apps| - 1], apps[|apps| - 1];
      var ts := Topics(init);
      assert forall k :: 0 <= k < |init| ==> init[k] == apps[k];
      if last.topic in ts then ts else ts + [last.topic]
  }

  /** The apps with topic `t`, in order: `groups[t]` before sorting. */
  function WithTopic(apps: seq<AppLink>, t: string): (r: seq<AppLink>)
    ensures forall a :: a in r <==> a in apps && a.topic == t
  {
    if apps == [] then []
    else
      var init, last := apps[..|apps| - 1], apps[|apps| - 1];
      assert apps == init + [last];
      WithTopic(init, t) + (if last.topic == t then [last] else [])
  }

  /** Topics listed in the sorted part: all but spellings of `unsorted`. */
  predicate Listed(t: string) {
    Lower(t) != "unsorted"
  }

  /** The key order of `ordered`: the listed topics sorted case-insensitively
      (ties in insertion order), then `Unsorted` when it is a key. */
  function OrderedTopics(keys: seq<string>): seq<string> {
    SortBy(Filter(Listed, keys), TopicKey) + (if "Unsorted" in keys then ["Unsorted"] else [])
  }

  /** `groups[t]` after its sort. */
  function Group(apps: seq<AppLink>, t: string): seq<AppLink> {
    SortBy(WithTopic(apps, t), TitleKey)
  }

  /** The ordered dict `collect_root_apps` returns, as its list of items. */
  function RootApps(root: seq<Entry>): seq<(string, seq<AppLink>)> {
    var apps := Apps(root);
    var order := OrderedTopics(Topics(apps));
    seq(|order|, i requires 0 <= i < |order| => (order[i], Group(apps, order[i])))
  }

  lemma LowerUnsorted()
    ensures Lower("Unsorted") == "unsorted"
  {
  }

  /** A topic is a key of the result exactly when it is a listed topic or
      exactly `Unsorted`; other spellings of `unsorted` are dropped. The
      listed topics come sorted, and `Unsorted`, when present, comes last. */
  lemma OrderedTopicsMeaning(keys: seq<string>)
    ensures var r := OrderedTopics(keys);
      && (forall t :: t in r <==> t in keys && (Listed(t) || t == "Unsorted"))
      && ("Unsorted" in keys ==> r != [] && r[|r| - 1] == "Unsorted")
      && SortedBy(SortBy(Filter(Listed, keys), TopicKey), TopicKey)
      && "Unsorted" !in SortBy(Filter(Listed, keys), TopicKey)
  {
    var f := Filter(Listed, keys);
    SortByCorrect(f, TopicKey);
    LowerUnsorted();
    forall t ensures t in SortBy(f, TopicKey) <==> t in f {
      assert t in SortBy(f, TopicKey) <==> t in multiset(SortBy(f, TopicKey));
    }
  }

  /** Each group holds exactly the apps of its topic, ascending by lower-cased
      title, apps with equal titles in the order the loop met them. */
  lemma GroupMeaning(apps: seq<AppLink>, t: string)
    ensures var g := Group(apps, t);
      && multiset(g) == multiset(WithTopic(apps, t))
      && (forall a :: a in g <==> a in apps && a.topic == t)
      && SortedBy(g, TitleKey)
      && (forall k :: WithKey(g, TitleKey, k) == WithKey(WithTopic(apps, t), TitleKey, k))
  {
    var g := Group(apps, t);
    SortByCorrect(WithTopic(apps, t), TitleKey);
    forall a ensures a in g <==> a in WithTopic(apps, t) {
      assert a in g <==> a in multiset(g);
    }
  }

  /** An app is listed, under its own topic, unless its topic is a spelling
      of `unsorted` other than `Unsorted` itself. */
  lemma EveryAppListed(root: seq<Entry>, a: AppLink)
    requires a in Apps(root)
    requires Listed(a.topic) || a.topic == "Unsorted"
    ensures exists i :: 0 <= i < |RootApps(root)| && RootApps(root)[i].0 == a.topic && a in RootApps(root)[i].1
  {
    var apps := Apps(root);
    var order := OrderedTopics(Topics(apps));
    var k :| 0 <= k < |apps| && apps[k] == a;
    assert a.topic in Topics(apps);
    OrderedTopicsMeaning(Topics(apps));
    var i :| 0 <= i < |order| && order[i] == a.topic;
    GroupMeaning(apps, a.topic);
    assert RootApps(root)[i] == (a.topic, Group(apps, a.topic));
  }

  // ---------------------------------------------------------------- the collect_root_apps loops

  /** The tests and reads of one root entry. */
  method ReadApp(f: Entry) returns (a: Option<AppLink>)
    ensures a == AppEntry(f)
  {
    if !f.File? {
      return None;
    }
    if Lower(Suffix(f.name)) != ".html" {
      return None;
    }
    if Lower(f.name) in IgnoreRootHtml {
      return None;
    }
    if StartsWith(f.name, "_") || StartsWith(f.name, ".") {
      return None;
    }
    var text := f.text;
    var topic := Or(ExtractMeta(text, "TOPIC"), "Unsorted");
    var desc := Or(ExtractMeta(text, "DESC"), "");
    var title := Or(ExtractTitle(text), LabelFromFilename(f.name));
    return Some(AppLink(f.name, title, topic, desc));
  }

  lemma TopicsSnoc(apps: seq<AppLink>, a: AppLink)
    ensures a.topic in Topics(apps) ==> Topics(apps + [a]) == Topics(apps)
    ensures a.topic !in Topics(apps) ==> Topics(apps + [a]) == Topics(apps) + [a.topic]
  {
    assert (apps + [a])[..|apps|] == apps;
  }

  lemma WithTopicSnoc(apps: seq<AppLink>, a: AppLink, t: string)
    ensures a.topic == t ==> WithTopic(apps + [a], t) == WithTopic(apps, t) + [a]
    ensures a.topic != t ==> WithTopic(apps + [a], t) == WithTopic(apps, t)
  {
    assert (apps + [a])[..|apps|] == apps;
  }

  lemma WithTopicEmpty(apps: seq<AppLink>, t: string)
    requires t !in Topics(apps)
    ensures WithTopic(apps, t) == []
  {
  }

  /** `groups.setdefault(topic, []).append(app)` */
  method AddApp(keys: seq<string>, groups: map<string, seq<AppLink>>, ghost apps: seq<AppLink>, a: AppLink)
    returns (keys': seq<string>, groups': map<string, seq<AppLink>>)
    requires keys == Topics(apps)
    requires forall t :: t in groups <==> t in keys
    requires forall t :: t in groups ==> groups[t] == WithTopic(apps, t)
    ensures keys' == Topics(apps + [a])
    ensures forall t :: t in groups' <==> t in keys'
    ensures forall t :: t in groups' ==> groups'[t] == WithTopic(apps + [a], t)
  {
    TopicsSnoc(apps, a);
    if a.topic in groups {
      keys' := keys;
      groups' := groups[a.topic := groups[a.topic] + [a]];
    } else {
      WithTopicEmpty(apps, a.topic);
      keys' := keys + [a.topic];
      groups' := groups[a.topic := [] + [a]];
    }
    forall t | t in groups' ensures groups'[t] == WithTopic(apps + [a], t) {
      WithTopicSnoc(apps, a, t);
    }
  }

  /** The first loop, over the root listing in name order. */
  method GroupApps(entries: seq<Entry>) returns (keys: seq<string>, groups: map<string, seq<AppLink>>)
    ensures keys == Topics(Somes(Map(AppEntry, entries)))
    ensures forall t :: t in groups <==> t in keys
    ensures forall t :: t in groups ==> groups[t] == WithTopic(Somes(Map(AppEntry, entries)), t)
  {
    ghost var ls := Map(AppEntry, entries);
    ghost var apps: seq<AppLink> := [];
    keys, groups := [], map[];
    for i := 0 to |entries|
      invariant apps == Somes(ls[..i])
      invariant keys == Topics(apps)
      invariant forall t :: t in groups <==> t in keys
      invariant forall t :: t in groups ==> groups[t] == WithTopic(apps, t)
    {
      SomesStep(ls, i);
      var app := ReadApp(entries[i]);
      assert ls[i] == app;
      if app.None? {
        continue;
      }
      keys, groups := AddApp(keys, groups, apps, app.value);
      apps := apps + [app.value];
    }
    assert ls[..|entries|] == ls;
  }

  /** `for t in groups: groups[t].sort(key=lambda a: a.title.lower())` */
  method SortGroups(keys: seq<string>, groups: map<string, seq<AppLink>>) returns (sorted: map<string, seq<AppLink>>)
    requires forall t :: t in groups <==> t in keys
    requires forall i, j :: 0 <= i < j < |keys| ==> keys[i] != keys[j]
    ensures forall t :: t in sorted <==> t in groups
    ensures forall t :: t in sorted ==> sorted[t] == SortBy(groups[t], TitleKey)
  {
    sorted := groups;
    for k := 0 to |keys|
      invariant forall t :: t in sorted <==> t in groups
      invariant forall j :: 0 <= j < k ==> sorted[keys[j]] == SortBy(groups[keys[j]], TitleKey)
      invariant forall j :: k <= j < |keys| ==> sorted[keys[j]] == groups[keys[j]]
    {
      var t := keys[k];
      sorted := sorted[t := SortBy(sorted[t], TitleKey)];
    }
    forall t | t in sorted ensures sorted[t] == SortBy(groups[t], TitleKey) {
      var j :| 0 <= j < |keys| && keys[j] == t;
    }
  }

  /** `[k for k in groups.keys() if k.lower() != "unsorted"]` */
  method ListedKeys(keys: seq<string>) returns (listed: seq<string>)
    ensures listed == Filter(Listed, keys)
  {
    listed := [];
    for k := 0 to |keys|
      invariant listed == Filter(Listed, keys[..k])
    {
      FilterStep(Listed, keys, k);
      if Lower(keys[k]) != "unsorted" {
        listed := listed + [keys[k]];
      }
    }
    assert keys[..|keys|] == keys;
  }

  /** The `ordered` dict, filled in topic order. */
  method Ordered(keys: seq<string>, groups: map<string, seq<AppLink>>) returns (ordered: seq<(string, seq<AppLink>)>)
    requires forall t :: t in groups <==> t in keys
    ensures var order := OrderedTopics(keys);
      && |ordered| == |order|
      && forall j :: 0 <= j < |order| ==> order[j] in groups && ordered[j] == (order[j], groups[order[j]])
  {
    var listed := ListedKeys(keys);
    var topics := SortBy(listed, TopicKey);
    forall i | 0 <= i < |topics| ensures topics[i] in groups && OrderedTopics(keys)[i] == topics[i] {
      SortedTopic(keys, i);
    }
    ordered := SortedItems(topics, groups);
    OrderedTopicsLast(keys);
    if "Unsorted" in groups {
      ordered := ordered + [("Unsorted", groups["Unsorted"])];
    }
  }

  /** `for t in sorted(...): ordered[t] = groups[t]` */
  method SortedItems(topics: seq<string>, groups: map<string, seq<AppLink>>) returns (items: seq<(string, seq<AppLink>)>)
    requires forall i :: 0 <= i < |topics| ==> topics[i] in groups
    ensures |items| == |topics|
    ensures forall i :: 0 <= i < |topics| ==> items[i] == (topics[i], groups[topics[i]])
  {
    items := [];
    for i := 0 to |topics|
      invariant |items| == i
      invariant forall j :: 0 <= j < i ==> items[j] == (topics[j], groups[topics[j]])
    {
      items := items + [(topics[i], groups[topics[i]])];
    }
  }

  /** The first part of the order is the sorted listed keys. */
  lemma SortedTopic(keys: seq<string>, i: nat)
    requires i < |SortBy(Filter(Listed, keys), TopicKey)|
    ensures var t := SortBy(Filter(Listed, keys), TopicKey)[i];
      i < |OrderedTopics(keys)| && OrderedTopics(keys)[i] == t && t in keys
  {
    var listed := Filter(Listed, keys);
    var topics := SortBy(listed, TopicKey);
    SortByCorrect(listed, TopicKey);
    assert topics[i] in multiset(listed);
  }

  /** ... and `Unsorted`, when it is a key, is the one topic after them. */
  lemma OrderedTopicsLast(keys: seq<string>)
    ensures var n := |SortBy(Filter(Listed, keys), TopicKey)|;
      && ("Unsorted" in keys ==> |OrderedTopics(keys)| == n + 1 && OrderedTopics(keys)[n] == "Unsorted")
      && ("Unsorted" !in keys ==> |OrderedTopics(keys)| == n)
  {
  }

  /** `collect_root_apps`: the root listing in lower-cased name order, the
      apps grouped by topic, each group sorted by title, and the groups
      ordered with `Unsorted` last. */
  method CollectRootApps(root: seq<Entry>) returns (ordered: seq<(string, seq<AppLink>)>)
    ensures ordered == RootApps(root)
  {
    var entries := SortBy(root, NameKey);
    var keys, groups := GroupApps(entries);
    ghost var apps := Somes(Map(AppEntry, entries));
    assert apps == Apps(root);
    var sorted := SortGroups(keys, groups);
    ordered := Ordered(keys, sorted);
    ghost var order := OrderedTopics(keys);
    assert forall j :: 0 <= j < |order| ==> ordered[j] == (order[j], Group(apps, order[j]));
    RootAppsItems(root, ordered);
  }

  lemma RootAppsItems(root: seq<Entry>, items: seq<(string, seq<AppLink>)>)
    requires var order := OrderedTopics(Topics(Apps(root)));
      && |items| == |order|
      && forall j :: 0 <= j < |order| ==> items[j] == (order[j], Group(Apps(root), order[j]))
    ensures items == RootApps(root)
  {
  }

  // ---------------------------------------------------------------- covers

  /** A path below a book folder: `book_dir / base / file`. */
  datatype CoverPath = CoverPath(base: string, file: string)

  const CoverBases: seq<string> := ["pages", "thumbs"]
  const CoverExts: seq<string> := [".webp", ".png", ".jpg", ".jpeg"]

  /** The eight candidates in the order the two loops try them: every
      extension under `pages` before any under `thumbs`. */
  function Candidates(): (r: seq<CoverPath>)
    ensures |r| == 8
    ensures forall b, x :: 0 <= b < 2 && 0 <= x < 4 ==>
      r[4 * b + x] == CoverPath(CoverBases[b], "001" + CoverExts[x])
  {
    [ CoverPath(CoverBases[0], "001" + CoverExts[0]), CoverPath(CoverBases[0], "001" + CoverExts[1]),
      CoverPath(CoverBases[0], "001" + CoverExts[2]), CoverPath(CoverBases[0], "001" + CoverExts[3]),
      CoverPath(CoverBases[1], "001" + CoverExts[0]), CoverPath(CoverBases[1], "001" + CoverExts[1]),
      CoverPath(CoverBases[1], "001" + CoverExts[2]), CoverPath(CoverBases[1], "001" + CoverExts[3]) ]
  }

  /** `(book_dir / base / file).exists()`: `base` is a folder of the book
      and has an entry called `file`. */
  predicate CoverExists(book: seq<Entry>, c: CoverPath) {
    match ChildIndex(book, c.base)
    case None => false
    case Some(i) => book[i].Dir? && HasChild(book[i].entries, c.file)
  }

  /** The position of the first candidate that exists. */
  function FirstCover(book: seq<Entry>, cs: seq<CoverPath>): (r: Option<nat>)
    ensures r.Some? ==> r.value < |cs| && CoverExists(book, cs[r.value])
    ensures r.Some? ==> forall j :: 0 <= j < r.value ==> !CoverExists(book, cs[j])
    ensures r.None? <==> forall j :: 0 <= j < |cs| ==> !CoverExists(book, cs[j])
  {
    FirstIndex(c => CoverExists(book, c), cs)
  }

  /** The cover `first_existing_cover` returns: a candidate that exists, with
      none before it; none when no candidate exists. */
  function Cover(book: seq<Entry>): (r: Option<CoverPath>)
    ensures r.Some? ==> CoverExists(book, r.value)
    ensures r.None? <==> forall j :: 0 <= j < 8 ==> !CoverExists(book, Candidates()[j])
  {
    match FirstCover(book, Candidates())
    case None => None
    case Some(i) => Some(Candidates()[i])
  }

  /** `first_existing_cover`: two nested loops that return the first
      candidate that exists. */
  method FirstExistingCover(book: seq<Entry>) returns (r: Option<CoverPath>)
    ensures r == Cover(book)
  {
    ghost var cs := Candidates();
    for b := 0 to |CoverBases|
      invariant forall j :: 0 <= j < 4 * b ==> !CoverExists(book, cs[j])
    {
      for x := 0 to |CoverExts|
        invariant forall j :: 0 <= j < 4 * b + x ==> !CoverExists(book, cs[j])
      {
        var candidate := CoverPath(CoverBases[b], "001" + CoverExts[x]);
        assert candidate == cs[4 * b + x];
        if CoverExists(book, candidate) {
          FirstCoverIs(book, cs, 4 * b + x);
          return Some(candidate);
        }
      }
    }
    return None;
  }

  lemma FirstCoverIs(book: seq<Entry>, cs: seq<CoverPath>, i: nat)
    requires i < |cs| && CoverExists(book, cs[i])
    requires forall j :: 0 <= j < i ==> !CoverExists(book, cs[j])
    ensures FirstCover(book, cs) == Some(i)
  {
    FirstIndexIs(c => CoverExists(book, c), cs, i);
  }

  /** A cover exists exactly when one of the eight candidates does. */
  lemma CoverFound(book: seq<Entry>)
    ensures Cover(book).None? <==>
      forall b, x :: 0 <= b < 2 && 0 <= x < 4 ==>
        !CoverExists(book, CoverPath(CoverBases[b], "001" + CoverExts[x]))
  {
    var cs := Candidates();
    if Cover(book).Some? {
      var i := FirstCover(book, cs).value;
      var b := if i < 4 then 0 else 1;
      assert cs[4 * b + (i - 4 * b)] == cs[i];
    }
  }

  /** An existing `pages/001<ext>` always wins over anything under `thumbs`. */
  lemma PagesPreferred(book: seq<Entry>, x: nat)
    requires x < 4 && CoverExists(book, CoverPath("pages", "001" + CoverExts[x]))
    ensures Cover(book).Some? && Cover(book).value.base == "pages"
  {
    var cs := Candidates();
    assert cs[4 * 0 + x] == CoverPath(CoverBases[0], "001" + CoverExts[x]);
    PagesCandidates();
  }

  /** The first four candidates are the ones under `pages`. */
  lemma PagesCandidates()
    ensures forall i :: 0 <= i < 4 ==> Candidates()[i].base == "pages"
  {
    forall i | 0 <= i < 4 ensures Candidates()[i].base == "pages" {
      assert Candidates()[4 * 0 + i] == CoverPath(CoverBases[0], "001" + CoverExts[i]);
    }
  }

  /** Within a folder the extensions are tried in the order `.webp`, `.png`,
      `.jpg`, `.jpeg`: a cover with a later one means no earlier one exists. */
  lemma ExtensionOrder(book: seq<Entry>, b: nat, x: nat, y: nat)
    requires b < 2 && x < y < 4
    requires Cover(book) == Some(CoverPath(CoverBases[b], "001" + CoverExts[y]))
    ensures !CoverExists(book, CoverPath(CoverBases[b], "001" + CoverExts[x]))
  {
    var cs := Candidates();
    CoverAt(book, 4 * b + y);
    assert cs[4 * b + x] == CoverPath(CoverBases[b], "001" + CoverExts[x]);
  }

  /** The cover found is the `i`-th candidate only when no earlier one exists. */
  lemma CoverAt(book: seq<Entry>, i: nat)
    requires i < 8 && Cover(book) == Some(Candidates()[i])
    ensures forall j :: 0 <= j < i ==> !CoverExists(book, Candidates()[j])
  {
    var k := FirstCover(book, Candidates()).value;
    CandidatesDistinct(k, i);
  }

  /** No candidate is tried twice. */
  lemma CandidatesDistinct(i: nat, j: nat)
    requires i < 8 && j < 8 && Candidates()[i] == Candidates()[j]
    ensures i == j
  {
    var cs := Candidates();
    assert cs[i].base == CoverBases[i / 4] && cs[j].base == CoverBases[j / 4] by {
      assert cs[i] == cs[4 * (i / 4) + i % 4];
      assert cs[j] == cs[4 * (j / 4) + j % 4];
    }
    assert cs[i].file == "001" + CoverExts[i % 4] && cs[j].file == "001" + CoverExts[j % 4] by {
      assert cs[i] == cs[4 * (i / 4) + i % 4];
      assert cs[j] == cs[4 * (j / 4) + j % 4];
    }
    assert |CoverBases[0]| != |CoverBases[1]|;
    ExtsDistinct(i % 4, j % 4);
  }

  lemma ExtsDistinct(x: nat, y: nat)
    requires x < 4 && y < 4 && "001" + CoverExts[x] == "001" + CoverExts[y]
    ensures x == y
  {
    var fx, fy := "001" + CoverExts[x], "001" + CoverExts[y];
    assert fx[4] == CoverExts[x][1] && |fx| == 3 + |CoverExts[x]|;
    assert fy[4] == CoverExts[y][1] && |fy| == 3 + |CoverExts[y]|;
  }

  // ---------------------------------------------------------------- books

  datatype BookTile = BookTile(viewerHref: string, coverSrc: string, name: string)

  /** `str(cover.relative_to(ROOT)).replace("\\", "/")`, or `""` without a cover. */
  function CoverSrc(name: string, cover: Option<CoverPath>): (r: string)
    ensures cover.None? <==> r == ""
    ensures '\\' !in r
  {
    match cover
    case None => ""
    case Some(c) => ReplaceChar("books/" + name + "/" + c.base + "/" + c.file, '\\', '/')
  }

  /** The tile of one entry of `books/`: only a folder with a `viewer.html`
      gets one, and a folder without a cover keeps its tile, with no image. */
  function TileEntry(e: Entry): (r: Option<BookTile>)
    ensures r.Some? <==> e.Dir? && HasChild(e.entries, "viewer.html")
    ensures r.Some? ==> r.value.name == e.name && r.value.viewerHref == "books/" + e.name + "/viewer.html"
    ensures r.Some? ==> (r.value.coverSrc == "" <==> Cover(e.entries).None?)
  {
    if e.Dir? && HasChild(e.entries, "viewer.html") then
      Some(BookTile("books/" + e.name + "/viewer.html", CoverSrc(e.name, Cover(e.entries)), e.name))
    else None
  }

  /** `key=lambda t: t.name.lower()`, the order tiles come in. */
  function TileKey(t: BookTile): Key { StrKey(Lower(t.name)) }

  /** The tiles `collect_books` returns; a missing `books/` gives none. */
  function Tiles(books: Option<seq<Entry>>): seq<BookTile> {
    match books
    case None => []
    case Some(listing) => Somes(Map(TileEntry, SortBy(listing, NameKey)))
  }

  /** The tests and reads of one entry of `books/`. */
  method ReadBook(book: Entry) returns (t: Option<BookTile>)
    ensures t == TileEntry(book)
  {
    if !book.Dir? {
      return None;
    }
    if !HasChild(book.entries, "viewer.html") {
      return None;
    }
    var cover := FirstExistingCover(book.entries);
    if cover.None? {
      return Some(BookTile("books/" + book.name + "/viewer.html", "", book.name));
    }
    var src := ReplaceChar("books/" + book.name + "/" + cover.value.base + "/" + cover.value.file, '\\', '/');
    return Some(BookTile("books/" + book.name + "/viewer.html", src, book.name));
  }

  /** `collect_books` */
  method CollectBooks(books: Option<seq<Entry>>) returns (tiles: seq<BookTile>)
    ensures tiles == Tiles(books)
  {
    if books.None? {
      return [];
    }
    var entries := SortBy(books.value, NameKey);
    ghost var ls := Map(TileEntry, entries);
    tiles := [];
    for i := 0 to |entries|
      invariant tiles == Somes(ls[..i])
    {
      SomesStep(ls, i);
      var t := ReadBook(entries[i]);
      assert ls[i] == t;
      if t.Some? {
        tiles := tiles + [t.value];
      }
    }
    assert ls[..|entries|] == ls;
  }

  /** A tile is made exactly for each folder of `books/` holding a
      `viewer.html`. */
  lemma TilesMeaning(listing: seq<Entry>, t: BookTile)
    ensures t in Tiles(Some(listing)) <==> exists e :: e in listing && TileEntry(e) == Some(t)
  {
    Selected(listing, TileEntry, t);
  }

  /** Keeping some entries of a list sorted by name, each under its own
      name, leaves a sorted list. */
  lemma {:induction false} KeptSorted<T>(s: seq<Entry>, f: Entry -> Option<T>, key: T -> Key)
    requires SortedBy(s, NameKey)
    requires forall e :: f(e).Some? ==> key(f(e).value) == NameKey(e)
    ensures SortedBy(Somes(Map(f, s)), key)
    decreases |s|
  {
    if s != [] {
      var init, last := s[..|s| - 1], s[|s| - 1];
      KeptSorted(init, f, key);
      assert s == init + [last];
      MapAppend(f, init, [last]);
      SomesAppend(Map(f, init), Map(f, [last]));
      if f(last).Some? {
        KeptBeforeLast(init, last, f, key);
        SomesOne(f(last));
        SortedSnoc(Somes(Map(f, init)), f(last).value, key);
      } else {
        SomesOne(f(last));
        assert Somes(Map(f, init)) + [] == Somes(Map(f, init));
      }
    }
  }

  lemma SomesOne<T>(o: Option<T>)
    ensures o.None? ==> Somes([o]) == []
    ensures o.Some? ==> Somes([o]) == [o.value]
  {
    assert [o][..0] == [];
  }

  /** Every entry kept before the last one has a key not above the last one's. */
  lemma KeptBeforeLast<T>(init: seq<Entry>, last: Entry, f: Entry -> Option<T>, key: T -> Key)
    requires f(last).Some?
    requires SortedBy(init + [last], NameKey)
    requires forall e :: f(e).Some? ==> key(f(e).value) == NameKey(e)
    ensures forall x :: x in Somes(Map(f, init)) ==> KeyLe(key(x), key(f(last).value))
  {
    var s := init + [last];
    forall x | x in Somes(Map(f, init)) ensures KeyLe(key(x), key(f(last).value)) {
      SomesMember(Map(f, init), x);
      var j :| 0 <= j < |init| && Map(f, init)[j] == Some(x);
      assert s[j] == init[j] && s[|init|] == last;
    }
  }

  lemma TilesSorted(books: Option<seq<Entry>>)
    ensures SortedBy(Tiles(books), TileKey)
  {
    if books.Some? {
      SortByCorrect(books.value, NameKey);
      KeptSorted(SortBy(books.value, NameKey), TileEntry, TileKey);
    }
  }
}
