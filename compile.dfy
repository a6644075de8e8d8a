/** The compiler's document layer: a parsed `Article` with its file names, its feature switches,
    its keywords and the related topics other documents lend it. */
module Compile {
  import opened Wrappers
  import Dicts
  import opened Strings
  import opened Schema

  // ---------------------------------------------------------------------------------------
  // Paths (`os.path.split` and `os.path.join` on POSIX)
  // ---------------------------------------------------------------------------------------

  /** The index just after the last `/`, or 0 when there is none. */
  function TailStart(p: string): (i: nat)
    ensures i <= |p|
    ensures forall j :: i <= j < |p| ==> p[j] != '/'
    ensures i > 0 ==> p[i - 1] == '/'
  {
    if |p| == 0 then 0 else if p[|p| - 1] == '/' then |p| else TailStart(p[..|p| - 1])
  }

  predicate AllSlashes(s: string) {
    forall j :: 0 <= j < |s| ==> s[j] == '/'
  }

  /** `s.rstrip("/")`. */
  function RStripSlashes(s: string): (r: string)
    ensures |r| <= |s| && r == s[..|r|] && (r == [] || r[|r| - 1] != '/')
    ensures forall j :: |r| <= j < |s| ==> s[j] == '/'
  {
    if |s| > 0 && s[|s| - 1] == '/' then RStripSlashes(s[..|s| - 1]) else s
  }

  /** The head of `os.path.split(p)`: everything before the last `/`, its trailing slashes
      dropped unless it is made of slashes only. */
  function DirName(p: string): (r: string)
    ensures |r| <= TailStart(p) && r == p[..|r|]
    ensures r == [] || r[|r| - 1] != '/' || AllSlashes(p[..TailStart(p)])
  {
    var head := p[..TailStart(p)];
    if head != [] && !AllSlashes(head) then RStripSlashes(head) else head
  }

  /** The tail of `os.path.split(p)`. */
  function BaseName(p: string): (r: string)
    ensures '/' !in r
  {
    p[TailStart(p)..]
  }

  /** `os.path.join(a, b)`: an absolute `b` replaces `a`; otherwise one `/` between them. */
  function PathJoin(a: string, b: string): (r: string)
    ensures |b| <= |r| && r[|r| - |b|..] == b
    ensures !StartsWith(b, "/") ==> StartsWith(r, a)
  {
    if StartsWith(b, "/") then b
    else if a == [] || a[|a| - 1] == '/' then a + b
    else a + "/" + b
  }

  /** A file name without directory or extension. */
  type Stem = s: string | '.' !in s && '/' !in s

  /** `file_name.split(".")[0]`: the base name up to its first `.`, or all of it. */
  function FileName(path: string): (r: Stem)
    ensures |r| <= |BaseName(path)| && r == BaseName(path)[..|r|]
    ensures |r| == |BaseName(path)| || BaseName(path)[|r|] == '.'
  {
    var b := BaseName(path);
    var parts := Split(b, ".");
    SplitPartsFree(b, '.');
    SplitParts(b, ".", 0);
    IndexOfMeaning(b, ".", 0);
    assert IndexOf(b, ".", 0).Some? ==> b[IndexOf(b, ".", 0).value..][..1] == ".";
    parts[0]
  }

  /** A part of a split is a slice of the split string. */
  lemma {:induction false} SplitParts(s: string, sep: string, k: nat)
    requires |sep| > 0 && k < |Split(s, sep)|
    ensures forall c :: c in Split(s, sep)[k] ==> c in s
    decreases |s|
  {
    IndexOfMeaning(s, sep, 0);
    match IndexOf(s, sep, 0)
    case None =>
    case Some(i) =>
      if k > 0 {
        SplitParts(s[i + |sep|..], sep, k - 1);
      }
  }

  /** A file name with an extension is never an absolute path. */
  lemma NotAbsolute(s: Stem)
    ensures !StartsWith(s + ".html", "/")
  {
    var x := s + ".html";
    assert x[..1] == [x[0]];
    if |s| > 0 {
      assert x[0] == s[0] && s[0] in s;
    } else {
      assert x == ".html";
    }
  }

  /** `file_dir.split("..")[1]`: the text between the first `..` of the directory and the next
      `..`, or the end. */
  function ProdDir(fileDir: string): (r: string)
    requires |Split(fileDir, "..")| >= 2
    ensures forall j :: 0 <= j < |r| ==> !OccursAt(r, "..", j)
    ensures StartsWith(fileDir, Split(fileDir, "..")[0] + ".." + r)
    ensures |Split(fileDir, "..")[0]| + 2 + |r| == |fileDir|
      || OccursAt(fileDir, "..", |Split(fileDir, "..")[0]| + 2 + |r|)
  {
    SecondPart(fileDir, "..", Split(fileDir, "..")[0], Split(fileDir, "..")[1]);
    Split(fileDir, "..")[1]
  }

  /** A directory given relative to the parent of the working directory is served from the
      root: `../journal/2020` gives `/journal/2020`. */
  lemma ProdDirUp(rest: string)
    requires forall j :: 0 <= j < |rest| ==> !OccursAt(rest, "..", j)
    ensures |Split("../" + rest, "..")| >= 2 && ProdDir("../" + rest) == "/" + rest
  {
    var s := "../" + rest;
    assert s[0..2] == "..";
    assert OccursAt(s, "..", 0);
    IndexOfIs(s, "..", 0, 0);
    assert s[2..] == "/" + rest;
    var t := "/" + rest;
    forall j | 0 <= j < |t| ensures !OccursAt(t, "..", j) {
      if OccursAt(t, "..", j) {
        assert t[j..j + 2][0] == t[j];
        if j > 0 {
          assert t[j..j + 2] == rest[j - 1..j + 1];
          assert OccursAt(rest, "..", j - 1);
        }
      }
    }
    IndexOfMeaning(t, "..", 0);
  }

  // ---------------------------------------------------------------------------------------
  // Feature switches
  // ---------------------------------------------------------------------------------------

  /** The document's features: a copy of the defaults in which every space-separated name of
      `opt_out` is switched off; the defaults themselves are a value and stay as they were. */
  method OptOutFeatures(features: map<string, bool>, optOut: Option<string>) returns (docFeatures: map<string, bool>)
    ensures optOut.None? || optOut.value == "" ==> docFeatures == features
    ensures optOut.Some? && optOut.value != "" ==>
      var names := Split(optOut.value, " ");
      && (forall k :: k in docFeatures <==> k in features || k in names)
      && (forall k :: k in names ==> docFeatures[k] == false)
      && (forall k :: k in features && k !in names ==> docFeatures[k] == features[k])
  {
    docFeatures := features;
    if optOut.Some? && optOut.value != "" {
      var names := Split(optOut.value, " ");
      for j := 0 to |names|
        invariant forall k :: k in docFeatures <==> k in features || k in names[..j]
        invariant forall k :: k in names[..j] ==> docFeatures[k] == false
        invariant forall k :: k in features && k !in names[..j] ==> docFeatures[k] == features[k]
      {
        assert names[..j + 1] == names[..j] + [names[j]];
        docFeatures := docFeatures[names[j] := false];
      }
      assert names[..|names|] == names;
    }
  }

  // ---------------------------------------------------------------------------------------
  // Documents
  // ---------------------------------------------------------------------------------------

  /** One entry of a document's related topics. */
  datatype Topic = Topic(matchIndex: nat, title: string, href: string)

  /** `Document`: a parsed journal file and what the compiler learns about it. */
  class Document {
    const prodDir: string
    const fileDir: string
    const fileName: Stem
    const content: Article
    const features: map<string, bool>
    const contentKeywords: seq<string>
    var recommendedKeywords: seq<(string, nat)>
    var relatedTopics: seq<Topic>

    constructor(path: string, defaults: map<string, bool>, content: Article)
      requires |Split(DirName(path), "..")| >= 2
      ensures fileDir == DirName(path) && prodDir == ProdDir(DirName(path)) && fileName == FileName(path)
      ensures this.content == content && contentKeywords == Split(content.meta.keywords, " ")
      ensures content.meta.optOut.None? || content.meta.optOut.value == "" ==> features == defaults
      ensures content.meta.optOut.Some? && content.meta.optOut.value != "" ==>
        var names := Split(content.meta.optOut.value, " ");
        && (forall k :: k in features <==> k in defaults || k in names)
        && (forall k :: k in names ==> features[k] == false)
        && (forall k :: k in defaults && k !in names ==> features[k] == defaults[k])
      ensures recommendedKeywords == [] && relatedTopics == []
    {
      var docFeatures := OptOutFeatures(defaults, content.meta.optOut);
      prodDir := ProdDir(DirName(path));
      fileDir := DirName(path);
      fileName := FileName(path);
      this.content := content;
      features := docFeatures;
      recommendedKeywords := [];
      relatedTopics := [];
      contentKeywords := Split(content.meta.keywords, " ");
    }

    /** `file_path`: the HTML file written next to the journal file. */
    function FilePath(): (r: string)
      ensures fileDir != [] && fileDir[|fileDir| - 1] != '/' ==> r == fileDir + "/" + fileName + ".html"
      ensures fileDir == [] || fileDir[|fileDir| - 1] == '/' ==> r == fileDir + fileName + ".html"
    {
      NotAbsolute(fileName);
      PathJoin(fileDir, fileName + ".html")
    }

    /** `href`: where the HTML file is served. */
    function Href(): (r: string)
      ensures prodDir != [] && prodDir[|prodDir| - 1] != '/' ==> r == prodDir + "/" + fileName + ".html"
      ensures prodDir == [] || prodDir[|prodDir| - 1] == '/' ==> r == prodDir + fileName + ".html"
    {
      NotAbsolute(fileName);
      PathJoin(prodDir, fileName + ".html")
    }

    /** `keywords_match_index`: how many distinct keywords the two documents have together. */
    function KeywordsMatchIndex(other: Document): (n: nat)
      ensures n <= |contentKeywords| + |other.contentKeywords|
    {
      ToSetSize(contentKeywords + other.contentKeywords);
      |ToSet(contentKeywords + other.contentKeywords)|
    }

    /** `r_keywords_flat`: the recommended keywords, most common first. */
    function RKeywordsFlat(): (r: seq<string>)
      reads this`recommendedKeywords
      ensures |r| == |recommendedKeywords|
      ensures forall i :: 0 <= i < |r| ==> r[i] == recommendedKeywords[i].0
    {
      Dicts.Keys(recommendedKeywords)
    }

    /** `r_keywords_uncommon`: the recommended keywords counted fewer than five times. */
    function RKeywordsUncommon(): (r: seq<string>)
      reads this`recommendedKeywords
      ensures |r| == 0 <==> forall i :: 0 <= i < |recommendedKeywords| ==> recommendedKeywords[i].1 >= 5
    {
      Uncommon(recommendedKeywords)
    }

    /** `is_valid_as_related_topic`: the document's keywords are, in order, those recommended for
        it, and every recommended one is common enough. */
    predicate IsValidAsRelatedTopic()
      reads this`recommendedKeywords
    {
      contentKeywords == RKeywordsFlat() && |RKeywordsUncommon()| == 0
    }

    /** `content_text`: the title, then each chapter's topic and its text paragraphs. */
    method ContentText() returns (s: string)
      requires forall i :: 0 <= i < |content.items| ==> content.items[i].paragraphs.Some?
      ensures s == Join([content.meta.title] + ChapterTexts(content.items), " ")
    {
      var sl := [content.meta.title];
      for i := 0 to |content.items|
        invariant sl == [content.meta.title] + ChapterTexts(content.items[..i])
      {
        var item := content.items[i];
        sl := sl + [item.topic];
        sl := sl + TextContents(item.paragraphs.value);
        assert content.items[..i + 1] == content.items[..i] + [item];
        ChapterTextsSnoc(content.items[..i], item);
      }
      assert content.items[..|content.items|] == content.items;
      s := Join(sl, " ");
    }
  }

  function Uncommon(rk: seq<(string, nat)>): (r: seq<string>)
    ensures |r| == 0 <==> forall i :: 0 <= i < |rk| ==> rk[i].1 >= 5
    ensures forall w :: w in r <==> exists i :: 0 <= i < |rk| && rk[i].0 == w && rk[i].1 < 5
  {
    if |rk| == 0 then []
    else
      var rest := Uncommon(rk[1..]);
      assert forall i :: 0 < i < |rk| ==> rk[i] == rk[1..][i - 1];
      (if rk[0].1 < 5 then [rk[0].0] else []) + rest
  }

  /** The contents of the text paragraphs, in order. */
  function TextContents(ps: seq<Paragraph>): (r: seq<string>)
    ensures forall s :: s in r <==> exists j :: 0 <= j < |ps| && ps[j].kind == "text" && ps[j].content == s
  {
    if |ps| == 0 then []
    else
      var rest := TextContents(ps[1..]);
      assert forall j :: 0 < j < |ps| ==> ps[j] == ps[1..][j - 1];
      (if ps[0].kind == "text" then [ps[0].content] else []) + rest
  }

  function ChapterTexts(items: seq<Chapter>): seq<string>
    requires forall i :: 0 <= i < |items| ==> items[i].paragraphs.Some?
  {
    if |items| == 0 then []
    else [items[0].topic] + TextContents(items[0].paragraphs.value) + ChapterTexts(items[1..])
  }

  lemma {:induction false} ChapterTextsSnoc(items: seq<Chapter>, c: Chapter)
    requires forall i :: 0 <= i < |items| ==> items[i].paragraphs.Some?
    requires c.paragraphs.Some?
    ensures ChapterTexts(items + [c]) == ChapterTexts(items) + [c.topic] + TextContents(c.paragraphs.value)
  {
    if |items| > 0 {
      assert (items + [c])[1..] == items[1..] + [c];
      ChapterTextsSnoc(items[1..], c);
    } else {
      assert ChapterTexts([c]) == [c.topic] + TextContents(c.paragraphs.value) + ChapterTexts([]);
    }
  }

  /** The text of a document holds every chapter topic and every text paragraph and nothing
      else; code paragraphs never contribute. */
  lemma {:induction false} ChapterTextsMeaning(items: seq<Chapter>, s: string)
    requires forall i :: 0 <= i < |items| ==> items[i].paragraphs.Some?
    ensures s in ChapterTexts(items) <==>
      exists i :: 0 <= i < |items| && (s == items[i].topic || s in TextContents(items[i].paragraphs.value))
  {
    if |items| > 0 {
      ChapterTextsMeaning(items[1..], s);
      assert forall i :: 0 < i < |items| ==> items[i] == items[1..][i - 1];
      if s in ChapterTexts(items[1..]) {
        var i :| 0 <= i < |items[1..]| && (s == items[1..][i].topic || s in TextContents(items[1..][i].paragraphs.value));
        assert items[i + 1] == items[1..][i];
      }
    }
  }

  // ---------------------------------------------------------------------------------------
  // Related topics
  // ---------------------------------------------------------------------------------------

  /** The match index counts the union of the two keyword sets, so it does not depend on which
      document asks. */
  lemma MatchIndexSymmetric(a: Document, b: Document)
    ensures a.KeywordsMatchIndex(b) == b.KeywordsMatchIndex(a)
  {
    assert ToSet(a.contentKeywords + b.contentKeywords) == ToSet(b.contentKeywords + a.contentKeywords);
  }

  /** For two documents with five distinct keywords each, the index is ten less the keywords
      they share: it is at most 8 exactly when they share two or more. */
  lemma MatchIndexShared(a: Document, b: Document)
    requires |a.contentKeywords| == 5 && |ToSet(a.contentKeywords)| == 5
    requires |b.contentKeywords| == 5 && |ToSet(b.contentKeywords)| == 5
    ensures a.KeywordsMatchIndex(b) == 10 - |ToSet(a.contentKeywords) * ToSet(b.contentKeywords)|
    ensures a.KeywordsMatchIndex(b) <= 8 <==> |ToSet(a.contentKeywords) * ToSet(b.contentKeywords)| >= 2
  {
    var sa, sb := ToSet(a.contentKeywords), ToSet(b.contentKeywords);
    assert ToSet(a.contentKeywords + b.contentKeywords) == sa + sb;
  }

  /** `documents_valid_as_related`: the valid documents, in order. */
  function ValidAsRelated(docs: seq<Document>): (r: seq<Document>)
    reads (set d | d in docs)`recommendedKeywords
    ensures |r| <= |docs|
    ensures forall i :: 0 <= i < |docs| ==> (docs[i] in r <==> docs[i].IsValidAsRelatedTopic())
    ensures forall j :: 0 <= j < |r| ==> r[j] in docs && r[j].IsValidAsRelatedTopic()
    ensures Distinct(docs) ==> Distinct(r)
    decreases |docs|
  {
    if |docs| == 0 then []
    else
      var rest := ValidAsRelated(docs[1..]);
      assert forall i :: 0 < i < |docs| ==> docs[i] == docs[1..][i - 1];
      (if docs[0].IsValidAsRelatedTopic() then [docs[0]] else []) + rest
  }

  /** The topic another document lends: its match index, title and address. */
  function TopicOf(d: Document, o: Document): Topic {
    Topic(d.KeywordsMatchIndex(o), o.content.meta.title, o.Href())
  }

  /** What the inner loop appends: a topic for every other document with index at most 8, in
      the order of `others`. */
  function Candidates(d: Document, others: seq<Document>): (r: seq<Topic>)
    ensures |r| <= |others|
    decreases |others|
  {
    if |others| == 0 then []
    else
      var o := others[|others| - 1];
      Candidates(d, others[..|others| - 1]) + (if o == d || d.KeywordsMatchIndex(o) > 8 then [] else [TopicOf(d, o)])
  }

  /** The inner loop's step: one more document appends at most its own topic. */
  lemma CandidatesSnoc(d: Document, init: seq<Document>, o: Document)
    ensures Candidates(d, init + [o]) ==
      Candidates(d, init) + (if o == d || d.KeywordsMatchIndex(o) > 8 then [] else [TopicOf(d, o)])
  {
    assert (init + [o])[..|init|] == init;
  }

  /** Every candidate comes from another document with index at most 8. */
  lemma {:induction false} CandidatesSound(d: Document, others: seq<Document>, t: Topic)
    requires t in Candidates(d, others)
    ensures exists o :: o in others && o != d && d.KeywordsMatchIndex(o) <= 8 && t == TopicOf(d, o)
    decreases |others|
  {
    var init, o := others[..|others| - 1], others[|others| - 1];
    assert others == init + [o];
    CandidatesSnoc(d, init, o);
    if t in Candidates(d, init) {
      CandidatesSound(d, init, t);
      var w :| w in init && w != d && d.KeywordsMatchIndex(w) <= 8 && t == TopicOf(d, w);
      assert w in others;
    } else {
      assert o in others;
    }
  }

  /** Every other document with index at most 8 gives a candidate. */
  lemma {:induction false} CandidatesComplete(d: Document, others: seq<Document>, o: Document)
    requires o in others && o != d && d.KeywordsMatchIndex(o) <= 8
    ensures TopicOf(d, o) in Candidates(d, others)
    decreases |others|
  {
    var init, last := others[..|others| - 1], others[|others| - 1];
    assert others == init + [last];
    CandidatesSnoc(d, init, last);
    if o != last {
      assert o in init;
      CandidatesComplete(d, init, o);
    }
  }

  /** A document is never its own related topic: every candidate comes from another document
      with index at most 8, and every such document gives one. */
  lemma CandidatesMeaning(d: Document, others: seq<Document>, t: Topic)
    ensures t in Candidates(d, others) <==>
      exists o :: o in others && o != d && d.KeywordsMatchIndex(o) <= 8 && t == TopicOf(d, o)
  {
    if t in Candidates(d, others) {
      CandidatesSound(d, others, t);
    }
    if exists o :: o in others && o != d && d.KeywordsMatchIndex(o) <= 8 && t == TopicOf(d, o) {
      var o :| o in others && o != d && d.KeywordsMatchIndex(o) <= 8 && t == TopicOf(d, o);
      CandidatesComplete(d, others, o);
    }
  }

  /** Every candidate has match index at most 8. */
  lemma {:induction false} CandidatesBound(d: Document, others: seq<Document>)
    ensures forall k :: 0 <= k < |Candidates(d, others)| ==> Candidates(d, others)[k].matchIndex <= 8
    decreases |others|
  {
    if |others| > 0 {
      CandidatesBound(d, others[..|others| - 1]);
    }
  }

  // The stable sort of `sort(key=lambda t: t["match_index"])`.

  predicate SortedByMatch(ts: seq<Topic>) {
    forall i, j :: 0 <= i < j < |ts| ==> ts[i].matchIndex <= ts[j].matchIndex
  }

  /** Inserts `t` after every topic whose index is not greater than its own. */
  function Insert(t: Topic, ts: seq<Topic>): (r: seq<Topic>)
    ensures |r| == |ts| + 1
    ensures r[0] == if ts == [] || ts[0].matchIndex > t.matchIndex then t else ts[0]
  {
    if |ts| == 0 then [t]
    else if ts[0].matchIndex > t.matchIndex then [t] + ts
    else [ts[0]] + Insert(t, ts[1..])
  }

  /** Sorts by match index, keeping the order of topics with the same index. */
  function SortTopics(ts: seq<Topic>): (r: seq<Topic>)
    ensures |r| == |ts|
    decreases |ts|
  {
    if |ts| == 0 then [] else Insert(ts[|ts| - 1], SortTopics(ts[..|ts| - 1]))
  }

  /** The topics with index `k`, in order. */
  function WithIndex(ts: seq<Topic>, k: nat): seq<Topic> {
    if |ts| == 0 then [] else (if ts[0].matchIndex == k then [ts[0]] else []) + WithIndex(ts[1..], k)
  }

  lemma {:induction false} InsertSorted(t: Topic, ts: seq<Topic>)
    requires SortedByMatch(ts)
    ensures SortedByMatch(Insert(t, ts))
  {
    if |ts| > 0 && ts[0].matchIndex <= t.matchIndex {
      var rest := Insert(t, ts[1..]);
      InsertSorted(t, ts[1..]);
      var r := [ts[0]] + rest;
      assert r[0].matchIndex <= rest[0].matchIndex;
      forall i, j | 0 <= i < j < |r| ensures r[i].matchIndex <= r[j].matchIndex {
        if i == 0 && j > 1 {
          assert rest[0].matchIndex <= rest[j - 1].matchIndex;
        }
      }
    }
  }

  lemma {:induction false} InsertPermutes(t: Topic, ts: seq<Topic>)
    ensures multiset(Insert(t, ts)) == multiset(ts) + multiset{t}
  {
    if |ts| > 0 && ts[0].matchIndex <= t.matchIndex {
      InsertPermutes(t, ts[1..]);
      assert ts == [ts[0]] + ts[1..];
    }
  }

  lemma {:induction false} InsertStable(t: Topic, ts: seq<Topic>, k: nat)
    requires SortedByMatch(ts)
    ensures WithIndex(Insert(t, ts), k) == WithIndex(ts, k) + (if t.matchIndex == k then [t] else [])
  {
    if |ts| == 0 {
      assert WithIndex([t], k) == (if t.matchIndex == k then [t] else []) + WithIndex([], k);
    } else if ts[0].matchIndex > t.matchIndex {
      assert ([t] + ts)[1..] == ts;
      if t.matchIndex == k {
        NoneWithIndex(ts, k);
      }
    } else {
      InsertStable(t, ts[1..], k);
      assert ([ts[0]] + Insert(t, ts[1..]))[1..] == Insert(t, ts[1..]);
    }
  }

  lemma {:induction false} NoneWithIndex(ts: seq<Topic>, k: nat)
    requires SortedByMatch(ts) && |ts| > 0 && ts[0].matchIndex > k
    ensures WithIndex(ts, k) == []
  {
    if |ts| > 1 {
      assert ts[1].matchIndex >= ts[0].matchIndex;
      NoneWithIndex(ts[1..], k);
    }
  }

  lemma {:induction false} WithIndexSnoc(ts: seq<Topic>, t: Topic, k: nat)
    ensures WithIndex(ts + [t], k) == WithIndex(ts, k) + (if t.matchIndex == k then [t] else [])
  {
    if |ts| > 0 {
      assert (ts + [t])[1..] == ts[1..] + [t];
      WithIndexSnoc(ts[1..], t, k);
    } else {
      assert WithIndex([t], k) == (if t.matchIndex == k then [t] else []) + WithIndex([], k);
    }
  }

  /** The sort is sorted by match index and a permutation. */
  lemma {:induction false} SortTopicsSorted(ts: seq<Topic>)
    ensures SortedByMatch(SortTopics(ts))
    decreases |ts|
  {
    if |ts| > 0 {
      var init, t := ts[..|ts| - 1], ts[|ts| - 1];
      SortTopicsSorted(init);
      InsertSorted(t, SortTopics(init));
    }
  }

  /** The sort keeps every topic, as many times as it was given. */
  lemma {:induction false} SortTopicsPermutes(ts: seq<Topic>)
    ensures multiset(SortTopics(ts)) == multiset(ts)
    decreases |ts|
  {
    if |ts| > 0 {
      var init, t := ts[..|ts| - 1], ts[|ts| - 1];
      assert multiset(ts) == multiset(init) + multiset{t} by {
        assert ts == init + [t];
      }
      assert SortTopics(ts) == Insert(t, SortTopics(init));
      SortTopicsPermutes(init);
      InsertPermutes(t, SortTopics(init));
    }
  }

  /** The sort is stable: the topics of any one index keep the order they were appended in. */
  lemma {:induction false} SortTopicsStable(ts: seq<Topic>, k: nat)
    ensures WithIndex(SortTopics(ts), k) == WithIndex(ts, k)
    decreases |ts|
  {
    if |ts| > 0 {
      var init, t := ts[..|ts| - 1], ts[|ts| - 1];
      SortTopicsStable(init, k);
      SortTopicsSorted(init);
      InsertStable(t, SortTopics(init), k);
      assert ts == init + [t];
      WithIndexSnoc(init, t, k);
    }
  }

  predicate Distinct(docs: seq<Document>) {
    forall i, j :: 0 <= i < j < |docs| ==> docs[i] != docs[j]
  }

  /** The inner loop of `set_related_topics`: appends a topic for every other document of
      `others` whose match index is at most 8. */
  method AppendTopics(document: Document, others: seq<Document>, rts: seq<Topic>) returns (r: seq<Topic>)
    ensures r == rts + Candidates(document, others)
  {
    r := rts;
    for m := 0 to |others|
      invariant r == rts + Candidates(document, others[..m])
    {
      assert others[..m + 1][..m] == others[..m];
      var otherDoc := others[m];
      if otherDoc == document {
        continue;
      }
      var mi := document.KeywordsMatchIndex(otherDoc);
      if mi <= 8 {
        r := r + [Topic(mi, otherDoc.content.meta.title, otherDoc.Href())];
      }
    }
    assert others[..|others|] == others;
  }

  /** The list a valid document ends with: what it held and the topics the other valid
      documents lend it, sorted by match index. */
  function Related(d: Document, held: seq<Topic>, valid: seq<Document>): seq<Topic> {
    SortTopics(held + Candidates(d, valid))
  }

  /** The body of the outer loop of `set_related_topics` for one valid document: appends the
      topics the other valid documents lend it, then sorts its list. The inner loop lists the
      valid documents afresh; that list is `valid`, since relating documents changes no
      document's recommended keywords. */
  method RelateDocument(document: Document, valid: seq<Document>)
    modifies document`relatedTopics
    ensures document.relatedTopics == Related(document, old(document.relatedTopics), valid)
  {
    var rts := AppendTopics(document, valid, document.relatedTopics);
    document.relatedTopics := SortTopics(rts);
  }

  /** The outer loop of `set_related_topics` over the documents valid as related: each is
      related in turn, and every other document is left alone. */
  method RelateValid(docs: seq<Document>, valid: seq<Document>)
    requires Distinct(valid) && forall k :: 0 <= k < |valid| ==> valid[k] in docs
    modifies (set d | d in docs)`relatedTopics
    ensures forall k :: 0 <= k < |valid| ==>
      valid[k].relatedTopics == Related(valid[k], old(valid[k].relatedTopics), valid)
    ensures forall i :: 0 <= i < |docs| && docs[i] !in valid ==>
      docs[i].relatedTopics == old(docs[i].relatedTopics)
  {
    for n := 0 to |valid|
      invariant forall k :: 0 <= k < n ==>
        valid[k].relatedTopics == Related(valid[k], old(valid[k].relatedTopics), valid)
      invariant forall k :: n <= k < |valid| ==> valid[k].relatedTopics == old(valid[k].relatedTopics)
      invariant forall i :: 0 <= i < |docs| && docs[i] !in valid ==>
        docs[i].relatedTopics == old(docs[i].relatedTopics)
    {
      assert forall k :: 0 <= k < |valid| && k != n ==> valid[k] != valid[n];
      RelateDocument(valid[n], valid);
    }
  }

  /** `set_related_topics`: every valid document gets a topic from each other valid document
      whose match index is at most 8, appended to what it held, then sorted by index; the other
      documents keep theirs. */
  method SetRelatedTopics(docs: seq<Document>)
    requires Distinct(docs)
    modifies (set d | d in docs)`relatedTopics
    ensures forall i :: 0 <= i < |docs| ==>
      docs[i].relatedTopics ==
        if docs[i].IsValidAsRelatedTopic()
        then SortTopics(old(docs[i].relatedTopics) + Candidates(docs[i], ValidAsRelated(docs)))
        else old(docs[i].relatedTopics)
  {
    var valid := ValidAsRelated(docs);
    RelateValid(docs, valid);
    forall i | 0 <= i < |docs| && docs[i].IsValidAsRelatedTopic()
      ensures docs[i].relatedTopics == SortTopics(old(docs[i].relatedTopics) + Candidates(docs[i], valid))
    {
      var k :| 0 <= k < |valid| && valid[k] == docs[i];
    }
  }

  /** Every related-topics list that `SetRelatedTopics` computes is sorted by match index, holds
      the old topics and the candidates, and lends no document to itself: each new topic comes
      from another valid document with index at most 8. */
  lemma RelatedTopicsSorted(d: Document, held: seq<Topic>, valid: seq<Document>)
    ensures SortedByMatch(SortTopics(held + Candidates(d, valid)))
    ensures multiset(SortTopics(held + Candidates(d, valid))) == multiset(held) + multiset(Candidates(d, valid))
    ensures forall t :: t in SortTopics(held + Candidates(d, valid)) ==>
      t in held || exists o :: o in valid && o != d && d.KeywordsMatchIndex(o) <= 8 && t == TopicOf(d, o)
  {
    var all := held + Candidates(d, valid);
    SortTopicsSorted(all);
    SortTopicsPermutes(all);
    forall t | t in SortTopics(all)
      ensures t in held || exists o :: o in valid && o != d && d.KeywordsMatchIndex(o) <= 8 && t == TopicOf(d, o)
    {
      assert t in multiset(SortTopics(all));
      assert t in multiset(held) || t in multiset(Candidates(d, valid));
      CandidatesMeaning(d, valid, t);
    }
  }
}
