/** `ParseComponent` and `parse`: every component is tokenized and validated by the routine its
    header names, and the document is assembled from the results, in order. `parse` is a
    generator; here it returns the sequence of what it yields, each either an error string or
    the finished `Article`. */
module Parser {
  import opened Wrappers
  import opened Strings
  import opened Dicts
  import opened Values
  import opened ErrorMessages
  import opened Body
  import opened Schema
  import opened Chunker

  const ErrMeta := "Error in /meta properties"
  const ErrIntroduction := "Error in /introduction"
  const ErrChapter := "Error in /chapter"
  const MsgFirstComponent := "Error: First component expected to be /meta component"
  const MsgSecondComponent := "Error: Second component expected to be /introduction component"

  function TokenizerMissing(id: string): string {
    "Error: Tokenizer for \"" + id + "\" not implemented"
  }

  function ParserMissing(id: string): string {
    "Error: Parser for \"" + id + "\" not implemented"
  }

  /** A validated component. */
  datatype Component = MetaPart(meta: Meta) | IntroPart(intro: Introduction) | ChapterPart(chapter: Chapter)

  // ---------------------------------------------------------------------------------------
  // `ParseComponent`
  // ---------------------------------------------------------------------------------------

  /** `parse_component_meta`: the message never shows the offending value. */
  function ParseComponentMeta(t: Tokens): Result<Meta, string> {
    match MetaOf(t)
    case Success(m) => Success(m)
    case Failure(e) => Failure(DefaultErrMsg(e, ErrMeta, None))
  }

  /** `parse_component_introduction`, in the appendix variant the tokens select. */
  function ParseComponentIntroduction(fs: FileSystem, t: Tokens): Result<Introduction, string> {
    match IntroductionOf(fs, t)
    case Success(i) => Success(i)
    case Failure(e) => Failure(DefaultErrMsg(e, ErrIntroduction, Some(t)))
  }

  /** `parse_component_chapter`, in the appendix, gallery and picture variants the tokens
      select. */
  function ParseComponentChapter(fs: FileSystem, t: Tokens): Result<Chapter, string> {
    match ChapterOf(fs, t)
    case Success(c) => Success(c)
    case Failure(e) => Failure(DefaultErrMsg(e, ErrChapter, Some(t)))
  }

  /** A meta message names the field but never its value. */
  lemma ParseMetaMessage(t: Tokens)
    ensures ParseComponentMeta(t).Failure? <==> MetaOf(t).Failure?
    ensures MetaOf(t).Failure? ==>
      ParseComponentMeta(t).error == ErrMsg(ErrMeta, MetaOf(t).error.msg, Target(MetaOf(t).error.loc))
  {
  }

  /** Meta tokens without an author: `Error in /meta properties: field required: "author"`. */
  lemma ParseMetaMissingAuthor(t: Tokens)
    requires !HasKey(t, "author")
    ensures ParseComponentMeta(t) == Failure("Error in /meta properties: field required: \"author\"")
  {
    var e := FieldError([Field("author")], MsgRequired);
    MetaMissingAuthor(t);
    assert ParseComponentMeta(t) == Failure(DefaultErrMsg(e, ErrMeta, None));
    AuthorTarget();
    assert DefaultErrMsg(e, ErrMeta, None) == ErrMsg(ErrMeta, MsgRequired, "author");
    MetaAuthorText();
  }

  /** Chapter tokens without an author: `Error in /chapter: field required: "author"`, the
      missing value not shown. */
  lemma ParseChapterMissingAuthor(fs: FileSystem, t: Tokens)
    requires !HasKey(t, "author")
    ensures ParseComponentChapter(fs, t) == Failure("Error in /chapter: field required: \"author\"")
  {
    var e := FieldError([Field("author")], MsgRequired);
    ChapterMissingAuthor(fs, t);
    assert ParseComponentChapter(fs, t) == Failure(DefaultErrMsg(e, ErrChapter, Some(t)));
    if |t| > 0 {
      DefaultErrMsgMissing(e, ErrChapter, t);
    }
    AuthorTarget();
    assert DefaultErrMsg(e, ErrChapter, Some(t)) == ErrMsg(ErrChapter, MsgRequired, "author");
    ChapterAuthorText();
  }

  lemma MetaAuthorText()
    ensures ErrMsg(ErrMeta, MsgRequired, "author") == "Error in /meta properties: field required: \"author\""
  {
  }

  lemma ChapterAuthorText()
    ensures ErrMsg(ErrChapter, MsgRequired, "author") == "Error in /chapter: field required: \"author\""
  {
  }

  lemma AuthorTarget()
    ensures Target([Field("author")]) == "author"
  {
    ReplaceCharAbsent("author", '_', '-');
    assert LocNames([Field("author")]) == ["author"];
  }

  // ---------------------------------------------------------------------------------------
  // Dispatch by header
  // ---------------------------------------------------------------------------------------

  /** `comp[0].strip()`, the key of both input maps. */
  function ComponentId(comp: seq<string>): string
    requires |comp| > 0
  {
    Strip(comp[0])
  }

  /** `tokenize.input_map[comp_id](comp)`, or the error of an unknown header. */
  function Tokenize(comp: seq<string>): Result<Tokens, string>
    requires |comp| > 0
  {
    var id := ComponentId(comp);
    if id == "/meta" then MetaTokens(comp)
    else if id == "/introduction" then IntroductionTokens(comp)
    else if id == "/chapter" then ChapterTokens(comp)
    else Failure(TokenizerMissing(id))
  }

  /** `parse.input_map[comp_id](tokens)`, or the error of an unknown header. */
  function ParseTokens(fs: FileSystem, id: string, t: Tokens): Result<Component, string> {
    if id == "/meta" then
      match ParseComponentMeta(t)
      case Success(m) => Success(MetaPart(m))
      case Failure(e) => Failure(e)
    else if id == "/introduction" then
      match ParseComponentIntroduction(fs, t)
      case Success(i) => Success(IntroPart(i))
      case Failure(e) => Failure(e)
    else if id == "/chapter" then
      match ParseComponentChapter(fs, t)
      case Success(c) => Success(ChapterPart(c))
      case Failure(e) => Failure(e)
    else Failure(ParserMissing(id))
  }

  /** What one component contributes: a validated component or the error that skips it. */
  function Outcome(fs: FileSystem, comp: seq<string>): Result<Component, string>
    requires |comp| > 0
  {
    match Tokenize(comp)
    case Failure(e) => Failure(e)
    case Success(t) => ParseTokens(fs, ComponentId(comp), t)
  }

  /** An unknown header is reported by the tokenizer lookup, which comes first. */
  lemma UnknownHeader(fs: FileSystem, comp: seq<string>)
    requires |comp| > 0
    requires ComponentId(comp) != "/meta" && ComponentId(comp) != "/introduction" && ComponentId(comp) != "/chapter"
    ensures Outcome(fs, comp) == Failure(TokenizerMissing(ComponentId(comp)))
  {
  }

  // ---------------------------------------------------------------------------------------
  // Assembly
  // ---------------------------------------------------------------------------------------

  /** One step of the loop: the component's header and outcome. */
  type Step = (string, Result<Component, string>)

  /** `result` and what was yielded so far; `meta` and `introduction` are the keys of `result`
      besides `items`. */
  datatype State = State(out: seq<Result<Article, string>>, meta: Option<Meta>,
                         intro: Option<Introduction>, items: seq<Chapter>)

  /** The ordering check of the `i`-th component; it does not stop the component's processing. */
  function OrderError(i: nat, id: string): Option<string> {
    if i == 0 && id != "/meta" then Some(MsgFirstComponent)
    else if i == 1 && id != "/introduction" then Some(MsgSecondComponent)
    else None
  }

  function OrderOut(i: nat, id: string): seq<Result<Article, string>> {
    match OrderError(i, id)
    case Some(m) => [Failure(m)]
    case None => []
  }

  /** The body of the loop for the `i`-th component. */
  function Advance(st: State, i: nat, s: Step): State {
    var out := st.out + OrderOut(i, s.0);
    match s.1
    case Failure(e) => st.(out := out + [Failure(e)])
    case Success(MetaPart(m)) => st.(out := out, meta := Some(m))
    case Success(IntroPart(n)) => st.(out := out, intro := Some(n))
    case Success(ChapterPart(c)) => st.(out := out, items := st.items + [c])
  }

  /** The state after the loop has run over `steps`. */
  function Assemble(steps: seq<Step>): State
    decreases |steps|
  {
    if |steps| == 0 then State([], None, None, [])
    else Advance(Assemble(steps[..|steps| - 1]), |steps| - 1, steps[|steps| - 1])
  }

  /** The final check: an `Article` when the items are all components but two and both the
      meta and the introduction were stored. */
  function Finish(st: State, count: nat): seq<Result<Article, string>> {
    if |st.items| == count - 2 && st.meta.Some? && st.intro.Some? then
      st.out + [Success(Article(st.meta.value, st.intro.value, st.items))]
    else st.out
  }

  predicate NonEmptyComponents(comps: seq<seq<string>>) {
    forall k :: 0 <= k < |comps| ==> |comps[k]| > 0
  }

  function Steps(fs: FileSystem, comps: seq<seq<string>>): (ss: seq<Step>)
    requires NonEmptyComponents(comps)
    ensures |ss| == |comps|
    ensures forall k :: 0 <= k < |comps| ==> ss[k] == (ComponentId(comps[k]), Outcome(fs, comps[k]))
  {
    seq(|comps|, k requires 0 <= k < |comps| => (ComponentId(comps[k]), Outcome(fs, comps[k])))
  }

  /** `list(parse(file))` for the components the iterator produced: an `Article` is yielded only
      last, and only when every component was tokenized and validated. */
  function Parse(fs: FileSystem, comps: seq<seq<string>>): (r: seq<Result<Article, string>>)
    requires NonEmptyComponents(comps)
    ensures forall k :: 0 <= k < |r| && r[k].Success? ==> k == |r| - 1
    ensures (exists k :: 0 <= k < |r| && r[k].Success?) ==>
      forall k :: 0 <= k < |comps| ==> Outcome(fs, comps[k]).Success?
  {
    Run(Steps(fs, comps))
  }

  /** The loop and the final check over the steps: only the last output can be an `Article`. */
  function Run(steps: seq<Step>): (r: seq<Result<Article, string>>)
    ensures forall k :: 0 <= k < |r| && r[k].Success? ==> k == |r| - 1
    ensures (exists k :: 0 <= k < |r| && r[k].Success?) ==> forall k :: 0 <= k < |steps| ==> steps[k].1.Success?
  {
    RunShape(steps, Finish(Assemble(steps), |steps|));
    Finish(Assemble(steps), |steps|)
  }

  /** `ArticleYielded` in the form the body of `Run` can use. */
  lemma RunShape(steps: seq<Step>, out: seq<Result<Article, string>>)
    requires out == Finish(Assemble(steps), |steps|)
    ensures forall k :: 0 <= k < |out| && out[k].Success? ==> k == |out| - 1
    ensures (exists k :: 0 <= k < |out| && out[k].Success?) ==> forall k :: 0 <= k < |steps| ==> steps[k].1.Success?
  {
    ArticleYielded(steps);
  }

  // Independent accounts of what the loop keeps, over the outcomes alone.

  function Chapters(steps: seq<Step>): seq<Chapter>
    decreases |steps|
  {
    if |steps| == 0 then []
    else
      var rest := Chapters(steps[..|steps| - 1]);
      match steps[|steps| - 1].1
      case Success(ChapterPart(c)) => rest + [c]
      case _ => rest
  }

  function LastMeta(steps: seq<Step>): Option<Meta>
    decreases |steps|
  {
    if |steps| == 0 then None
    else
      match steps[|steps| - 1].1
      case Success(MetaPart(m)) => Some(m)
      case _ => LastMeta(steps[..|steps| - 1])
  }

  function LastIntro(steps: seq<Step>): Option<Introduction>
    decreases |steps|
  {
    if |steps| == 0 then None
    else
      match steps[|steps| - 1].1
      case Success(IntroPart(n)) => Some(n)
      case _ => LastIntro(steps[..|steps| - 1])
  }

  predicate IsMeta(s: Step) {
    s.1.Success? && s.1.value.MetaPart?
  }

  predicate IsIntro(s: Step) {
    s.1.Success? && s.1.value.IntroPart?
  }

  /** How many of the steps satisfy the meta, the introduction or the error test. */
  function Metas(steps: seq<Step>): nat
    decreases |steps|
  {
    if |steps| == 0 then 0 else Metas(steps[..|steps| - 1]) + (if IsMeta(steps[|steps| - 1]) then 1 else 0)
  }

  function Intros(steps: seq<Step>): nat
    decreases |steps|
  {
    if |steps| == 0 then 0 else Intros(steps[..|steps| - 1]) + (if IsIntro(steps[|steps| - 1]) then 1 else 0)
  }

  function Errors(steps: seq<Step>): nat
    decreases |steps|
  {
    if |steps| == 0 then 0 else Errors(steps[..|steps| - 1]) + (if steps[|steps| - 1].1.Failure? then 1 else 0)
  }

  /** The loop keeps the chapters in order, the last meta and the last introduction, and yields
      nothing but errors; every step is a chapter, a meta, an introduction or an error. */
  lemma {:induction false} AssembleKeeps(steps: seq<Step>)
    ensures var st := Assemble(steps);
      && st.items == Chapters(steps)
      && st.meta == LastMeta(steps) && st.intro == LastIntro(steps)
      && (st.meta.Some? <==> Metas(steps) > 0)
      && (st.intro.Some? <==> Intros(steps) > 0)
      && |Chapters(steps)| + Metas(steps) + Intros(steps) + Errors(steps) == |steps|
      && forall k :: 0 <= k < |st.out| ==> st.out[k].Failure?
    decreases |steps|
  {
    if |steps| > 0 {
      AssembleKeeps(steps[..|steps| - 1]);
    }
  }

  /** No step failed exactly when the error count is zero. */
  lemma {:induction false} ErrorsZero(steps: seq<Step>)
    ensures Errors(steps) == 0 <==> forall k :: 0 <= k < |steps| ==> steps[k].1.Success?
    decreases |steps|
  {
    if |steps| > 0 {
      var init := steps[..|steps| - 1];
      ErrorsZero(init);
      assert forall k :: 0 <= k < |init| ==> init[k] == steps[k];
    }
  }

  /** An `Article` is yielded exactly when every component was tokenized and validated, one of
      them a meta and one an introduction. It is then the last thing yielded, holds the last
      meta, the last introduction and every chapter in document order, and everything yielded
      before it is an error. */
  lemma ArticleYielded(steps: seq<Step>)
    ensures var out := Finish(Assemble(steps), |steps|);
      && ((exists k :: 0 <= k < |out| && out[k].Success?) <==>
          (forall k :: 0 <= k < |steps| ==> steps[k].1.Success?) && Metas(steps) == 1 && Intros(steps) == 1)
      && forall k :: 0 <= k < |out| && out[k].Success? ==>
           k == |out| - 1 && LastMeta(steps).Some? && LastIntro(steps).Some?
           && out[k].value == Article(LastMeta(steps).value, LastIntro(steps).value, Chapters(steps))
  {
    AssembleKeeps(steps);
    ErrorsZero(steps);
    var st := Assemble(steps);
    var out := Finish(st, |steps|);
    if |st.items| == |steps| - 2 && st.meta.Some? && st.intro.Some? {
      assert out[|out| - 1].Success?;
    } else {
      assert out == st.out;
    }
  }

  /** What was yielded for the first `n` components is never taken back. */
  lemma {:induction false} AssemblePrefix(steps: seq<Step>, n: nat)
    requires n <= |steps|
    ensures Assemble(steps[..n]).out <= Assemble(steps).out
    decreases |steps| - n
  {
    if n < |steps| {
      var init := steps[..|steps| - 1];
      assert init[..n] == steps[..n];
      AssemblePrefix(init, n);
    } else {
      assert steps[..n] == steps;
    }
  }

  /** A document that does not open with `/meta` reports it first. */
  lemma FirstNotMeta(steps: seq<Step>)
    requires |steps| > 0 && steps[0].0 != "/meta"
    ensures var out := Finish(Assemble(steps), |steps|);
      |out| > 0 && out[0] == Failure(MsgFirstComponent)
  {
    AssemblePrefix(steps, 1);
    assert steps[..1][..0] == [];
  }

  /** A second component other than `/introduction` is reported right after what the first
      component yielded. */
  lemma SecondNotIntroduction(steps: seq<Step>)
    requires |steps| > 1 && steps[1].0 != "/introduction"
    ensures var out := Finish(Assemble(steps), |steps|);
      var before := Assemble(steps[..1]).out;
      |out| > |before| && out[|before|] == Failure(MsgSecondComponent)
  {
    var before := Assemble(steps[..1]).out;
    AssembleNext(steps, 1);
    SecondOrderError(Assemble(steps[..1]), steps[1]);
    var second := Assemble(steps[..2]).out;
    assert |second| > |before| && second[|before|] == Failure(MsgSecondComponent);
    AssemblePrefix(steps, 2);
    FinishKeeps(Assemble(steps), |steps|);
  }

  /** A second component other than `/introduction` adds the ordering error to the output. */
  lemma SecondOrderError(st: State, s: Step)
    requires s.0 != "/introduction"
    ensures |Advance(st, 1, s).out| > |st.out| && Advance(st, 1, s).out[|st.out|] == Failure(MsgSecondComponent)
  {
  }

  /** The final check only ever adds to what was yielded. */
  lemma FinishKeeps(st: State, count: nat)
    ensures st.out <= Finish(st, count)
  {
  }

  /** A component that fails is reported, with its own message, after what the components
      before it yielded; processing goes on with the next one. */
  lemma FailureReported(steps: seq<Step>, k: nat)
    requires k < |steps| && steps[k].1.Failure?
    ensures var out := Finish(Assemble(steps), |steps|);
      var before := Assemble(steps[..k]).out + OrderOut(k, steps[k].0);
      |out| > |before| && out[|before|] == Failure(steps[k].1.error)
  {
    AssemblePrefix(steps, k + 1);
    assert steps[..k + 1][..k] == steps[..k];
  }

  /** An unknown header yields `Error: Tokenizer for "<id>" not implemented`. */
  lemma UnknownHeaderReported(fs: FileSystem, comps: seq<seq<string>>, k: nat)
    requires NonEmptyComponents(comps) && k < |comps|
    requires ComponentId(comps[k]) != "/meta" && ComponentId(comps[k]) != "/introduction" && ComponentId(comps[k]) != "/chapter"
    ensures Failure(TokenizerMissing(ComponentId(comps[k]))) in Parse(fs, comps)
  {
    var steps := Steps(fs, comps);
    UnknownHeader(fs, comps[k]);
    FailureReported(steps, k);
  }

  // ---------------------------------------------------------------------------------------
  // The loop
  // ---------------------------------------------------------------------------------------

  /** The tokenizer lookup of `parse`. */
  method TokenizeComponent(comp: seq<string>) returns (r: Result<Tokens, string>)
    requires |comp| > 0
    ensures r == Tokenize(comp)
  {
    var id := Strip(comp[0]);
    if id == "/meta" {
      r := TokenizeComponentMeta(comp);
    } else if id == "/introduction" {
      r := TokenizeComponentIntroduction(comp);
    } else if id == "/chapter" {
      r := TokenizeComponentChapter(comp);
    } else {
      r := Failure(TokenizerMissing(id));
    }
  }

  /** One component through both lookups: its tokens, then its validated record; the first
      error skips the rest. */
  method ParseComponent(fs: FileSystem, comp: seq<string>) returns (r: Result<Component, string>)
    requires |comp| > 0
    ensures r == Outcome(fs, comp)
  {
    var tokens := TokenizeComponent(comp);
    if tokens.Failure? {
      return Failure(tokens.error);
    }
    r := ParseTokens(fs, Strip(comp[0]), tokens.value);
  }

  /** `parse` over the components of a document: dispatches each by header, stores the meta and
      the introduction, collects the chapters and yields every error and, under the counting
      condition, the article. */
  method ParseComponents(fs: FileSystem, comps: seq<seq<string>>) returns (out: seq<Result<Article, string>>)
    requires NonEmptyComponents(comps)
    ensures out == Parse(fs, comps)
  {
    ghost var steps := Steps(fs, comps);
    var meta: Option<Meta> := None;
    var intro: Option<Introduction> := None;
    var items: seq<Chapter> := [];
    var compCount := 0;
    out := [];
    for i := 0 to |comps|
      invariant compCount == i
      invariant State(out, meta, intro, items) == Assemble(steps[..i])
    {
      var comp := comps[i];
      compCount := compCount + 1;
      var id := Strip(comp[0]);
      var outcome := ParseComponent(fs, comp);
      AssembleNext(steps, i);
      out, meta, intro, items := AdvanceLocals(i, id, outcome, out, meta, intro, items);
    }
    assert steps[..|comps|] == steps;
    if |items| == compCount - 2 && meta.Some? && intro.Some? {
      out := out + [Success(Article(meta.value, intro.value, items))];
    }
  }

  /** One pass of the loop of `parse` on the loop's locals: the ordering check of the `i`-th
      component, then the storing of its outcome. */
  method AdvanceLocals(i: nat, id: string, outcome: Result<Component, string>,
                       out: seq<Result<Article, string>>, meta: Option<Meta>,
                       intro: Option<Introduction>, items: seq<Chapter>)
    returns (out': seq<Result<Article, string>>, meta': Option<Meta>,
             intro': Option<Introduction>, items': seq<Chapter>)
    ensures State(out', meta', intro', items') == Advance(State(out, meta, intro, items), i, (id, outcome))
  {
    out', meta', intro', items' := out, meta, intro, items;
    if i == 0 && id != "/meta" {
      out' := out' + [Failure(MsgFirstComponent)];
    } else if i == 1 && id != "/introduction" {
      out' := out' + [Failure(MsgSecondComponent)];
    }
    match outcome
    case Failure(e) => out' := out' + [Failure(e)];
    case Success(MetaPart(m)) => meta' := Some(m);
    case Success(IntroPart(n)) => intro' := Some(n);
    case Success(ChapterPart(c)) => items' := items' + [c];
  }

  /** One more step extends the assembly by one pass of the loop. */
  lemma AssembleNext(steps: seq<Step>, i: nat)
    requires i < |steps|
    ensures Assemble(steps[..i + 1]) == Advance(Assemble(steps[..i]), i, steps[i])
  {
    assert steps[..i + 1][..i] == steps[..i];
  }

  /** `parse(file)`, drained: chunks the file, then assembles the document. */
  method ParseFile(fs: FileSystem, file: LineFile) returns (out: seq<Result<Article, string>>)
    requires file.Valid()
    modifies file
    ensures ChunksNonEmpty(file.lines, old(file.pos))
    ensures out == Parse(fs, Chunks(file.lines, old(file.pos)))
  {
    var comps := ComponentIterator(file);
    ChunksShape(file.lines, old(file.pos));
    out := ParseComponents(fs, comps);
  }

  predicate ChunksNonEmpty(lines: seq<string>, pos: nat)
    requires pos <= |lines|
  {
    NonEmptyComponents(Chunks(lines, pos))
  }

}
