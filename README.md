# Journal compiler of text-cms, modelled in Dafny

text-cms turns `.journal` text files into static HTML pages. The core of the compiler reads a journal
file and produces either a validated `Article` record or one exact error message. It works in these
stages:

- A line cursor cuts the file into *components*. Each component starts at a `/`-header line
  (`/meta`, `/introduction`, `/chapter`), and a `---` draft marker ends the file early.
- Each component's `key: value` property block is tokenized into a map. The lines left over form its
  *tail*. A malformed tail is classified as exactly one error.
- Four property values have their own small grammars, which rewrite them into nested values:
  `appendix`, `picture`, `gallery` and `quote`.
- The body of a chapter is cut into text and code paragraphs. A code block is fenced by an opening
  line starting with `|code` and a closing line starting with `code|`. The body of an introduction becomes one
  content string.
- pydantic-style record schemas validate the tokens field by field, in declaration order. They report
  the first failure through `default_err_msg`.
- `parse` checks the order of the components and assembles the `Article`.

Above the parser sits the compiler's `Document`. It holds the opt-out feature switches, the file names
and the keyword match index. It also holds the related-topic lists that `set_related_topics` fills
and sorts.

The model follows the source's form:

- The file cursor is a class with a read position.
- The chunker, the property loop, the value-rewriting loop, the paragraph loop, `str_paragraphs` (on an
  array), the assembly loop of `parse`, the opt-out loop, `content_text` and the related-topic loops
  are methods with loops.
- Each of these methods is proved equal to a specification function.
- The properties of the sources are proved about those functions.
- The regular expressions of the source are modelled as functions that find the groups
  (first/last occurrence searches). Each one is proved equivalent to a declarative description of the
  strings the regex accepts and of the groups it returns, including greediness.

Modules: `Wrappers` (Option/Result), `Strings` (the Python `str` methods used), `Dicts` (insertion-ordered
dicts), `Values` (token values), `ErrorMessages`, `Chunker`, `Properties`, `InlineValues`, `Body`,
`Schema`, `Parser`, `Compile`.

Where the documentation of the system and the code differ, the model follows the code.

- The documentation says that a document whose second component is not `/introduction` never yields
  an `Article`. The code only yields an ordering error and goes on. An `Article` is then still yielded
  when a meta and an introduction were stored anywhere and all other components are valid chapters
  (`Parser.ArticleYielded`).

## Model

| member | source | states |
|---|---|---|
| Strings.RStripMeaning | src/journalparser.py:298 | `rstrip` keeps the longest prefix not ending in whitespace and drops only whitespace |
| Strings.LStripMeaning | src/journalparser.py:329 | `strip` (its left half) drops only leading whitespace |
| Strings.IndexOfMeaning | src/journalparser.py:311 | `find` returns the first occurrence at or after the start, and none only when there is none |
| Strings.Split | src/journalparser.py:49 | a split always has at least one part |
| Strings.SplitHead | src/compile.py:144 | the first part of `split(sep)` holds no separator, and it is the whole string or is followed by the separator and the split of the rest |
| Strings.SecondPart | src/compile.py:144 | the second part of `split(sep)` holds no separator, follows the first part and the separator, and ends at the end or at the next separator |
| Strings.JoinSplit | src/journalparser.py:49 | splitting on a separator and joining again gives the string back |
| Strings.SplitJoin | src/journalparser.py:49 | joining separator-free parts and splitting again gives the parts back |
| Strings.SplitPartsFree | src/model.py:202-203 | no part of a one-character split contains that character |
| Strings.ReplaceChar | src/journalparser.py:314 | `replace` of one character changes exactly the positions holding it |
| Dicts.Put | src/journalparser.py:121 | `d[k] = v` stores `v` under `k`, keeps every other key and value, and keeps keys distinct |
| Dicts.PutKeys | src/journalparser.py:121 | an existing key keeps its place in insertion order; a new key goes last |
| Dicts.UpdateMeaning | src/journalparser.py:160 | `{**d, **extra}` holds the keys of both, and the values of `extra` win |
| Dicts.UpdateDistinct | src/journalparser.py:168 | `{**d, **extra}` never holds a key twice |
| Values.LookupField | src/journalparser.py:452-453 | `reduce(getitem, [k], tokens)` is `tokens[k]` |
| ErrorMessages.Truncate | src/journalparser.py:483-484 | a short value is unchanged; a long one is its first `l` characters and `...` |
| ErrorMessages.ErrMsg | src/journalparser.py:435-441 | the message starts with the component and the message; the quoted target follows exactly when it is not empty |
| ErrorMessages.DefaultErrMsg | src/journalparser.py:416-428 | the message starts with the component and pydantic's message; without tokens, or with empty tokens, only the `->` path follows |
| ErrorMessages.TruncateIdempotent | src/journalparser.py:483-484 | truncating twice is truncating once |
| ErrorMessages.LocName | src/journalparser.py:473-474 | a location step, printed, holds no `_` |
| ErrorMessages.TargetHyphenated | src/journalparser.py:421 | the `->`-joined field path never holds `_` |
| ErrorMessages.DefaultErrMsgValue | src/journalparser.py:416-428 | with tokens holding the first key, the message is `cmp: msg: "path: value[:14]... (len=n)"` with the untruncated length; without tokens, only the path |
| ErrorMessages.DefaultErrMsgMissing | src/journalparser.py:423 | a first key the tokens lack shows no value |
| ErrorMessages.DateErrorExample | src/test_journal_parser.py:965-975 | the invalid-date message of the test, `date: 2020-24-31 (len=10)` |
| ErrorMessages.NestedErrorExample | src/test_journal_parser.py:1198-1216 | the nested gallery message of the test, `gallery->items->1: galler/raspize... (len=20)` |
| Chunker.LineFile.ReadLine | src/journalparser.py:389 | `readline` returns the next line and advances by one, or `""` at the end without moving |
| Chunker.LineFile.Seek | src/journalparser.py:400 | `seek` moves the position to the given line |
| Chunker.SeekableFileIterator.Next | src/journalparser.py:387-394 | `__next__` records the position of the line and returns it, or stops at the end |
| Chunker.SeekableFileIterator.Rewind | src/journalparser.py:399-400 | `rewind` moves back to the start of the last line read |
| Chunker.ChunkEnd | src/journalparser.py:256-261 | the first line from a position on that is a header or a draft marker, or the end |
| Chunker.ChunkAt | src/journalparser.py:245-263 | an empty chunk at the end or at a draft marker (which is consumed); otherwise the first line and all lines up to the next stopping line, which is left unread |
| Chunker.ChunkUntilNextComponent | src/journalparser.py:245-263 | the chunker method computes `ChunkAt` and leaves the cursor where `ChunkAt` says |
| Chunker.ComponentIterator | src/journalparser.py:266-267 | draining the iterator gives `Chunks`, stopping at the first empty chunk |
| Chunker.FirstDraft | src/journalparser.py:431-432 | the first draft marker from a position on, or the end |
| Chunker.ChunksPartition | src/journalparser.py:266-267 | the chunks concatenated are exactly the lines before the first draft marker |
| Chunker.ChunksShape | src/journalparser.py:245-267 | no chunk is empty or starts with a draft marker, only first lines may be headers, and every chunk after the first starts with a header |
| Chunker.HeaderOnlyComponents | src/test_journal_parser.py:254-265 | `["/meta\n", "/introduction"]` chunks into two header-only components |
| Properties.TokenizePropertyMeaning | src/journalparser.py:310-316 | `^(.+?): (.+?)$` matches exactly a newline-free line with a `": "` after a non-empty key and before a non-empty value; the key runs to the first such `": "` and has `-` turned into `_` |
| Properties.TokenizeProperty | src/journalparser.py:310-316 | a tokenized key is non-empty and holds no `-`; its value is non-empty and holds no newline |
| Properties.TokenizeRendered | src/journalparser.py:310-316 | `key: value` tokenizes back to the key (with `_`) and the value |
| Properties.FirstBlank | src/journalparser.py:292-296 | the first blank line, or the end |
| Properties.PropStep | src/journalparser.py:298-305 | one round keeps keys distinct and places the line in the map or the tail |
| Properties.PropsFold | src/journalparser.py:292-305 | the loop's map has distinct keys, and map plus tail count every line |
| Properties.TokenizeComponentProperties | src/journalparser.py:286-307 | the loop computes `ComponentProperties` |
| Properties.AddPropertyLine | src/journalparser.py:298-305 | the loop body is one `PropStep` |
| Properties.ComponentPropertiesAt | src/journalparser.py:294-296 | at the first blank line, that line and all later ones join the tail |
| Properties.PropStepKey | src/journalparser.py:301-302 | after a round a key is present when it was or the line defines it, and an earlier value is never overwritten |
| Properties.PropsFoldHasKey | src/journalparser.py:301-302 | a key is in the map exactly when some line before the first blank line defines it |
| Properties.PropsFoldFirstWins | src/journalparser.py:301-302 | a key's value comes from the first line that defines it |
| Properties.PropsFoldTail | src/journalparser.py:304-305 | every line put into the tail was rejected: no key, or a key already present |
| Properties.ComponentPropertiesTail | src/journalparser.py:286-307 | the tail is the rejected lines, then every line from the first blank line on; it starts blank exactly when no line was rejected |
| Properties.SplitOnce | src/journalparser.py:461 | `split(":", maxsplit=1)` gives one part without a colon, or the text on either side of the first colon |
| Properties.PropMissingSpaceMeaning | src/journalparser.py:460-466 | `prop_missing_space` (corrected) holds exactly when the stripped line's first colon is not followed by a space |
| Properties.PropMissingSpaceAgrees | src/journalparser.py:460-466 | wherever the code as written does not raise, it agrees with the corrected check |
| Properties.PropMissingSpaceRaises | src/journalparser.py:463 | `"author:\n"` makes the code as written raise |
| Properties.EndsAtFirstColon | src/journalparser.py:463 | any stripped line ending at its first colon makes the code as written raise |
| Properties.AnalyzeIncorrectProperty | src/journalparser.py:230-242 | the missing space wins over a duplicate key, which wins over bad notation; both directions of each choice |
| Properties.RawKeyAgrees | src/journalparser.py:238 | on the raw line the key test sees the same key as the property loop |
| Properties.DuplicateReported | src/journalparser.py:238-239 | a line rejected as a duplicate is reported as `duplicate of field` unless the space check fires |
| Properties.FirstContentful | src/journalparser.py:444-449 | the first non-blank line, or `""` exactly when every line is blank |
| Properties.GetFirstContentful | src/journalparser.py:444-449 | the loop computes `FirstContentful` |
| Properties.InvalidTail | src/journalparser.py:270-283 | a non-blank first tail line is classified as an incorrect property; a blank-started tail fails only without a body, with the overflow message at its first contentful line; the offending line is always a non-blank line of the tail; with non-empty lines the tail is accepted exactly when it starts blank and, without a body, holds only blank lines |
| InlineValues.LastIndexOfMeaning | src/journalparser.py:22 | the last occurrence in a range, which a greedy group stops at |
| InlineValues.DigitRun | src/journalparser.py:35 | `\d+` takes every leading digit |
| InlineValues.AppendixShapeUnique | src/journalparser.py:22 | an appendix value has one reading |
| InlineValues.AppendixMatchMeaning | src/journalparser.py:22 | `^\[(.*)\] (\S+)$` matches exactly the newline-free `[description] href` shapes with a space-free href, and returns those parts |
| InlineValues.AppendixRendered | src/journalparser.py:21-32 | `[d] h` matches back to `d` and `h` |
| InlineValues.HeightShapeUnique | src/journalparser.py:35 | a height is all the leading digits |
| InlineValues.PictureMatchMeaning | src/journalparser.py:35 | `^(\d+px) (\S+)$` matches exactly a height, one space and a space-free source |
| InlineValues.GalleryMatchMeaning | src/journalparser.py:47 | `^(\d+px) (.+)$` matches exactly a height, one space and a non-empty newline-free rest |
| InlineValues.PictureRendered | src/journalparser.py:34-44 | `<digits>px src` matches back to the height and the source |
| InlineValues.PictureMatchAt | src/journalparser.py:35-37 | a picture body matches with its height and source groups |
| InlineValues.GalleryMatchAt | src/journalparser.py:47-49 | a gallery body matches with its height and rest groups |
| InlineValues.GalleryRendered | src/journalparser.py:46-56 | a height and items joined by spaces tokenize back to the height and to those items |
| InlineValues.QuoteMatchMeaning | src/journalparser.py:59 | `^\[(.*)\] \[(.+)\] (.+)$` matches exactly the newline-free quote shapes, taking the reading with the longest author and then the longest content |
| InlineValues.QuoteMatchSome | src/journalparser.py:59 | the groups found form a quote shape that no other reading beats in greediness |
| InlineValues.QuoteMatchNone | src/journalparser.py:59 | without a match there is no quote shape |
| InlineValues.QuoteRendered | src/journalparser.py:58-72 | `[a] [c] r` matches back to `a`, `c` and `r` when `c` and `r` hold no closing brackets of their own |
| InlineValues.QuoteMatchParts | src/journalparser.py:59-65 | a quote body laid out at known positions matches with those three groups |
| InlineValues.TokenizeAppendix | src/journalparser.py:21-32 | fails with the appendix hint exactly when the regex fails; else the stripped description and the href |
| InlineValues.TokenizePicture | src/journalparser.py:34-44 | fails with the picture hint exactly when the regex fails; else the `height` and `src` groups |
| InlineValues.TokenizeGallery | src/journalparser.py:46-56 | fails with the gallery hint exactly when the regex fails; else the `height` group and the rest split on single spaces as `items` |
| InlineValues.TokenizeQuote | src/journalparser.py:58-72 | fails with the quote hint exactly when the regex fails; else the `author`, `content` and `reference` groups |
| InlineValues.TokenizeValue | src/journalparser.py:113-117 | keys without a grammar pass through unchanged; failures are always one of the four hints |
| InlineValues.CollectMeaning | src/journalparser.py:112-123 | collecting succeeds when every value does and keeps each key in place; else it reports the first failure |
| InlineValues.TokenizeValuesMeaning | src/journalparser.py:106-125 | the rewritten map keeps every key in its place, rewrites only the four keys, and otherwise reports the first failing value in insertion order |
| InlineValues.TokenizePropertyValues | src/journalparser.py:109-123 | the loop over the dict copy computes `TokenizeValues` |
| InlineValues.PutAt | src/journalparser.py:121 | writing an existing key of the copy replaces that slot only |
| InlineValues.PrefixFailure | src/journalparser.py:118-119 | the first error aborts: a failure on a prefix is the failure of the whole map |
| Body.AppendCode | src/journalparser.py:148-149 | the open code paragraph gets the line appended verbatim; earlier paragraphs are unchanged |
| Body.AppendText | src/journalparser.py:155-156 | the open text paragraph gets the stripped line appended; earlier paragraphs are unchanged |
| Body.ChapterStep | src/journalparser.py:136-156 | one round of the (corrected) state machine keeps the open paragraph consistent with the flags |
| Body.ChapterRunAgrees | src/journalparser.py:136-156 | wherever the loop as written does not fail, the corrected loop computes the same state |
| Body.ChapterTextAfterCode | src/journalparser.py:155-156 | a text line right after a closing fence with no blank line before makes the loop as written fail; the corrected loop starts a text paragraph |
| Body.StrParas | src/journalparser.py:477-480 | every paragraph is rewritten by itself |
| Body.StrParagraphs | src/journalparser.py:477-480 | the in-place loop on the array rewrites every text paragraph and leaves code paragraphs alone |
| Body.TokenizeChapterBody | src/journalparser.py:131-158 | the loop and `str_paragraphs` compute `ChapterParagraphs` |
| Body.ChapterLine | src/journalparser.py:138-156 | the loop body is one `ChapterStep` |
| Body.ChapterStepCodeCount | src/journalparser.py:141-143 | a step adds a code paragraph exactly for an opening fence |
| Body.ChapterCodeCount | src/journalparser.py:136-156 | a chapter has as many code paragraphs as its body has opening fences |
| Body.ChapterRunAppend | src/journalparser.py:136 | running over two pieces is running over each in turn |
| Body.TextLinesRun | src/journalparser.py:155-156 | lines after the first of a text paragraph extend it |
| Body.CodeLinesRun | src/journalparser.py:148-149 | code lines, blank ones included, are concatenated verbatim |
| Body.TextBlockRun | src/journalparser.py:138-153 | a blank line and text lines append one text paragraph |
| Body.CodeBlockRun | src/journalparser.py:141-149 | an opening fence, code lines and a closing fence append one code paragraph; the fences appear in none |
| Body.OpenCodeStep | src/journalparser.py:141-143 | an opening fence opens an empty code paragraph |
| Body.CloseCodeStep | src/journalparser.py:145-146 | a closing fence closes the code block |
| Body.BlockRun | src/journalparser.py:136-156 | any written block appends its paragraph |
| Body.ChapterRendered | src/journalparser.py:136-156 | a body written as blocks reads back as those blocks' paragraphs, fences in none |
| Body.ChapterParagraphsRendered | src/journalparser.py:131-158 | the chapter paragraphs of a written body: text lines joined with single spaces, code verbatim |
| Body.IntroAllBlank | src/journalparser.py:165-168 | an all-blank tail gives an empty content |
| Body.ContentLinesAppend | src/journalparser.py:165 | blank lines anywhere do not count |
| Body.IntroRendered | src/journalparser.py:164-168 | the content of written lines is those lines joined with single spaces |
| Body.RenderedContentLines | src/journalparser.py:165 | clean written lines are the content lines |
| Body.TokenizeProperties | src/journalparser.py:88-100 | the property decorator computes `PropertyStep` |
| Body.TokenizeComponentMeta | src/journalparser.py:170-172 | the meta tokenizer computes `MetaTokens` |
| Body.TokenizeComponentIntroduction | src/journalparser.py:162-168 | the introduction tokenizer computes `IntroductionTokens` |
| Body.TokenizeComponentChapter | src/journalparser.py:128-160 | the chapter tokenizer computes `ChapterTokens` |
| Schema.LexLessTransitive | src/model.py:21 | Python's string order is transitive |
| Schema.LexLessTotal | src/model.py:21 | Python's string order is total |
| Schema.Tag | src/model.py:82-146 | a nested error is placed under its field or index |
| Schema.Need | src/model.py:10 | a required field is its value, or `field required` at its name |
| Schema.SmallestExtra | src/model.py:21 | the extra key reported is the smallest key that is not a field |
| Schema.NoExtra | src/model.py:18-21 | `Extra.forbid` accepts exactly the maps with only field keys, else reports the smallest extra key |
| Schema.StrValue | src/model.py:15 | `str`: a string, or `str type expected` |
| Schema.Constr | src/model.py:10 | `constr`: the type, then the minimum, then the maximum, each with its message |
| Schema.SchemeRun | src/model.py:11 | the scheme characters at the start |
| Schema.UrlSchemeMeaning | src/model.py:11 | a scheme is found exactly when the URL starts with one and `://` |
| Schema.StrictUrl | src/model.py:11 | `stricturl(https)` accepts only its stripped value, with length bounds and an `https` scheme |
| Schema.StrictUrlHttps | src/model.py:11 | an accepted URL starts with `https://` in any letter case |
| Schema.StrictUrlMissingScheme | src/test_journal_parser.py:561-577 | a URL without `://` fails with `invalid or missing URL scheme` |
| Schema.StrictUrlHttp | src/test_journal_parser.py:561-577 | an `http://` URL fails with `URL scheme not permitted` |
| Schema.StrictUrlFoldedScheme | src/model.py:11 | under the case-insensitive scheme regex a long s starts a scheme, so `ſftp://` gets `URL scheme not permitted` |
| Schema.StrictUrlHttpsAccepted | src/model.py:11 | an `https://` URL is accepted unchanged |
| Schema.StrictUrlStable | src/model.py:11 | an accepted URL is accepted again unchanged |
| Schema.DateShapeUnique | src/model.py:133 | the month of a date has one width |
| Schema.ParseDate | src/model.py:133 | an accepted calendar date exists; a refused string gets `invalid date format` |
| Schema.ParseDateLong | src/model.py:133 | `YYYY-MM-DD` is that date when it exists, and refused otherwise |
| Schema.ParseDateShort | src/model.py:133 | the same for `YYYY-M-DD` |
| Schema.CalendarExamples | src/test_journal_parser.py:965-975 | there is no 24th month; February 29th exists in leap years only |
| Schema.Words | src/model.py:202-203 | `words` has at least one part |
| Schema.DuplicatesMeaning | src/model.py:154-155 | `duplicates` holds exactly when some word occurs twice |
| Schema.ToSetSize | src/model.py:155 | the set of a list is no larger than the list |
| Schema.Keywords | src/model.py:15-38 | `keywords` is accepted exactly with five words of 3 to 16 characters and no duplicate, the word check first |
| Schema.ValidKeywords | src/model.py:194-199 | the word count is checked first, then every word's length; `Keywords` and `KeywordsRendered` state what it accepts |
| Schema.Duplicates | src/model.py:154-155 | `len(l) != len(set(l))`; `DuplicatesMeaning` proves it holds exactly when a word repeats |
| Schema.KeywordsRendered | src/model.py:194-207 | five distinct words joined by spaces are accepted and split back into those words |
| Schema.KeywordsExamples | src/test_journal_parser.py:682-743 | `""` and `"abc def"` are not five keywords |
| Schema.ValidYearExamples | src/test_journal_parser.py:580-628 | `2020` and `2020 - 2021` are years; `20144`, `abcd` and `""` are not |
| Schema.Year | src/model.py:40-47 | a year is accepted exactly with at least 4 characters and a valid format |
| Schema.ValidYear | src/model.py:190-191 | four ASCII digits, or two such groups around ` - `, the whole string; `ValidYearExamples` pins the accepted and rejected years |
| Schema.OneFolderUp | src/model.py:63-69 | navigation out of the web root is refused, anything else gets `../` in front |
| Schema.OneFolderUpAgrees | src/model.py:64 | the code as written agrees with the corrected check on non-empty values and raises on `""` |
| Schema.KeptParts | src/model.py:57-58 | normalisation drops empty and `.` parts |
| Schema.WebRootPath | src/model.py:50-79 | an accepted path did not navigate up, exists with the right kind one folder up, and loses its first two characters |
| Schema.NormPathUp | src/model.py:73-74 | a path one folder up normalises to something starting with `..` |
| Schema.WebRootPathClean | src/test_journal_parser.py:1378-1386 | a clean existing path `v` is accepted as `/v` |
| Schema.CleanNoNavigation | src/model.py:64 | a clean relative path is not refused |
| Schema.CleanNormPath | src/model.py:57-58 | a clean path one folder up is already normal |
| Schema.LowerRun | src/journalparser.py:457 | the lower-case letters at the start |
| Schema.IsUrlMeaning | src/journalparser.py:456-457 | `is_url` holds exactly when one or more lower-case ASCII letters followed by `://` start the string |
| Schema.IsUrl | src/journalparser.py:456-457 | `^[a-z]+://` searched from the start; its exact meaning is `IsUrlMeaning` |
| Schema.Link | src/model.py:84-88 | an accepted URL link starts with `https://` in any letter case; an accepted file link is an existing file one folder up, served without the `..` |
| Schema.Fields | src/model.py:82-146 | a nested record must be a dict |
| Schema.AppendixOf | src/model.py:82-88 | an accepted appendix has a 3 to 48 character description and an href valid for its kind |
| Schema.PictureOf | src/model.py:110-116 | an accepted picture has a height of at least 3 and a source valid for its kind |
| Schema.ItemsFrom | src/model.py:103-107 | a list is accepted when every item is; else the first failing item is reported under its index |
| Schema.Links | src/model.py:103-107 | a list of links is accepted exactly when every item is a link of the kind, keeping the items in order; otherwise the first failing item's error is placed under its index; a non-list gives `value is not a valid list` |
| Schema.GalleryOf | src/model.py:101-107 | an accepted gallery has a height of at least 3 and every item valid for the one kind |
| Schema.QuoteOf | src/model.py:119-122 | an accepted quote has a 2 to 48 character author, a content of at least 10 and an https reference |
| Schema.ParagraphOf | src/model.py:125-127 | an accepted paragraph has a string type and content |
| Schema.Paragraphs | src/model.py:140 | a list of paragraphs is accepted exactly when every item is a paragraph, keeping them in order; otherwise the first failing item's error is placed under its index; a non-list gives `value is not a valid list` |
| Schema.Inner | src/journalparser.py:187 | `tokens[outer][inner]` when it is a string |
| Schema.FirstItem | src/journalparser.py:190 | `tokens["gallery"]["items"][0]` when it is a string |
| Schema.Err | src/model.py:9-146 | a field's error, if any |
| Schema.ReqConstr | src/model.py:131-132 | a required `constr` field is accepted exactly when present and within bounds |
| Schema.MetaWebsite | src/model.py:11 | an accepted website is a strict https URL |
| Schema.MetaYear | src/model.py:12 | an accepted year has at least 4 characters and a valid format |
| Schema.MetaKeywords | src/model.py:15 | accepted keywords are five valid distinct words |
| Schema.MetaOptOut | src/model.py:16 | `opt_out` is optional and a string |
| Schema.FirstError | src/journalparser.py:417 | the first error is the first failing position |
| Schema.FirstErrorIs | src/journalparser.py:417 | the first failing position gives the first error |
| Schema.MetaOf | src/model.py:9-21 | `Meta` is accepted exactly when no field fails; else the first failing field in declaration order |
| Schema.MetaLengths | src/model.py:10-14 | an accepted `Meta` keeps its author, title and description within bounds |
| Schema.MetaFormats | src/model.py:11-38 | an accepted `Meta` has an https website, a valid year, five distinct keywords and no extra key |
| Schema.MetaFirstError | src/model.py:9-21 | the first failing field in declaration order is reported; the extra keys come last |
| Schema.MetaMissingAuthor | src/test_journal_parser.py:452 | meta tokens without an author report it missing |
| Schema.OptAppendix | src/journalparser.py:208-209 | an accepted appendix is of the kind its href selects |
| Schema.IntroductionOf | src/model.py:91-98 | `Introduction` is accepted exactly when no field fails |
| Schema.IntroductionAccepted | src/model.py:91-98 | an accepted introduction keeps its 50 to 600 character content, has no extra key, and its appendix is of the variant its href selects |
| Schema.AppendixVariant | src/journalparser.py:187-188 | the appendix is a file exactly when its href is not a URL |
| Schema.IntroductionFirstError | src/model.py:91-98 | the first failing introduction field is reported |
| Schema.ChapterDate | src/model.py:133 | an accepted date is the parsed `date` token |
| Schema.ChapterWebsite | src/model.py:134 | an accepted website is a strict https URL |
| Schema.ChapterPicture | src/journalparser.py:193-194 | an accepted picture is of the kind its source selects |
| Schema.ChapterExample | src/model.py:137 | an accepted interactive example is a web-root directory |
| Schema.ChapterGallery | src/journalparser.py:190-191 | an accepted gallery is of the kind its first item selects |
| Schema.ChapterQuote | src/model.py:139 | an accepted quote is a valid quote |
| Schema.ChapterParagraphs | src/model.py:140 | accepted paragraphs are valid paragraphs |
| Schema.ChapterOf | src/model.py:130-146 | `Chapter` is accepted exactly when no field fails; else the first failing field |
| Schema.ChapterFirstError | src/model.py:130-146 | the first failing chapter field is reported |
| Schema.ChapterMissingAuthor | src/test_journal_parser.py:892-895 | chapter tokens without an author report it missing |
| Schema.ChapterAccepted | src/model.py:130-146 | an accepted chapter keeps its author and topic within bounds, its valid date, and has no extra key |
| Schema.ChapterVariants | src/journalparser.py:183-196 | the appendix, picture and gallery variants follow `is_url` on the href, the source and the first item |
| Schema.PictureVariant | src/journalparser.py:193-194 | the picture is a URL exactly when its source is one |
| Schema.GalleryVariant | src/journalparser.py:190-191 | the gallery is of URLs exactly when its first item is one |
| Parser.ParseMetaMessage | src/journalparser.py:219-227 | meta fails exactly when `Meta` does, with the path but no value |
| Parser.ParseMetaMissingAuthor | src/test_journal_parser.py:452 | `Error in /meta properties: field required: "author"` |
| Parser.ParseChapterMissingAuthor | src/test_journal_parser.py:892-895 | `Error in /chapter: field required: "author"` |
| Parser.UnknownHeader | src/journalparser.py:341-345 | an unknown header fails at the tokenizer lookup |
| Parser.AssembleKeeps | src/journalparser.py:327-364 | the loop keeps the chapters in order, the last meta and introduction, yields only errors, and counts every component once |
| Parser.ErrorsZero | src/journalparser.py:347-359 | no error was counted exactly when every component succeeded |
| Parser.ArticleYielded | src/journalparser.py:366-371 | an `Article` is yielded exactly when every component succeeded with one meta and one introduction; it comes last and holds them and the chapters |
| Parser.AssemblePrefix | src/journalparser.py:327-364 | what was yielded is never taken back |
| Parser.FirstNotMeta | src/journalparser.py:333-335 | a document not opening with `/meta` reports it first |
| Parser.SecondNotIntroduction | src/journalparser.py:337-339 | a second component other than `/introduction` is reported right after the first component's output |
| Parser.FailureReported | src/journalparser.py:347-359 | a failing component's message follows the output before it, and processing goes on |
| Parser.UnknownHeaderReported | src/journalparser.py:344-348 | an unknown header's message appears in the output |
| Parser.TokenizeComponent | src/journalparser.py:341-345 | the tokenizer lookup computes `Tokenize` |
| Parser.ParseComponent | src/journalparser.py:341-359 | one component through both lookups computes `Outcome` |
| Parser.ParseComponents | src/journalparser.py:319-371 | the loop of `parse` computes `Parse` |
| Parser.Parse | src/journalparser.py:319-371 | an `Article` is yielded only last, and only when every component was tokenized and validated; `ArticleYielded` states exactly when and with which parts |
| Parser.Run | src/journalparser.py:325-371 | over the steps, only the final check yields an `Article`, and only when no step failed |
| Parser.AdvanceLocals | src/journalparser.py:333-364 | the loop body is one `Advance` step |
| Parser.AssembleNext | src/journalparser.py:327 | one more component is one more loop step |
| Parser.ParseFile | src/journalparser.py:319-371 | `parse(file)` drained is `Parse` of the chunks |
| Compile.TailStart | src/compile.py:137 | the base name starts after the last `/` |
| Compile.RStripSlashes | src/compile.py:137 | trailing slashes are dropped and only those |
| Compile.BaseName | src/compile.py:137 | the base name holds no `/` |
| Compile.DirName | src/compile.py:137 | the head of `os.path.split` is a prefix of the path before its tail, with trailing slashes dropped unless it is all slashes |
| Compile.FileName | src/compile.py:146 | the file name is the base name up to its first `.`, or all of it, and holds no `.` or `/` |
| Compile.PathJoin | src/compile.py:168 | `os.path.join` ends with its second part and, when that part is relative, starts with the first |
| Compile.ProdDirUp | src/compile.py:144 | `../journal/x` is served from `/journal/x` |
| Compile.ProdDir | src/compile.py:144 | the text between the directory's first `..` and the next `..`, or the end: it holds no `..`, follows the first part and `..` at the start of the directory, and ends at the end or at another `..` |
| Compile.NotAbsolute | src/compile.py:166-172 | a file name with an extension never replaces the directory in a join |
| Compile.OptOutFeatures | src/compile.py:139-142 | every opted-out name is switched off, every other feature keeps its default, and the defaults stay unchanged |
| Compile.Document.constructor | src/compile.py:136-151 | the fields of a new document: directories, file name, features, keywords, empty lists |
| Compile.Document.FilePath | src/compile.py:166-168 | `file_path` is the directory joined with `name.html` |
| Compile.Document.Href | src/compile.py:170-172 | `href` is the served directory joined with `name.html` |
| Compile.Document.RKeywordsFlat | src/compile.py:183-184 | the recommended keywords alone, in order |
| Compile.Document.RKeywordsUncommon | src/compile.py:186-187 | empty exactly when every recommended keyword occurs at least five times |
| Compile.Document.ContentText | src/compile.py:156-164 | the title, then each chapter's topic and text paragraphs, joined by spaces |
| Compile.Uncommon | src/compile.py:186-187 | a word is uncommon exactly when it is counted fewer than five times |
| Compile.TextContents | src/compile.py:162 | exactly the contents of the text paragraphs |
| Compile.ChapterTextsMeaning | src/compile.py:160-162 | the text holds every topic and text paragraph and nothing else |
| Compile.MatchIndexSymmetric | src/compile.py:178-181 | the match index does not depend on which document asks |
| Compile.Document.KeywordsMatchIndex | src/compile.py:178-181 | the number of distinct keywords of both documents, at most their two keyword counts added |
| Compile.MatchIndexShared | src/compile.py:178-181 | for five distinct keywords each, the index is 10 less the shared ones |
| Compile.ValidAsRelated | src/compile.py:205-206 | exactly the valid documents, in order, without repeats |
| Compile.Document.IsValidAsRelatedTopic | src/compile.py:174-176 | the content keywords are the recommended ones in order, and none is uncommon; `ValidAsRelated` filters by it |
| Compile.Candidates | src/compile.py:97-106 | at most one topic per other document; `CandidatesMeaning` and `CandidatesBound` state which |
| Compile.CandidatesSnoc | src/compile.py:99-106 | one more document in the inner loop appends its topic exactly when it is another document with index at most 8, and nothing otherwise |
| Compile.CandidatesSound | src/compile.py:97-106 | every lent topic is the topic of another document whose index is at most 8 |
| Compile.CandidatesComplete | src/compile.py:97-106 | every other document with index at most 8 lends its topic |
| Compile.CandidatesMeaning | src/compile.py:97-106 | a topic is lent exactly by another document with index at most 8, never by the document itself |
| Compile.CandidatesBound | src/compile.py:102 | every lent topic has index at most 8 |
| Compile.Insert | src/compile.py:108 | inserting adds one topic |
| Compile.InsertSorted | src/compile.py:108 | inserting keeps the list sorted |
| Compile.InsertPermutes | src/compile.py:108 | inserting adds exactly the topic |
| Compile.InsertStable | src/compile.py:108 | inserting goes after the topics of the same index |
| Compile.SortTopicsSorted | src/compile.py:108 | the sort is sorted by match index |
| Compile.SortTopics | src/compile.py:108 | the sort keeps the length; `SortTopicsSorted`, `SortTopicsPermutes` and `SortTopicsStable` state `list.sort` by match index |
| Compile.SortTopicsPermutes | src/compile.py:108 | the sort is a permutation |
| Compile.SortTopicsStable | src/compile.py:108 | the sort is stable, as Python's sort is |
| Compile.AppendTopics | src/compile.py:97-106 | the inner loop appends the candidates |
| Compile.RelateDocument | src/compile.py:93-108 | a document's list becomes its old list and its candidates, sorted |
| Compile.RelateValid | src/compile.py:92-110 | each valid document is related in turn; others are untouched |
| Compile.SetRelatedTopics | src/compile.py:91-110 | only valid documents change, each to its list and candidates sorted |
| Compile.RelatedTopicsSorted | src/compile.py:91-110 | each such list is sorted, holds exactly the old topics and the candidates, and every new topic comes from another valid document with index at most 8 |

## Left out

- I/O: the open text file is a sequence of lines with a read position measured in lines, not bytes. `parse` is drained into a list rather than consumed lazily as a generator. `ParseFile` chunks the whole file before it assembles the document, which yields the same list because each chunk depends only on the file.
- The ordering message of a component is placed before that component's own outcome, as the code yields it. The tokenizers and validators are pure, so their order against the ordering check does not matter.
- pydantic is modelled as the behaviour these records use, not as its implementation.
  - `stricturl` checks the type, strips the value, checks the length bounds and the scheme, including both scheme messages. Its scheme letters follow `re.IGNORECASE`, which adds four non-ASCII letters to `[a-z]`. It does not check the host or the top-level domain.
  - `date` accepts a string of ASCII digits as a Unix timestamp, or `YYYY-M(M)-D(D)` as a real calendar date. Other numeric strings, non-string inputs and non-ASCII digits are not modelled (see `Schema.ParseDate` below).
  - `FilePath` and `DirectoryPath` check membership in a `FileSystem` value of files and directories: the filesystem is a parameter. Their messages are kept as shapes.
  - Only `str` values are path values, and Python's `repr` escaping is simplified.
- Schema.GalleryKindOf: the gallery variant is chosen from the first item only when that item is a string. A malformed token (no `items`, not a list, or empty) takes the default variant instead of raising the `KeyError`, `TypeError` or `IndexError` that `parse_component_chapter` would raise.
- ErrorMessages.DefaultErrMsg: for a location that does not resolve in the tokens, the model shows the path without a value, where `reduce(getitem, ...)` would raise a `KeyError`, an `IndexError` or a `TypeError`. A dict or list value with more than 14 entries is shown whole, where `truncate` would raise a `TypeError` (a slice of a dict, or a list plus a string).
- The `except KeyError` around the parser lookup in `parse` cannot fire after a successful tokenizer lookup, because both maps have the same keys. The `Error: Parser for ... not implemented` message is defined but never produced.
- Compile.Document.ContentText requires every chapter's `paragraphs` to be present. The source would raise on a chapter without paragraphs.
- Compile.SetRelatedTopics requires the documents to be distinct objects, which the list the compiler builds always is. The inner loop's second call to `documents_valid_as_related` is modelled as the same list, since nothing between the two calls changes validity.
- Compile.Document.constructor requires the directory to contain `..`, since `split("..")[1]` raises otherwise.
- The NLP keyword extraction (`set_recommended_keywords` and `seo.py`) is not modelled: `recommendedKeywords` is a field that callers set. Printing (`print_*`, `CliFormat`), argument parsing, globbing and HTML rendering are I/O and are left out.
- Schema.ParseDate: any string `float()` accepts other than a plain run of ASCII digits is refused with `invalid date format`. That covers a sign, `_` separators, a decimal point, an exponent, `inf` and `nan`. pydantic reads such a string as a Unix timestamp (`+5` and `1_000` are 1970-01-01, `inf` is `date.max`). Modelling it would need `float()`'s grammar and floating-point timestamps.
- InlineValues.DigitRun: `\d` is taken as the ASCII digits `0-9`. In Python's `str` patterns it matches every Unicode decimal digit, so a height such as `٢٥٠px` is accepted by the source and refused by the model. `InlineValues.HeightShape` is defined on the same digits.
- InlineValues.PictureMatchMeaning: "exactly" is with `\d` as ASCII digits; a height in other decimal digits matches in the source.
- InlineValues.GalleryMatchMeaning: "exactly" is with `\d` as ASCII digits; a height in other decimal digits matches in the source.
- InlineValues.TokenizePicture: fails with the picture hint where the source would accept a height in non-ASCII decimal digits.
- InlineValues.TokenizeGallery: fails with the gallery hint where the source would accept a height in non-ASCII decimal digits.
- Parser.Parse: it is built from the corrected members of "## Findings", `PropMissingSpace` (through `AnalyzeIncorrectProperty`), `OneFolderUp` (through `WebRootPath`) and `ChapterStep` (through `ChapterTokens`). On those three inputs the model yields an error message or a text paragraph. The source's `parse` instead lets the `IndexError` or `AttributeError` escape from the generator, because it catches only `KeyError`. The members modelling the code as written are listed under "## Findings".
- Python `is` comparisons on strings and small integers are modelled as equality.

## Findings

| source | as written | input that shows it | evidently intended | confidence | as-written member | corrected member |
|---|---|---|---|---|---|---|
| src/journalparser.py:463 | `matches[1][0]` is read when the stripped line ends at its first colon: `IndexError` | the property line `author:` | the line is classified as missing the space after the colon | not executed | Properties.PropMissingSpaceAsWritten (Properties.PropMissingSpaceRaises, Properties.EndsAtFirstColon) | Properties.PropMissingSpace (Properties.PropMissingSpaceMeaning) |
| src/model.py:64 | `v[0]` on an empty value raises `IndexError`, which pydantic does not turn into a validation error | a gallery value `45px a  b`, whose double space gives an empty item | the empty value is moved one folder up like any other relative path | not executed | Schema.OneFolderUpAsWritten (Schema.OneFolderUpAgrees) | Schema.OneFolderUp |
| src/journalparser.py:155-156 | a text line right after a closing fence, with no blank line since the last text, appends to the code paragraph's string content: `AttributeError` | the chapter body: a blank line, `a`, an opening fence, a closing fence, `b` | the line starts a new text paragraph | not executed | Body.ChapterStepAsWritten (Body.ChapterTextAfterCode) | Body.ChapterStep (Body.ChapterRendered) |
