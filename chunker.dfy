/** The line cursor and the component chunker: a journal file is read line by line and cut
    into components, each starting at a `/`-header line, until a `---` draft marker. */
module Chunker {
  import opened Wrappers
  import opened Strings

  /** `drafting(line)`: the first three characters are `---`. */
  predicate IsDraft(line: string) {
    StartsWith(line, "---")
  }

  /** `component_identifier(line)`: the line starts with `/`. */
  predicate IsHeader(line: string) {
    |line| > 0 && line[0] == '/'
  }

  /** A line the chunker does not take into the running chunk. */
  predicate Stops(line: string) {
    IsHeader(line) || IsDraft(line)
  }

  /** `readline` returns `""` only at the end of the file, so every line read is non-empty. */
  predicate NonEmptyLines(lines: seq<string>) {
    forall i :: 0 <= i < |lines| ==> |lines[i]| > 0
  }

  /** An open text file: its lines and the read position, counted in lines. */
  class LineFile {
    const lines: seq<string>
    var pos: nat

    ghost predicate Valid()
      reads this
    {
      pos <= |lines| && NonEmptyLines(lines)
    }

    constructor(ls: seq<string>)
      requires NonEmptyLines(ls)
      ensures lines == ls && pos == 0 && Valid()
    {
      lines := ls;
      pos := 0;
    }

    /** `file.readline()`: the next line, or `""` at the end of the file. */
    method ReadLine() returns (line: string)
      requires Valid()
      modifies this
      ensures Valid()
      ensures old(pos) < |lines| ==> line == lines[old(pos)] && pos == old(pos) + 1
      ensures old(pos) == |lines| ==> line == "" && pos == old(pos)
    {
      if pos < |lines| {
        line := lines[pos];
        pos := pos + 1;
      } else {
        line := "";
      }
    }

    /** `file.seek(p)`. */
    method Seek(p: nat)
      requires Valid() && p <= |lines|
      modifies this
      ensures Valid() && pos == p
    {
      pos := p;
    }
  }

  /** `SeekableFileIterator`: iterates over a file and can step back over the last line read. */
  class SeekableFileIterator {
    const file: LineFile
    var filePos: nat

    ghost predicate Valid()
      reads this, file
    {
      file.Valid() && filePos <= |file.lines|
    }

    constructor(f: LineFile)
      requires f.Valid()
      ensures file == f && filePos == f.pos && Valid()
    {
      file := f;
      filePos := f.pos;
    }

    /** `__next__`: remembers where the line starts, then reads it; `None` is `StopIteration`. */
    method Next() returns (r: Option<string>)
      requires Valid()
      modifies this, file
      ensures Valid()
      ensures filePos == old(file.pos)
      ensures old(file.pos) < |file.lines| ==>
                r == Some(file.lines[old(file.pos)]) && file.pos == old(file.pos) + 1
      ensures old(file.pos) == |file.lines| ==> r == None && file.pos == old(file.pos)
    {
      filePos := file.pos;
      var line := file.ReadLine();
      if line == "" {
        r := None;
      } else {
        r := Some(line);
      }
    }

    /** `rewind`: back to the start of the last line read. */
    method Rewind()
      requires Valid()
      modifies file
      ensures Valid() && file.pos == filePos
    {
      file.Seek(filePos);
    }
  }

  /** The first index at or after `from` whose line stops a chunk, or the end of the file. */
  function ChunkEnd(lines: seq<string>, from: nat): (e: nat)
    requires from <= |lines|
    ensures from <= e <= |lines|
    ensures forall j :: from <= j < e ==> !Stops(lines[j])
    ensures e < |lines| ==> Stops(lines[e])
    decreases |lines| - from
  {
    if from == |lines| || Stops(lines[from]) then from else ChunkEnd(lines, from + 1)
  }

  /** One call of `_chunk_until_next_component` with the cursor at `pos`: the chunk and the
      new cursor. */
  function ChunkAt(lines: seq<string>, pos: nat): (r: (seq<string>, nat))
    requires pos <= |lines|
    ensures r.1 <= |lines|
    ensures r.0 == [] <==> pos == |lines| || IsDraft(lines[pos])
    ensures r.0 == [] ==> r.1 == if pos == |lines| then pos else pos + 1
    ensures r.0 != [] ==> pos < r.1 && r.0 == lines[pos..r.1]
    ensures r.0 != [] ==> forall j :: pos < j < r.1 ==> !Stops(lines[j])
    ensures r.0 != [] && r.1 < |lines| ==> Stops(lines[r.1])
  {
    if pos == |lines| then ([], pos)
    else if IsDraft(lines[pos]) then ([], pos + 1)
    else
      var e := ChunkEnd(lines, pos + 1);
      (lines[pos..e], e)
  }

  /** `_chunk_until_next_component`: the first line (unless it is a draft marker) and every
      following line up to the next header or draft marker, which is left unread. */
  method ChunkUntilNextComponent(file: LineFile) returns (chunk: seq<string>)
    requires file.Valid()
    modifies file
    ensures file.Valid()
    ensures (chunk, file.pos) == ChunkAt(file.lines, old(file.pos))
  {
    var fi := new SeekableFileIterator(file);
    var first := fi.Next();
    var firstLine := if first.Some? then first.value else "---";
    if IsDraft(firstLine) {
      return [];
    }
    chunk := [firstLine];
    while true
      invariant fi.Valid() && fi.file == file
      invariant old(file.pos) < file.pos <= |file.lines|
      invariant chunk == file.lines[old(file.pos)..file.pos]
      invariant forall j :: old(file.pos) < j < file.pos ==> !Stops(file.lines[j])
      decreases |file.lines| - file.pos
    {
      var next := fi.Next();
      if next.None? {
        break;
      }
      var line := next.value;
      if IsHeader(line) || IsDraft(line) {
        fi.Rewind();
        break;
      }
      chunk := chunk + [line];
    }
  }

  /** Every chunk the component iterator yields from `pos` on: chunking stops at the first
      empty chunk. */
  function Chunks(lines: seq<string>, pos: nat): (cs: seq<seq<string>>)
    requires pos <= |lines|
    decreases |lines| - pos
  {
    var (c, next) := ChunkAt(lines, pos);
    if c == [] then [] else [c] + Chunks(lines, next)
  }

  /** `_component_iterator`, drained: calls the chunker until it returns `[]`. */
  method ComponentIterator(file: LineFile) returns (chunks: seq<seq<string>>)
    requires file.Valid()
    modifies file
    ensures file.Valid()
    ensures chunks == Chunks(file.lines, old(file.pos))
  {
    chunks := [];
    while true
      invariant file.Valid() && old(file.pos) <= file.pos
      invariant Chunks(file.lines, old(file.pos)) == chunks + Chunks(file.lines, file.pos)
      decreases |file.lines| - file.pos
    {
      ghost var before := file.pos;
      var c := ChunkUntilNextComponent(file);
      if c == [] {
        break;
      }
      assert Chunks(file.lines, before) == [c] + Chunks(file.lines, file.pos);
      chunks := chunks + [c];
    }
  }

  /** The first draft marker at or after `pos`, or the end of the file. */
  function FirstDraft(lines: seq<string>, pos: nat): (d: nat)
    requires pos <= |lines|
    ensures pos <= d <= |lines|
    ensures forall j :: pos <= j < d ==> !IsDraft(lines[j])
    ensures d < |lines| ==> IsDraft(lines[d])
    decreases |lines| - pos
  {
    if pos == |lines| || IsDraft(lines[pos]) then pos else FirstDraft(lines, pos + 1)
  }

  function Flatten<T>(ss: seq<seq<T>>): seq<T> {
    if |ss| == 0 then [] else ss[0] + Flatten(ss[1..])
  }

  /** Chunking loses no line and invents none: the chunks, concatenated, are exactly the lines
      from the cursor up to the first draft marker. */
  lemma {:induction false} ChunksPartition(lines: seq<string>, pos: nat)
    requires pos <= |lines|
    ensures Flatten(Chunks(lines, pos)) == lines[pos..FirstDraft(lines, pos)]
    decreases |lines| - pos
  {
    var (c, next) := ChunkAt(lines, pos);
    if c != [] {
      ChunksPartition(lines, next);
      var cs := Chunks(lines, pos);
      assert cs == [c] + Chunks(lines, next);
      assert cs[1..] == Chunks(lines, next);
      assert FirstDraft(lines, pos) == FirstDraft(lines, next) by {
        FirstDraftSkips(lines, pos, next);
      }
      var d := FirstDraft(lines, pos);
      assert lines[pos..d] == lines[pos..next] + lines[next..d];
    }
  }

  /** Skipping lines that are no draft markers does not move the first draft marker. */
  lemma FirstDraftSkips(lines: seq<string>, pos: nat, next: nat)
    requires pos <= next <= |lines|
    requires forall j :: pos <= j < next ==> !IsDraft(lines[j])
    ensures FirstDraft(lines, pos) == FirstDraft(lines, next)
  {
    var d := FirstDraft(lines, pos);
    var d' := FirstDraft(lines, next);
    assert d' <= |lines| && (d' < |lines| ==> IsDraft(lines[d']));
  }

  /** The shape of a chunked document: no chunk is empty or starts with a draft marker, only a
      chunk's first line may be a header, and every chunk after the first starts with one. */
  lemma {:induction false} ChunksShape(lines: seq<string>, pos: nat)
    requires pos <= |lines|
    ensures var cs := Chunks(lines, pos);
      && (forall k :: 0 <= k < |cs| ==> |cs[k]| > 0 && !IsDraft(cs[k][0]))
      && (forall k, j :: 0 <= k < |cs| && 1 <= j < |cs[k]| ==> !Stops(cs[k][j]))
      && (forall k :: 1 <= k < |cs| ==> IsHeader(cs[k][0]))
      && (|cs| > 0 ==> cs[0][0] == lines[pos])
    decreases |lines| - pos
  {
    var (c, next) := ChunkAt(lines, pos);
    if c != [] {
      ChunksShape(lines, next);
      var cs := Chunks(lines, pos);
      var rest := Chunks(lines, next);
      assert cs == [c] + rest;
      forall k, j | 0 <= k < |cs| && 1 <= j < |cs[k]| ensures !Stops(cs[k][j]) {
        if k == 0 {
          assert cs[0][j] == lines[pos + j];
        } else {
          assert cs[k] == rest[k - 1];
        }
      }
      if |rest| > 0 {
        assert next < |lines| && Stops(lines[next]);
      }
    }
  }

  /** A header-only component is a chunk of its own (`["/meta\n"]`, then `["/introduction"]`). */
  lemma HeaderOnlyComponents()
    ensures Chunks(["/meta\n", "/introduction"], 0) == [["/meta\n"], ["/introduction"]]
  {
    var lines := ["/meta\n", "/introduction"];
    assert Stops(lines[1]);
    assert !IsDraft(lines[0]) by { assert lines[0][..3][0] == '/'; }
    assert !IsDraft(lines[1]) by { assert lines[1][..3][0] == '/'; }
    assert ChunkEnd(lines, 1) == 1 && ChunkEnd(lines, 2) == 2;
    assert lines[0..1] == [lines[0]] && lines[1..2] == [lines[1]];
    assert ChunkAt(lines, 0) == ([lines[0]], 1);
    assert ChunkAt(lines, 1) == ([lines[1]], 2);
    assert ChunkAt(lines, 2) == ([], 2);
  }
}
