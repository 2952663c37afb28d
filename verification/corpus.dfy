/**
 * The server's global state: `docs`, the list of `(file, chunk text)` pairs,
 * and the vector index built over them, with the transitions `upload`,
 * `build` and `reset`. Embeddings are a function of a chunk's text computed
 * by a remote service, so the index is modelled by the chunk texts it was
 * built from, row by row.
 */
module Corpus {
  import opened Util
  import opened Strings
  import opened Chunking

  /** One entry of `docs`: a chunk and the name of the file it came from. */
  datatype Doc = Doc(file: string, text: string)

  /** `docs` plus the index (`None` until the first successful build). */
  datatype State = State(docs: seq<Doc>, index: Option<seq<string>>)

  /** A file as `upload` sees it after text extraction. */
  datatype UploadedFile = UploadedFile(name: string, text: string)

  datatype UploadReply = UploadReply(files: nat, chunksAdded: nat, totalChunks: nat)

  /** `chunks` is the number of chunks indexed; `noDocuments` marks the
      reply that asks the user to upload files first. */
  datatype BuildReply = BuildReply(chunks: nat, noDocuments: bool)

  /** The state at start-up and after `reset`. */
  const Empty: State := State([], None)

  /** Every reachable state: an index exists only over a non-empty prefix
      of `docs`, and its row `j` holds the text of `docs[j]`. */
  predicate Inv(s: State)
  {
    s.index.Some? ==>
      var rows := s.index.value;
      0 < |rows| <= |s.docs| &&
      forall j :: 0 <= j < |rows| ==> rows[j] == s.docs[j].text
  }

  /** The texts of `docs`, in order: `[c for _, c in docs]`. */
  function Texts(docs: seq<Doc>): (ts: seq<string>)
    ensures |ts| == |docs|
    ensures forall j :: 0 <= j < |docs| ==> ts[j] == docs[j].text
  {
    seq(|docs|, j requires 0 <= j < |docs| => docs[j].text)
  }

  /** Without an index there is nothing to search; with no documents there
      is never an index. */
  lemma NoDocsNoIndex(s: State)
    requires Inv(s) && s.docs == []
    ensures s.index == None
  {
  }

  // ----- upload -----
  // `chunkText` stands for `chunk_text`; `Chunking.ChunkTextOf` is its model.

  /** `(name, c)` for every chunk `c`, in order. */
  function Label(name: string, cs: seq<string>): (ds: seq<Doc>)
    ensures |ds| == |cs|
    ensures forall m :: 0 <= m < |cs| ==> ds[m] == Doc(name, cs[m])
  {
    seq(|cs|, m requires 0 <= m < |cs| => Doc(name, cs[m]))
  }

  lemma LabelSnoc(name: string, cs: seq<string>, j: nat)
    requires j < |cs|
    ensures Label(name, cs[..j + 1]) == Label(name, cs[..j]) + [Doc(name, cs[j])]
  {
    assert Label(name, cs[..j + 1]) == Label(name, cs[..j]) + [Doc(name, cs[j])];
  }

  /** The chunks one file contributes: none when its text strips to
      nothing, otherwise every chunk of its text. */
  function FileChunks(f: UploadedFile, chunkText: string -> seq<string>): seq<string>
  {
    if IsBlank(f.text) then [] else chunkText(f.text)
  }

  /** The entries one file adds: one `(name, chunk)` pair per chunk it
      contributes. */
  function FileEntries(f: UploadedFile, chunkText: string -> seq<string>): seq<Doc>
  {
    Label(f.name, FileChunks(f, chunkText))
  }

  /** The entries the first `i` files of a batch add, file after file. */
  function EntriesUpTo(files: seq<UploadedFile>, i: nat, chunkText: string -> seq<string>): seq<Doc>
    requires i <= |files|
  {
    if i == 0 then []
    else EntriesUpTo(files, i - 1, chunkText) + FileEntries(files[i - 1], chunkText)
  }

  /** Appending one more file's entries to a prefix of the batch. */
  lemma EntriesUpToStep(docs: seq<Doc>, files: seq<UploadedFile>, i: nat,
                        chunkText: string -> seq<string>)
    requires i < |files|
    ensures docs + EntriesUpTo(files, i + 1, chunkText)
         == (docs + EntriesUpTo(files, i, chunkText)) + FileEntries(files[i], chunkText)
  {
    AppendAssoc(docs, EntriesUpTo(files, i, chunkText), FileEntries(files[i], chunkText));
  }

  /** The entries a whole batch of files adds. */
  function Entries(files: seq<UploadedFile>, chunkText: string -> seq<string>): seq<Doc>
  {
    EntriesUpTo(files, |files|, chunkText)
  }

  /** A file whose text is all whitespace adds nothing; any other file adds
      exactly its chunks, in order, each labelled with the file's name. */
  lemma FileEntriesShape(f: UploadedFile, chunkText: string -> seq<string>)
    ensures IsBlank(f.text) ==> FileEntries(f, chunkText) == []
    ensures !IsBlank(f.text) ==> |FileEntries(f, chunkText)| == |chunkText(f.text)|
    ensures forall m :: 0 <= m < |FileEntries(f, chunkText)| ==>
              FileEntries(f, chunkText)[m] == Doc(f.name, chunkText(f.text)[m])
  {
    StripEmptyIffBlank(f.text);
  }

  /** Entry `e` of what the first `i` files add comes from one of those
      files: it carries that file's name and is one of that file's chunks. */
  lemma {:induction false} EntryOrigin(files: seq<UploadedFile>, i: nat, e: nat,
                                       chunkText: string -> seq<string>)
    requires i <= |files| && e < |EntriesUpTo(files, i, chunkText)|
    ensures exists k :: 0 <= k < i &&
              EntriesUpTo(files, i, chunkText)[e].file == files[k].name &&
              EntriesUpTo(files, i, chunkText)[e].text in FileChunks(files[k], chunkText)
  {
    var before := EntriesUpTo(files, i - 1, chunkText);
    var fe := FileEntries(files[i - 1], chunkText);
    assert EntriesUpTo(files, i, chunkText) == before + fe;
    if e < |before| {
      EntryOrigin(files, i - 1, e, chunkText);
      var k :| 0 <= k < i - 1 && before[e].file == files[k].name &&
               before[e].text in FileChunks(files[k], chunkText);
      assert EntriesUpTo(files, i, chunkText)[e] == before[e];
    } else {
      assert EntriesUpTo(files, i, chunkText)[e] == fe[e - |before|];
      assert fe[e - |before|].text == FileChunks(files[i - 1], chunkText)[e - |before|];
    }
  }

  /** With the real chunker every uploaded entry is a non-empty, stripped
      chunk of the file whose name it carries. */
  lemma UploadedEntryWellFormed(files: seq<UploadedFile>, e: nat,
                                encode: string -> seq<Token>, decode: seq<Token> -> string)
    requires e < |Entries(files, ChunkTextOf(encode, decode))|
    ensures var d := Entries(files, ChunkTextOf(encode, decode))[e];
            d.text != [] && IsStripped(d.text) &&
            exists k :: 0 <= k < |files| && d.file == files[k].name &&
                        d.text in Chunks(encode(files[k].text), decode)
  {
    var chunkText := ChunkTextOf(encode, decode);
    var d := Entries(files, chunkText)[e];
    EntryOrigin(files, |files|, e, chunkText);
    var k :| 0 <= k < |files| && d.file == files[k].name && d.text in FileChunks(files[k], chunkText);
    assert FileChunks(files[k], chunkText) == [] || FileChunks(files[k], chunkText) == chunkText(files[k].text);
    assert chunkText(files[k].text) == Chunks(encode(files[k].text), decode);
    var m :| 0 <= m < |Chunks(encode(files[k].text), decode)| && Chunks(encode(files[k].text), decode)[m] == d.text;
    ChunkFromWindow(encode(files[k].text), decode, m);
  }

  /** The blank-text test of `upload`: the chunks of a file, or none when
      its text strips to nothing. */
  method ChunksToAdd(f: UploadedFile, chunkText: string -> seq<string>) returns (cs: seq<string>)
    ensures cs == FileChunks(f, chunkText)
    ensures IsBlank(f.text) ==> cs == []
    ensures !IsBlank(f.text) ==> cs == chunkText(f.text)
  {
    StripEmptyIffBlank(f.text);
    if Strip(f.text) == [] {
      cs := [];
    } else {
      cs := chunkText(f.text);
    }
  }

  /** The inner loop of `upload`: append `(name, c)` for every chunk `c`,
      counting the appends. */
  method AppendChunks(docs: seq<Doc>, name: string, cs: seq<string>) returns (docs': seq<Doc>, added: nat)
    ensures docs' == docs + Label(name, cs)
    ensures added == |cs|
  {
    docs' := docs;
    added := 0;
    var j := 0;
    while j < |cs|
      invariant j <= |cs|
      invariant docs' == docs + Label(name, cs[..j])
      invariant added == j
    {
      LabelSnoc(name, cs, j);
      AppendAssoc(docs, Label(name, cs[..j]), [Doc(name, cs[j])]);
      docs' := docs' + [Doc(name, cs[j])];
      added := added + 1;
      j := j + 1;
    }
    assert cs[..j] == cs;
  }

  /** One iteration of `upload`'s outer loop: the file's entries are
      appended and counted. */
  method UploadFile(docs: seq<Doc>, f: UploadedFile, chunkText: string -> seq<string>)
    returns (docs': seq<Doc>, added: nat)
    ensures docs' == docs + FileEntries(f, chunkText)
    ensures added == |FileEntries(f, chunkText)|
  {
    var cs := ChunksToAdd(f, chunkText);
    docs', added := AppendChunks(docs, f.name, cs);
  }

  /** `upload`: each file's chunks are appended to `docs` in order; files
      whose text strips to nothing are skipped; the index is not touched.
      The reply counts the files, the entries added and the new total. */
  method Upload(s: State, files: seq<UploadedFile>, chunkText: string -> seq<string>)
    returns (s': State, reply: UploadReply)
    ensures s'.docs == s.docs + Entries(files, chunkText)
    ensures s'.index == s.index
    ensures reply.files == |files|
    ensures reply.chunksAdded == |s'.docs| - |s.docs|
    ensures reply.totalChunks == |s'.docs|
    ensures Inv(s) ==> Inv(s')
  {
    var docs := s.docs;
    var added := 0;
    var i := 0;
    while i < |files|
      invariant i <= |files|
      invariant docs == s.docs + EntriesUpTo(files, i, chunkText)
      invariant added == |docs| - |s.docs|
    {
      EntriesUpToStep(s.docs, files, i, chunkText);
      var more, n := UploadFile(docs, files[i], chunkText);
      docs := more;
      added := added + n;
      i := i + 1;
    }
    s' := State(docs, s.index);
    reply := UploadReply(|files|, added, |docs|);
    if Inv(s) {
      assert s'.docs[..|s.docs|] == s.docs;
      UploadKeepsRows(s, s');
    }
  }

  /** Uploading only appends: existing entries keep their positions, so every
      index row still resolves to the chunk it was built from, and the state
      stays consistent. */
  lemma UploadKeepsRows(s: State, s': State)
    requires Inv(s)
    requires s'.index == s.index && |s'.docs| >= |s.docs| && s'.docs[..|s.docs|] == s.docs
    ensures Inv(s')
    ensures forall j :: 0 <= j < |s.docs| ==> s'.docs[j] == s.docs[j]
  {
    forall j | 0 <= j < |s.docs|
      ensures s'.docs[j] == s.docs[j]
    {
      assert s'.docs[..|s.docs|][j] == s'.docs[j];
    }
  }

  /** `upload` appends file by file, so a request that stops part-way, after
      the first `i` files, still leaves a consistent state: `docs` extended
      by the entries of those files and the index untouched. */
  lemma UploadPrefixConsistent(s: State, files: seq<UploadedFile>, i: nat,
                               chunkText: string -> seq<string>)
    requires Inv(s) && i <= |files|
    ensures Inv(State(s.docs + EntriesUpTo(files, i, chunkText), s.index))
  {
  }

  /** A file whose text is not blank and which the chunker keeps as a
      single chunk adds exactly one entry, that text under the file's name. */
  lemma SingleChunkFile(f: UploadedFile, chunkText: string -> seq<string>)
    requires !IsBlank(f.text) && chunkText(f.text) == [f.text]
    ensures Entries([f], chunkText) == [Doc(f.name, f.text)]
  {
    assert FileChunks(f, chunkText) == [f.text];
    assert Label(f.name, [f.text]) == [Doc(f.name, f.text)];
    assert Entries([f], chunkText) == EntriesUpTo([f], 0, chunkText) + FileEntries([f][0], chunkText);
  }

  // ----- build -----

  /** `build`: with no documents, a "nothing to index" reply and no change;
      otherwise the index is rebuilt over every entry of `docs`, in order. */
  function Build(s: State): (r: (State, BuildReply))
    ensures r.0.docs == s.docs
    ensures r.1.chunks == |s.docs|
    ensures r.1.noDocuments <==> s.docs == []
    ensures s.docs == [] ==> r.0.index == s.index
    ensures s.docs != [] ==>
              && r.0.index.Some?
              && |r.0.index.value| == |s.docs|
              && forall j :: 0 <= j < |s.docs| ==> r.0.index.value[j] == s.docs[j].text
  {
    if s.docs == [] then (s, BuildReply(0, true))
    else (State(s.docs, Some(Texts(s.docs))), BuildReply(|s.docs|, false))
  }

  /** Building keeps the state consistent, and building twice is the same as
      building once. */
  lemma BuildProperties(s: State)
    requires Inv(s)
    ensures Inv(Build(s).0)
    ensures Build(Build(s).0).0 == Build(s).0
  {
  }

  // ----- reset -----

  /** `reset`: forget every document and the index. */
  function Reset(s: State): (r: State)
    ensures r.docs == [] && r.index.None?
    ensures Inv(r)
  {
    Empty
  }
}
