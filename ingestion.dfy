/** The PDF ingestion pipeline (`SupabaseVectorStorage`): page text is joined, an LLM turns an
    excerpt into a metadata object, an embedding is made of another excerpt, and a flattened row is
    inserted into the `government_projects` table.

    The PDF reader, the chat model, the embedding endpoint, the table insert and the clock are
    given as a `Services` value of oracles; `None` stands for the exception each call site
    catches. */
module Ingestion {
  import opened Wrappers
  import opened Text
  import opened JsonValues

  datatype Services = Services(
    readPdf: string -> Option<seq<string>>,
    llm: string -> Option<Json>,
    embed: string -> Option<seq<real>>,
    insert: Row -> Option<seq<Row>>,
    now: string)

  // ---------------------------------------------------------------------------------------------
  // Text extraction

  /** Every page's text followed by a line break, in page order. */
  function JoinPages(pages: seq<string>): string {
    if pages == [] then [] else JoinPages(pages[..|pages| - 1]) + pages[|pages| - 1] + "\n"
  }

  /** Joining distributes over concatenation of page lists. With `JoinPagesOne` and the empty
      list this fixes the joined text of any page list. */
  lemma {:induction false} JoinPagesAppend(a: seq<string>, b: seq<string>)
    ensures JoinPages(a + b) == JoinPages(a) + JoinPages(b)
  {
    if b != [] {
      var b' := b[..|b| - 1];
      assert (a + b)[..|a + b| - 1] == a + b';
      JoinPagesAppend(a, b');
    } else {
      assert a + b == a;
    }
  }

  /** One page becomes its text followed by a line break. */
  lemma JoinPagesOne(p: string)
    ensures JoinPages([p]) == p + "\n"
  {
    assert [p][..0] == [];
  }

  /** The joined text is as long as the pages plus one line break each. */
  function TotalLength(pages: seq<string>): nat {
    if pages == [] then 0 else TotalLength(pages[..|pages| - 1]) + |pages[|pages| - 1]|
  }

  lemma {:induction false} JoinPagesLength(pages: seq<string>)
    ensures |JoinPages(pages)| == TotalLength(pages) + |pages|
  {
    if pages != [] {
      JoinPagesLength(pages[..|pages| - 1]);
    }
  }

  /** `extract_text_from_pdf`: the pages' texts accumulated with a line break after each, then
      stripped; `None` when the file cannot be read. */
  method ExtractText(pdfPath: string, svc: Services) returns (text: Option<string>)
    ensures text.None? <==> svc.readPdf(pdfPath).None?
    ensures text.Some? ==> text.value == Strip(JoinPages(svc.readPdf(pdfPath).value))
  {
    var pages := svc.readPdf(pdfPath);
    if pages.None? {
      return None;
    }
    var acc := "";
    for i := 0 to |pages.value|
      invariant acc == JoinPages(pages.value[..i])
    {
      assert pages.value[..i + 1][..i] == pages.value[..i];
      acc := acc + pages.value[i] + "\n";
    }
    assert pages.value[..|pages.value|] == pages.value;
    return Some(Strip(acc));
  }

  // ---------------------------------------------------------------------------------------------
  // Truncation caps

  const PromptCap: nat := 15000
  const EmbeddingCap: nat := 8000
  const ContentCap: nat := 5000

  /** The three excerpts of one text: each is a prefix of it of length min(cap, |text|), and the
      shorter caps give prefixes of the longer ones. */
  lemma ExcerptsSpec(text: string)
    ensures SliceTo(text, PromptCap) <= text && SliceTo(text, EmbeddingCap) <= text && SliceTo(text, ContentCap) <= text
    ensures |SliceTo(text, PromptCap)| == if |text| < PromptCap then |text| else PromptCap
    ensures |SliceTo(text, EmbeddingCap)| == if |text| < EmbeddingCap then |text| else EmbeddingCap
    ensures |SliceTo(text, ContentCap)| == if |text| < ContentCap then |text| else ContentCap
    ensures SliceTo(text, ContentCap) <= SliceTo(text, EmbeddingCap) <= SliceTo(text, PromptCap)
    ensures |text| <= ContentCap ==> SliceTo(text, ContentCap) == SliceTo(text, EmbeddingCap) == SliceTo(text, PromptCap) == text
  {
  }

  // ---------------------------------------------------------------------------------------------
  // Metadata and embedding

  /** `extract_metadata`: the model reads the first 15000 characters; a reply that is a JSON object
      gets `source_file` set to the file name, and anything else (no reply, a reply that is not an
      object, on which the key assignment raises) gives `None`. */
  function ExtractMetadata(text: string, fileName: string, svc: Services): Option<Row> {
    match svc.llm(SliceTo(text, PromptCap))
    case Some(JObj(fields)) => Some(fields["source_file" := JStr(fileName)])
    case _ => None
  }

  /** Metadata that comes back carries the file name under `source_file` whatever the model said,
      keeps every other key of the model's object, and is therefore never an empty (false) dict. */
  lemma ExtractMetadataSpec(text: string, fileName: string, svc: Services)
    ensures var m := ExtractMetadata(text, fileName, svc);
      m.Some? <==> svc.llm(SliceTo(text, PromptCap)).Some? && svc.llm(SliceTo(text, PromptCap)).value.JObj?
    ensures var m := ExtractMetadata(text, fileName, svc);
      m.Some? ==>
        && "source_file" in m.value && m.value["source_file"] == JStr(fileName)
        && Truthy(JObj(m.value))
        && var fields := svc.llm(SliceTo(text, PromptCap)).value.fields;
           m.value.Keys == fields.Keys + {"source_file"}
           && forall k :: k in fields && k != "source_file" ==> m.value[k] == fields[k]
  {
  }

  /** `create_embedding`: the embedding of the first 8000 characters. */
  function CreateEmbedding(text: string, svc: Services): Option<seq<real>> {
    svc.embed(SliceTo(text, EmbeddingCap))
  }

  // ---------------------------------------------------------------------------------------------
  // The stored row

  function EmbeddingJson(e: seq<real>): (j: Json)
    ensures j.JArr? && |j.items| == |e|
    ensures forall i :: 0 <= i < |e| ==> j.items[i] == JNum(e[i])
  {
    JArr(seq(|e|, i requires 0 <= i < |e| => JNum(e[i])))
  }

  /** Metadata keys copied under their own name, defaulting to null. */
  const ScalarKeys: set<string> := {
    "title", "organization", "deadline", "status", "description", "overview",
    "eligibility_target", "support_amount", "source_file"}

  /** Metadata keys copied under their own name, defaulting to the empty list. */
  const ListKeys: set<string> := {
    "tags", "objectives", "eligibility_requirements", "eligibility_restrictions", "support_details"}

  /** The columns of a stored row. */
  const Columns: set<string> :=
    ScalarKeys + ListKeys + {"content", "embedding", "full_deadline", "announcement_date", "created_at"}

  /** The value of one column of `store_to_supabase`'s record. */
  function Column(text: string, metadata: Row, embedding: seq<real>, now: string, k: string): Json {
    if k in ScalarKeys then Get(metadata, k, JNull)
    else if k in ListKeys then Get(metadata, k, JArr([]))
    else if k == "full_deadline" then Get(metadata, "fullDeadline", JNull)
    else if k == "announcement_date" then Get(metadata, "date", JNull)
    else if k == "content" then JStr(SliceTo(text, ContentCap))
    else if k == "embedding" then EmbeddingJson(embedding)
    else JStr(now)
  }

  /** `store_to_supabase`'s record: the metadata flattened into the table's columns. */
  function Flatten(text: string, metadata: Row, embedding: seq<real>, now: string): Row {
    map k | k in Columns :: Column(text, metadata, embedding, now, k)
  }

  /** The row has exactly the table's columns, whatever keys the metadata has. */
  lemma FlattenColumns(text: string, metadata: Row, embedding: seq<real>, now: string)
    ensures Flatten(text, metadata, embedding, now).Keys == Columns
    ensures forall k :: k in metadata && k !in Columns ==> k !in Flatten(text, metadata, embedding, now)
  {
  }

  /** Keys copied under their own name: an absent scalar becomes null, an absent list becomes [],
      and a value that is present, even null, is copied as it is. */
  lemma FlattenCopies(text: string, metadata: Row, embedding: seq<real>, now: string)
    ensures var row := Flatten(text, metadata, embedding, now);
      && (forall k :: k in ScalarKeys ==> row[k] == if k in metadata then metadata[k] else JNull)
      && (forall k :: k in ListKeys ==> row[k] == if k in metadata then metadata[k] else JArr([]))
  {
    var row := Flatten(text, metadata, embedding, now);
    forall k | k in ListKeys ensures row[k] == if k in metadata then metadata[k] else JArr([]) {
      assert k !in ScalarKeys by {
        assert |k| in {4, 10, 24, 15};
      }
    }
  }

  /** `fullDeadline` and `date` are renamed. */
  lemma FlattenRenames(text: string, metadata: Row, embedding: seq<real>, now: string)
    ensures var row := Flatten(text, metadata, embedding, now);
      && row["full_deadline"] == (if "fullDeadline" in metadata then metadata["fullDeadline"] else JNull)
      && row["announcement_date"] == (if "date" in metadata then metadata["date"] else JNull)
  {
  }

  /** The text excerpt, the embedding and the clock fill the three computed columns. */
  lemma FlattenComputed(text: string, metadata: Row, embedding: seq<real>, now: string)
    ensures var row := Flatten(text, metadata, embedding, now);
      && row["content"] == JStr(SliceTo(text, ContentCap))
      && row["embedding"] == EmbeddingJson(embedding)
      && row["created_at"] == JStr(now)
  {
  }

  /** A list column the model explicitly set to null stays null: the default applies only to a
      missing key. */
  lemma FlattenKeepsExplicitNull(text: string, metadata: Row, embedding: seq<real>, now: string, k: string)
    requires k in ListKeys && k in metadata && metadata[k] == JNull
    ensures Flatten(text, metadata, embedding, now)[k] == JNull
  {
    FlattenCopies(text, metadata, embedding, now);
  }

  /** `store_to_supabase`: insert the row and return the first row the table sends back. */
  function StoreRow(row: Row, svc: Services): Option<Row> {
    match svc.insert(row)
    case None => None
    case Some(rows) => if rows == [] then None else Some(rows[0])
  }

  // ---------------------------------------------------------------------------------------------
  // One file

  /** An external call made while processing a file. */
  datatype Call = ReadPdf(path: string) | AskLlm(excerpt: string) | Embed(input: string) | Insert(row: Row)

  /** How processing a file ends: a stored row, nothing, or an exception that escapes. */
  datatype Outcome = Stored(row: Row) | NotStored | Crashed

  datatype Run = Run(outcome: Outcome, calls: seq<Call>)

  /** Slicing `metadata.get('title', 'N/A')` for the progress line works on a string or a list; any
      other present value (null, a number, a boolean, an object) raises outside every `try`. */
  predicate TitleSliceable(metadata: Row) {
    "title" !in metadata || metadata["title"].JStr? || metadata["title"].JArr?
  }

  /** The last stage: the flattened row is inserted, and a non-empty returned row counts as
      stored. */
  function InsertStage(text: string, metadata: Row, embedding: seq<real>, svc: Services): Run {
    var row := Flatten(text, metadata, embedding, svc.now);
    var outcome :=
      match StoreRow(row, svc)
      case Some(r) => if r != map[] then Stored(r) else NotStored
      case None => NotStored;
    Run(outcome, [Insert(row)])
  }

  /** The embedding stage: an empty or missing embedding stops before the insert. */
  function EmbedStage(text: string, metadata: Row, svc: Services): Run {
    var embedding := CreateEmbedding(text, svc);
    var rest :=
      if embedding.None? || embedding.value == [] then Run(NotStored, [])
      else InsertStage(text, metadata, embedding.value, svc);
    Run(rest.outcome, [Embed(SliceTo(text, EmbeddingCap))] + rest.calls)
  }

  /** The metadata stage: missing metadata stops before the embedding, and a title that cannot be
      sliced raises. */
  function MetadataStage(text: string, fileName: string, svc: Services): Run {
    var call := AskLlm(SliceTo(text, PromptCap));
    match ExtractMetadata(text, fileName, svc)
    case None => Run(NotStored, [call])
    case Some(metadata) =>
      if !TitleSliceable(metadata) then Run(Crashed, [call])
      else
        var rest := EmbedStage(text, metadata, svc);
        Run(rest.outcome, [call] + rest.calls)
  }

  /** The text `extract_text_from_pdf` returns. */
  function PdfText(pdfPath: string, svc: Services): Option<string> {
    match svc.readPdf(pdfPath)
    case None => None
    case Some(pages) => Some(Strip(JoinPages(pages)))
  }

  /** `process_pdf_file`: each stage runs only when the one before succeeded. */
  function ProcessPdf(pdfPath: string, svc: Services): Run {
    match PdfText(pdfPath, svc)
    case None => Run(NotStored, [ReadPdf(pdfPath)])
    case Some(text) =>
      if text == [] then Run(NotStored, [ReadPdf(pdfPath)])
      else
        var rest := MetadataStage(text, BaseName(pdfPath), svc);
        Run(rest.outcome, [ReadPdf(pdfPath)] + rest.calls)
  }

  /** The insert is given the flattened row, and only a non-empty returned row counts. */
  lemma InsertStageSpec(text: string, metadata: Row, embedding: seq<real>, svc: Services)
    ensures var run := InsertStage(text, metadata, embedding, svc);
      && run.calls == [Insert(Flatten(text, metadata, embedding, svc.now))]
      && (run.outcome.Stored? <==>
            StoreRow(Flatten(text, metadata, embedding, svc.now), svc).Some?
            && StoreRow(Flatten(text, metadata, embedding, svc.now), svc).value != map[])
      && (run.outcome.Stored? ==> Truthy(JObj(run.outcome.row)))
      && !run.outcome.Crashed?
  {
  }

  /** The embedder is asked once; the insert follows exactly when the embedding is non-empty. */
  lemma EmbedStageSpec(text: string, metadata: Row, svc: Services)
    ensures var run := EmbedStage(text, metadata, svc);
      && 1 <= |run.calls| <= 2
      && run.calls[0] == Embed(SliceTo(text, EmbeddingCap))
      && (|run.calls| == 2 <==> CreateEmbedding(text, svc).Some? && CreateEmbedding(text, svc).value != [])
      && (run.outcome.Stored? ==> |run.calls| == 2)
      && !run.outcome.Crashed?
  {
  }

  /** The model is asked once; the embedding follows exactly when metadata came back with a title
      that can be sliced, and the run crashes exactly when the title cannot be. */
  lemma MetadataStageSpec(text: string, fileName: string, svc: Services)
    ensures var run := MetadataStage(text, fileName, svc);
      && 1 <= |run.calls| <= 3
      && run.calls[0] == AskLlm(SliceTo(text, PromptCap))
      && (|run.calls| >= 2 <==>
            ExtractMetadata(text, fileName, svc).Some? && TitleSliceable(ExtractMetadata(text, fileName, svc).value))
      && (run.outcome.Crashed? <==>
            ExtractMetadata(text, fileName, svc).Some? && !TitleSliceable(ExtractMetadata(text, fileName, svc).value))
      && (run.outcome.Stored? ==> |run.calls| == 3)
  {
    if ExtractMetadata(text, fileName, svc).Some? && TitleSliceable(ExtractMetadata(text, fileName, svc).value) {
      EmbedStageSpec(text, ExtractMetadata(text, fileName, svc).value, svc);
    }
  }

  /** The stages short-circuit: unreadable or empty text stops before the model is asked, missing
      metadata before the embedding, an empty or missing embedding before the insert, and a row is
      reported only after all four calls, when the insert returned a non-empty one. */
  lemma ProcessPdfShortCircuit(pdfPath: string, svc: Services)
    ensures var run := ProcessPdf(pdfPath, svc);
      && 1 <= |run.calls| <= 4
      && run.calls[0] == ReadPdf(pdfPath)
      && (|run.calls| >= 2 <==> PdfText(pdfPath, svc).Some? && PdfText(pdfPath, svc).value != [])
      && (run.outcome.Stored? ==> |run.calls| == 4 && Truthy(JObj(run.outcome.row)))
  {
    match PdfText(pdfPath, svc)
    case None =>
    case Some(text) =>
      if text != [] {
        MetadataStageSpec(text, BaseName(pdfPath), svc);
      }
  }

  /** The row handed to the table records the PDF's base name as `source_file` and the first 5000
      characters of the extracted text as `content`. */
  lemma InsertedRow(text: string, fileName: string, svc: Services)
    requires ExtractMetadata(text, fileName, svc).Some?
    ensures forall e: seq<real> ::
      var row := Flatten(text, ExtractMetadata(text, fileName, svc).value, e, svc.now);
      row["source_file"] == JStr(fileName) && row["content"] == JStr(SliceTo(text, ContentCap))
  {
    var metadata := ExtractMetadata(text, fileName, svc).value;
    ExtractMetadataSpec(text, fileName, svc);
    forall e: seq<real>
      ensures Flatten(text, metadata, e, svc.now)["source_file"] == JStr(fileName)
      ensures Flatten(text, metadata, e, svc.now)["content"] == JStr(SliceTo(text, ContentCap))
    {
      FlattenCopies(text, metadata, e, svc.now);
      FlattenComputed(text, metadata, e, svc.now);
    }
  }

  /** A file that reaches the insert hands the table a row whose `source_file` is the PDF's base
      name and whose `content` is the first 5000 characters of its text. */
  lemma ProcessPdfInsertedRow(pdfPath: string, svc: Services)
    ensures var run := ProcessPdf(pdfPath, svc);
      |run.calls| == 4 ==>
        && run.calls[3].Insert?
        && run.calls[3].row["source_file"] == JStr(BaseName(pdfPath))
        && run.calls[3].row["content"] == JStr(SliceTo(PdfText(pdfPath, svc).value, ContentCap))
  {
    var run := ProcessPdf(pdfPath, svc);
    if |run.calls| == 4 {
      ProcessPdfShortCircuit(pdfPath, svc);
      var text := PdfText(pdfPath, svc).value;
      var fileName := BaseName(pdfPath);
      MetadataStageSpec(text, fileName, svc);
      var metadata := ExtractMetadata(text, fileName, svc).value;
      EmbedStageSpec(text, metadata, svc);
      var embedding := CreateEmbedding(text, svc).value;
      InsertStageSpec(text, metadata, embedding, svc);
      InsertedRow(text, fileName, svc);
      assert run.calls[3] == Insert(Flatten(text, metadata, embedding, svc.now));
    }
  }

  // ---------------------------------------------------------------------------------------------
  // A directory

  /** One file found by `os.walk`: the directory it was found in and its name. */
  datatype Entry = Entry(root: string, name: string)

  predicate IsPdfName(name: string) {
    EndsWith(Lower(name), ".pdf")
  }

  /** The paths of the entries whose lower-cased name ends in ".pdf", in discovery order. */
  function PdfFiles(entries: seq<Entry>): (r: seq<string>)
    ensures |r| <= |entries|
  {
    if entries == [] then []
    else
      var e := entries[|entries| - 1];
      PdfFiles(entries[..|entries| - 1]) + (if IsPdfName(e.name) then [PathJoin(e.root, e.name)] else [])
  }

  /** Exactly the PDF entries are selected, each once and in order. */
  lemma {:induction false} PdfFilesSpec(entries: seq<Entry>)
    ensures PdfFiles(entries) == seq(|PdfOnly(entries)|, i requires 0 <= i < |PdfOnly(entries)| =>
      PathJoin(PdfOnly(entries)[i].root, PdfOnly(entries)[i].name))
  {
    if entries != [] {
      PdfFilesSpec(entries[..|entries| - 1]);
    }
  }

  /** The entries whose name passes the ".pdf" test, in order. */
  function PdfOnly(entries: seq<Entry>): (r: seq<Entry>)
    ensures |r| <= |entries|
    ensures forall e :: e in r ==> e in entries && IsPdfName(e.name)
    ensures forall e :: e in entries && IsPdfName(e.name) ==> e in r
  {
    if entries == [] then []
    else
      var e := entries[|entries| - 1];
      PdfOnly(entries[..|entries| - 1]) + (if IsPdfName(e.name) then [e] else [])
  }

  /** Selecting PDFs works entry by entry and keeps discovery order: the selection of two entry
      lists put together is the selection of the first followed by that of the second. */
  lemma {:induction false} PdfOnlyAppend(a: seq<Entry>, b: seq<Entry>)
    ensures PdfOnly(a + b) == PdfOnly(a) + PdfOnly(b)
  {
    if b != [] {
      var b' := b[..|b| - 1];
      assert (a + b)[..|a + b| - 1] == a + b';
      PdfOnlyAppend(a, b');
    } else {
      assert a + b == a;
    }
  }

  /** One entry is kept exactly when its name passes the ".pdf" test. */
  lemma PdfOnlyOne(e: Entry)
    ensures PdfOnly([e]) == if IsPdfName(e.name) then [e] else []
  {
    assert [e][..0] == [];
  }

  /** How `process_directory` ends: a success count, or the exception from processing a file. */
  datatype DirResult = Count(n: nat) | Raised(path: string)

  /** How processing each file ends. */
  function Outcomes(svc: Services): string -> Outcome {
    pdfPath => ProcessPdf(pdfPath, svc).outcome
  }

  /** The result of processing the given PDFs in order, given how each one ends. */
  function ProcessAll(pdfs: seq<string>, process: string -> Outcome): DirResult {
    if pdfs == [] then Count(0)
    else
      match ProcessAll(pdfs[..|pdfs| - 1], process)
      case Raised(p) => Raised(p)
      case Count(n) =>
        var last := pdfs[|pdfs| - 1];
        match process(last)
        case Crashed => Raised(last)
        case Stored(_) => Count(n + 1)
        case NotStored => Count(n)
  }

  /** The files that end stored. */
  function StoredCount(pdfs: seq<string>, process: string -> Outcome): nat {
    if pdfs == [] then 0
    else StoredCount(pdfs[..|pdfs| - 1], process) + (if process(pdfs[|pdfs| - 1]).Stored? then 1 else 0)
  }

  lemma {:induction false} StoredCountBound(pdfs: seq<string>, process: string -> Outcome)
    ensures StoredCount(pdfs, process) <= |pdfs|
    ensures StoredCount(pdfs, process) == |pdfs| <==> forall i :: 0 <= i < |pdfs| ==> process(pdfs[i]).Stored?
  {
    if pdfs != [] {
      var init := pdfs[..|pdfs| - 1];
      StoredCountBound(init, process);
      assert forall i :: 0 <= i < |init| ==> init[i] == pdfs[i];
    }
  }

  /** Without a crash, the count is the number of stored files: at most the number of PDFs, and
      equal to it exactly when every file was stored. */
  lemma {:induction false} ProcessAllCount(pdfs: seq<string>, process: string -> Outcome)
    ensures ProcessAll(pdfs, process).Count? ==> ProcessAll(pdfs, process).n == StoredCount(pdfs, process)
    ensures ProcessAll(pdfs, process).Count? ==>
      && ProcessAll(pdfs, process).n <= |pdfs|
      && (ProcessAll(pdfs, process).n == |pdfs| <==> forall i :: 0 <= i < |pdfs| ==> process(pdfs[i]).Stored?)
  {
    if pdfs != [] {
      ProcessAllCount(pdfs[..|pdfs| - 1], process);
    }
    StoredCountBound(pdfs, process);
  }

  /** An escaping exception names a file whose processing crashed, and there is one exactly when
      some file crashes. */
  lemma {:induction false} ProcessAllRaised(pdfs: seq<string>, process: string -> Outcome)
    ensures ProcessAll(pdfs, process).Raised? ==>
      ProcessAll(pdfs, process).path in pdfs && process(ProcessAll(pdfs, process).path).Crashed?
    ensures ProcessAll(pdfs, process).Raised? <==> exists i :: 0 <= i < |pdfs| && process(pdfs[i]).Crashed?
  {
    if pdfs != [] {
      var init := pdfs[..|pdfs| - 1];
      ProcessAllRaised(init, process);
      if exists i :: 0 <= i < |init| && process(init[i]).Crashed? {
        var i :| 0 <= i < |init| && process(init[i]).Crashed?;
        assert pdfs[i] == init[i];
      }
      if exists i :: 0 <= i < |pdfs| && process(pdfs[i]).Crashed? {
        var i :| 0 <= i < |pdfs| && process(pdfs[i]).Crashed?;
        if i < |init| {
          assert init[i] == pdfs[i];
        }
      }
    }
  }

  lemma ProcessAllStep(pdfs: seq<string>, k: nat, n: nat, process: string -> Outcome)
    requires k < |pdfs| && ProcessAll(pdfs[..k], process) == Count(n)
    ensures ProcessAll(pdfs[..k + 1], process) ==
      if process(pdfs[k]).Crashed? then Raised(pdfs[k])
      else if process(pdfs[k]).Stored? then Count(n + 1)
      else Count(n)
  {
    assert pdfs[..k + 1][..k] == pdfs[..k];
  }

  /** Once a file crashes, the files after it are never processed. */
  lemma {:induction false} RaisedSticks(pdfs: seq<string>, k: nat, process: string -> Outcome)
    requires k <= |pdfs| && ProcessAll(pdfs[..k], process).Raised?
    decreases |pdfs| - k
    ensures ProcessAll(pdfs, process) == ProcessAll(pdfs[..k], process)
  {
    if k < |pdfs| {
      assert pdfs[..k + 1][..k] == pdfs[..k];
      RaisedSticks(pdfs, k + 1, process);
    } else {
      assert pdfs[..k] == pdfs;
    }
  }

  /** `process_directory`: select the PDFs, then process each once in order, counting the files
      that returned a row. */
  method ProcessDirectory(entries: seq<Entry>, svc: Services) returns (result: DirResult, pdfFiles: seq<string>)
    ensures pdfFiles == PdfFiles(entries)
    ensures result == ProcessAll(pdfFiles, Outcomes(svc))
  {
    pdfFiles := [];
    for i := 0 to |entries|
      invariant pdfFiles == PdfFiles(entries[..i])
    {
      assert entries[..i + 1][..i] == entries[..i];
      var file := entries[i];
      if EndsWith(Lower(file.name), ".pdf") {
        pdfFiles := pdfFiles + [PathJoin(file.root, file.name)];
      }
    }
    assert entries[..|entries|] == entries;
    var successCount := 0;
    for idx := 0 to |pdfFiles|
      invariant ProcessAll(pdfFiles[..idx], Outcomes(svc)) == Count(successCount)
    {
      var pdfPath := pdfFiles[idx];
      var run := ProcessPdf(pdfPath, svc);
      assert Outcomes(svc)(pdfPath) == run.outcome;
      ProcessAllStep(pdfFiles, idx, successCount, Outcomes(svc));
      if run.outcome.Crashed? {
        RaisedSticks(pdfFiles, idx + 1, Outcomes(svc));
        return Raised(pdfPath), pdfFiles;
      }
      if run.outcome.Stored? {
        successCount := successCount + 1;
      }
    }
    assert pdfFiles[..|pdfFiles|] == pdfFiles;
    return Count(successCount), pdfFiles;
  }
}
