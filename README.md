# Government support-programme notices: crawler, PDF ingestion and search API

This project models the deterministic core of a small pipeline about government support
programmes. It has three stages:

- **The crawler** (`nrf_crawler.py`, class `MSSCrawler`) walks the paginated notice board of the
  Ministry of SMEs and Startups site. It works out how many pages there are and parses each
  listing row into a notice with its attachments. It cuts each page to a number of notices and
  downloads every attachment into a per-notice folder. File names are cleaned and guessed, and a
  `Content-Disposition` header can rename a download.
- **The ingestion script** (`pdf_to_structured_data.py`, class `SupabaseVectorStorage`) reads
  each PDF's text. It asks a chat model for a metadata object, asks an embedding endpoint for a
  vector, flattens all three into a row and inserts the row into the `government_projects`
  table. Each stage runs only when the one before it succeeded, and the script counts the PDFs
  it stored.
- **The API** (`main.py`) serves rows of that table. It offers a project's detail, the newest
  projects, a filtered list and statistics by organisation.

The model is written in Dafny, in five modules plus a small `Option` module:

- `Text` holds the Python string and path operations the code relies on: `strip`, slicing,
  `in`, `split(...)[-1]`, `isdigit`, `int`, `lower`, `os.path.join` and `os.path.basename`.
- `JsonValues` holds JSON values, dict rows, truthiness and `dict.get`.
- `Crawler` models `nrf_crawler.py`.
- `Ingestion` models `pdf_to_structured_data.py`.
- `Api` models `main.py`.

Every outside effect becomes an input:

- A crawled page is given as the strings the parser would extract from it: the `.list_info`
  text, the pagination labels and, for each row, its cells and the `data-href` of each
  attachment span.
- The network is a function from page number or URL to a response.
- The filesystem is the set of paths that exist.
- The PDF reader, the chat model, the embedding endpoint and the table insert are functions in one
  record. Each returns `None` where the source catches an exception. The clock's value is a
  string field of the same record.
- The database the API reads is a sequence of rows, newest first, or an error message.

Code that updates state step by step is modelled as methods with loops. Each such method is
proved equal to a specification function:

- `GetTotalPages`, `GetNoticeListWithFiles`, `DownloadFile` and `CrawlAndDownload` in the crawler.
- `ExtractText` and `ProcessDirectory` in ingestion.
- The four handlers and the organisation count in the API.

Properties of those functions are then proved as lemmas.

Two hazards in the source are made explicit:

- The crawl loop reads `notice['title']` for every kept notice, but a row without a title link
  has no `title`. `CrawlAndDownload` therefore requires every notice the crawl keeps to have a
  title (`CrawlTitled`). The run that would raise `KeyError` is not modelled.
- `process_pdf_file` slices `metadata.get('title', 'N/A')` outside every `try`. A null,
  numeric, boolean or object title raises, and the exception leaves `process_directory`. The
  model makes this the `Crashed` outcome and the `Raised(path)` result of the directory run.

## Model

| member | source | states |
|---|---|---|
| Crawler.ReplaceIllegal | nrf_crawler.py:129 | each of the nine characters `<>:"/\|?*` becomes `_`; every other character stays, at the same position |
| Crawler.Sanitize | nrf_crawler.py:129 | the cleaning of a name: its contract is stated by `SanitizeSpec` and `SanitizeLegal` |
| Crawler.SanitizeSpec | nrf_crawler.py:129 | a cleaned name holds none of the nine characters; a name without them is only stripped; cleaning twice equals cleaning once |
| Crawler.GuessedName | nrf_crawler.py:129-147 | the name used before any header: its contract is stated by `GuessedNameSpec`, `GuessExtensionSpec`, `HwpxNeverGuessed` and `GuessedNameHasNoSlash` |
| Crawler.HwpxNeverGuessed | nrf_crawler.py:134-143 | the guessed extension is never ".hwpx": a URL holding ".hwpx" holds ".hwp", which is tested first |
| Crawler.GuessExtensionSpec | nrf_crawler.py:134-145 | the extension is the first of ".hwp", ".pdf", ".xlsx", ".docx" that the URL contains; it is "" exactly when the URL contains none of the four |
| Crawler.GuessedNameSpec | nrf_crawler.py:131-147 | a cleaned name with a '.' is kept unchanged; otherwise the extension `GuessExtensionSpec` pins is appended, which is one of the four or nothing |
| Crawler.NormalizeUrl | nrf_crawler.py:99-101 | a link starting with "http" is kept; any other is prefixed with "https://www.mss.go.kr"; the result starts with "http" |
| Crawler.NormalizeIdempotent | nrf_crawler.py:99-101 | normalising an already normalised link changes nothing |
| Crawler.AttachmentName | nrf_crawler.py:103 | an attachment's name: its contract is stated by `AttachmentNameSpec` |
| Crawler.AttachmentNameSpec | nrf_crawler.py:103 | with "streFileNm=" in the URL, the name is the URL's tail after the last marker and holds no marker; without it, the name is "file_" followed by `NatToString(k)`, the decimal digits of k with no leading zero |
| Crawler.AttachmentsIndexed | nrf_crawler.py:96-108 | spans without a `data-href` are skipped; the i-th attachment is built from the i-th usable link and numbered i |
| Crawler.CollectAttachments | nrf_crawler.py:96-108 | the attachment loop yields exactly the attachments of the row's links |
| Crawler.RowNotice | nrf_crawler.py:78-117 | one listing row as a notice: its contract is stated by `GetNoticeListWithFiles` and `AttachmentsIndexed` |
| Crawler.GetNoticeListWithFiles | nrf_crawler.py:70-124 | one notice per row, in row order: stripped cells, '' or '0' for missing cells, a title only when the title link exists, and the row's attachments |
| Crawler.MarkerFromFirst | nrf_crawler.py:54 | the marker search returns the leftmost position where `(\d+)/(\d+)` matches |
| Crawler.PageMarkerFirstSlash | nrf_crawler.py:53-56 | the marker is found iff some '/' has a digit on both sides; its value is the digit run after the first such slash |
| Crawler.MaxLabelIsUpperBound | nrf_crawler.py:58-66 | the last page from the labels is at least 1 and at least every purely numeric label |
| Crawler.MaxLabelAttained | nrf_crawler.py:58-66 | the last page from the labels is 1 or the value of some numeric label |
| Crawler.TotalPages | nrf_crawler.py:47-68 | the page count: its contract is stated by `TotalPagesTiers`, `PageMarkerFirstSlash`, `MaxLabelIsUpperBound` and `MaxLabelAttained` |
| Crawler.GetTotalPages | nrf_crawler.py:47-68 | the loop over pagination labels computes the three-tier page count |
| Crawler.TotalPagesTiers | nrf_crawler.py:47-68 | the page count is the "current/total" marker's total if present; else, with labels, the largest numeric label (at least 1); else 1 |
| Crawler.DispositionName | nrf_crawler.py:159-174 | the name a `Content-Disposition` header gives: its contract is stated by `StarName`, `PlainName`, `DispositionNoFallback`, `StarRoundTrip` and `PlainRoundTrip` |
| Crawler.StarName | nrf_crawler.py:162-164 | a name taken from `filename*=UTF-8''` is non-empty and has no line break |
| Crawler.PlainName | nrf_crawler.py:169-171 | a name taken from `filename=` is non-empty and holds no quote or ';' |
| Crawler.DispositionNoFallback | nrf_crawler.py:160-171 | a header holding "filename*=" without the `UTF-8''` form gives no name; there is no fallback to `filename=` |
| Crawler.StarRoundTrip | nrf_crawler.py:161-164 | a header `attachment; filename*=UTF-8''v` yields exactly v, for any one-line non-empty v |
| Crawler.PlainRoundTrip | nrf_crawler.py:168-171 | a header `attachment; filename="v"` yields exactly v, for any non-empty v without quotes, ';' or '*' |
| Crawler.GuessedNameHasNoSlash | nrf_crawler.py:129-147 | a guessed file name never holds '/' |
| Crawler.SavePathInFolder | nrf_crawler.py:149-173 | the save path is the notice folder joined with a name that holds no '/' |
| Crawler.DownloadOutcome | nrf_crawler.py:126-190 | the result of one download: its contract is stated by `DownloadFile`, `DownloadSkipsExisting`, `DownloadStaysInFolder`, `DownloadFilesChange`, `DownloadIdempotent` and `DownloadRenamedRepeats` |
| Crawler.DownloadFile | nrf_crawler.py:126-190 | the method returns the path, the new set of files and whether a request was made, exactly as the download rule gives them |
| Crawler.DownloadSkipsExisting | nrf_crawler.py:149-153 | if the guessed path exists, it is returned with no request and no file written |
| Crawler.DownloadStaysInFolder | nrf_crawler.py:149-186 | a returned path exists afterwards and lies directly inside the notice folder |
| Crawler.DownloadFilesChange | nrf_crawler.py:149-190 | at most the returned path is added to the files; a failed download made a request and added nothing |
| Crawler.DownloadIdempotent | nrf_crawler.py:149-186 | without a header name, downloading again after a success makes no request |
| Crawler.DownloadRenamedRepeats | nrf_crawler.py:149-186 | when the header renames the file, the guessed path stays missing, so the next call requests again |
| Crawler.RangeIndex | nrf_crawler.py:215 | `range(lo, hi)` lists lo, lo+1, … in order |
| Crawler.PagesRequestedSpec | nrf_crawler.py:198-224 | the pages read are 1, 2, … in order, as many as the capped page count (at least 1); a failed page 1 gives [] after one request |
| Crawler.Cap | nrf_crawler.py:207-209 | the capped page count: its contract is stated by `CapSpec` |
| Crawler.CapSpec | nrf_crawler.py:207-209 | a None or 0 `max_pages` leaves the total; otherwise the cap is min(total, max_pages) |
| Crawler.PageNotices | nrf_crawler.py:232-235 | one page's kept notices: its contract is stated by `PageNoticesSpec` |
| Crawler.PageNoticesSpec | nrf_crawler.py:233-235 | each page's notices are a prefix of its rows' notices, cut to `max_items_per_page` unless that is None or 0 |
| Crawler.CrawlResult | nrf_crawler.py:192-280 | the crawl's returned notices: its contract is stated by `CrawlAndDownload`, `CollectedPrefix`, `CollectedBound` and `CrawlBound` |
| Crawler.CollectedPrefix | nrf_crawler.py:215-268 | the notices gathered from fewer pages are a prefix of those gathered from more |
| Crawler.CollectedBound | nrf_crawler.py:215-268 | k pages give at most k × `max_items_per_page` notices |
| Crawler.CrawlBound | nrf_crawler.py:192-280 | the crawl returns at most (capped pages) × `max_items_per_page` notices |
| Crawler.PlanAppend | nrf_crawler.py:240-268 | the downloads of two notice lists put together are those of the first list followed by those of the second |
| Crawler.FoldersAppend | nrf_crawler.py:245-254 | the folders of two notice lists put together are the union of the folders of each list |
| Crawler.FoldersSound | nrf_crawler.py:245-254 | every created folder is the folder of some notice that has an attachment |
| Crawler.FoldersComplete | nrf_crawler.py:245-254 | the folder of every notice that has an attachment is created |
| Crawler.PlanCount | nrf_crawler.py:259-266 | each attachment gets exactly one download call |
| Crawler.PlanOfNotice | nrf_crawler.py:245-266 | a notice's downloads are its attachments, in order, into its folder |
| Crawler.FoldersSpec | nrf_crawler.py:245-254 | a folder is created exactly for the notices that have an attachment |
| Crawler.NoticeFolder | nrf_crawler.py:247-251 | a notice's folder: its contract is stated by `NoticeFolderSpec` |
| Crawler.NoticeFolderSpec | nrf_crawler.py:247-251 | a notice folder is `{number}_{title}` under the download directory, with the title's illegal characters replaced and cut to 50 characters |
| Crawler.DownloadAll | nrf_crawler.py:259-266 | the attachment loop makes one attempt per attachment, in order, and the files are those the attempts leave |
| Crawler.SaveNotices | nrf_crawler.py:240-268 | the notice loop creates the folders and makes the downloads of every notice, in order |
| Crawler.ProcessPage | nrf_crawler.py:230-270 | one page contributes its cut notices, their folders and their downloads |
| Crawler.CrawlVisit | nrf_crawler.py:219-268 | one pass of the page loop: page 1 reuses the first response and every later page is requested once; a missing page changes nothing; the gathered notices, downloads, files and folders then cover one more page |
| Crawler.CrawlPages | nrf_crawler.py:215-268 | the page loop requests pages 2 to the page count in order and ends with the notices, downloads, files and folders of all those pages |
| Crawler.CrawlAndDownload | nrf_crawler.py:192-280 | the crawl returns the page-ordered concatenation of the cut pages and reads exactly the requested pages; its downloads, files and folders are those of the returned notices |
| Ingestion.JoinPagesAppend | pdf_to_structured_data.py:24-26 | the joined text of two page lists is the joined text of the first followed by that of the second |
| Ingestion.JoinPagesOne | pdf_to_structured_data.py:25-26 | one page becomes its text followed by a line break |
| Ingestion.JoinPagesLength | pdf_to_structured_data.py:24-26 | the joined text is as long as all pages plus one line break per page |
| Ingestion.ExtractText | pdf_to_structured_data.py:19-30 | the text is None exactly when reading fails; otherwise it is every page's text plus "\n", in page order, stripped |
| Ingestion.ExcerptsSpec | pdf_to_structured_data.py:39-113 | the prompt, embedding and stored-content excerpts are prefixes of at most 15000, 8000 and 5000 characters, nested in that order |
| Ingestion.ExtractMetadata | pdf_to_structured_data.py:32-89 | the metadata call: its contract is stated by `ExtractMetadataSpec` |
| Ingestion.CreateEmbedding | pdf_to_structured_data.py:91-106 | the embedding call on the first 8000 characters: its contract is stated by `ExcerptsSpec` and `EmbedStageSpec` |
| Ingestion.ExtractMetadataSpec | pdf_to_structured_data.py:82-89 | metadata exists iff the model answered with an object; it then carries `source_file` = the file name, overriding the model's value, and keeps every other key |
| Ingestion.EmbeddingJson | pdf_to_structured_data.py:112 | the stored embedding is a JSON list of the vector's numbers, in order |
| Ingestion.Flatten | pdf_to_structured_data.py:111-132 | the row built for the insert: its contract is stated by `FlattenColumns`, `FlattenCopies`, `FlattenRenames`, `FlattenComputed` and `FlattenKeepsExplicitNull` |
| Ingestion.StoreRow | pdf_to_structured_data.py:108-140 | the insert call: its contract is stated by `InsertStageSpec` |
| Ingestion.FlattenColumns | pdf_to_structured_data.py:111-132 | the row has exactly the table's 19 columns; other metadata keys are dropped |
| Ingestion.FlattenCopies | pdf_to_structured_data.py:115-130 | scalar keys are copied or become null; list keys are copied or become [] |
| Ingestion.FlattenRenames | pdf_to_structured_data.py:118-120 | `fullDeadline` goes to `full_deadline` and `date` to `announcement_date`, each null when missing |
| Ingestion.FlattenComputed | pdf_to_structured_data.py:113-131 | `content` is the first 5000 characters of the text, `embedding` the vector as a JSON list, `created_at` the clock's value |
| Ingestion.FlattenKeepsExplicitNull | pdf_to_structured_data.py:122-129 | a list key present as null stays null |
| Ingestion.InsertStageSpec | pdf_to_structured_data.py:175-182 | the insert gets the flattened row; the file counts as stored only when a non-empty row comes back |
| Ingestion.EmbedStageSpec | pdf_to_structured_data.py:165-170 | an empty or missing embedding stops before the insert |
| Ingestion.MetadataStageSpec | pdf_to_structured_data.py:152-163 | missing metadata stops before the embedding; an unsliceable title raises; storing needs all later calls |
| Ingestion.ProcessPdf | pdf_to_structured_data.py:142-182 | one PDF's run: its contract is stated by `ProcessPdfShortCircuit`, `MetadataStageSpec`, `InsertedRow` and `ProcessPdfInsertedRow` |
| Ingestion.ProcessPdfShortCircuit | pdf_to_structured_data.py:142-182 | reading comes first; nothing else runs unless the text is non-empty; a stored file made all four calls and returned a true row |
| Ingestion.InsertedRow | pdf_to_structured_data.py:113-130 | the inserted row carries the file name as `source_file` and the first 5000 characters as content |
| Ingestion.ProcessPdfInsertedRow | pdf_to_structured_data.py:142-182 | when the insert is reached, the row has the PDF's base name and a prefix of its text |
| Ingestion.PdfOnly | pdf_to_structured_data.py:193-196 | exactly the entries whose lower-cased name ends with ".pdf" are kept; with `PdfOnlyAppend` and `PdfOnlyOne`, they keep discovery order and each is kept once |
| Ingestion.PdfOnlyAppend | pdf_to_structured_data.py:193-196 | the PDFs of two entry lists put together are the PDFs of the first followed by those of the second |
| Ingestion.PdfOnlyOne | pdf_to_structured_data.py:195-196 | one entry is kept exactly when its lower-cased name ends with ".pdf" |
| Ingestion.PdfFiles | pdf_to_structured_data.py:190-196 | the PDF paths found: its contract is stated by `PdfFilesSpec`, `PdfOnly`, `PdfOnlyAppend` and `PdfOnlyOne` |
| Ingestion.PdfFilesSpec | pdf_to_structured_data.py:193-196 | the PDF paths are the kept entries' directories joined with their names, in order |
| Ingestion.ProcessAll | pdf_to_structured_data.py:200-217 | the directory run over the PDF paths: its contract is stated by `StoredCountBound`, `ProcessAllCount`, `ProcessAllRaised`, `ProcessAllStep` and `RaisedSticks` |
| Ingestion.StoredCountBound | pdf_to_structured_data.py:200-217 | the count of stored files is at most the number of PDFs, and equals it iff every PDF is stored |
| Ingestion.ProcessAllCount | pdf_to_structured_data.py:200-217 | a run that completes returns the number of PDFs stored, between 0 and the number of PDFs |
| Ingestion.ProcessAllRaised | pdf_to_structured_data.py:163 | the run raises iff some PDF's processing raises, and it names such a PDF |
| Ingestion.ProcessAllStep | pdf_to_structured_data.py:203-208 | one more PDF adds one on storing, nothing otherwise, or raises |
| Ingestion.RaisedSticks | pdf_to_structured_data.py:203-208 | once a PDF raises, the later PDFs change nothing |
| Ingestion.ProcessDirectory | pdf_to_structured_data.py:184-217 | the method finds the PDF paths in order and returns what processing them one by one gives |
| Text.StripSpaces | pdf_to_structured_data.py:27 | `strip` removes only whitespace, and only at the two ends |
| Text.StripIdempotent | nrf_crawler.py:129 | stripping twice is stripping once, so a cleaned name is stable under a second `strip` |
| Text.BaseNameOfJoin | pdf_to_structured_data.py:196 | the base name of a folder joined with a slash-free name is that name |
| Api.Project | main.py:164-166 | a `select` keeps exactly the named columns a row has, with their values |
| Api.WithId | main.py:132-136 | the lookup returns the rows whose id is the requested one, and all of them |
| Api.Normalize | main.py:142-147 | the five list fields made `get(k) or []`: its contract is stated by `NormalizeSpec` |
| Api.NormalizeSpec | main.py:142-147 | each of the five list fields becomes [] when missing, null or empty; every other field is untouched |
| Api.GetProjectDetail | main.py:126-155 | a failed query is a 500 with its message; no row is a 404 that is passed on unchanged; otherwise the first row, normalised |
| Api.Annotate | main.py:173-175 | one annotated item: its contract is stated by `AnnotateSpec` |
| Api.AnnotateSpec | main.py:173-175 | an item gets similarity exactly 1.0 and a non-null tags value; every other field is kept |
| Api.AnnotateAll | main.py:172-177 | the loop annotates every fetched item, keeping their order |
| Api.Fetch | main.py:165-168 | at most `limit` rows are fetched, the first ones in table order |
| Api.GetRecentProjects | main.py:158-182 | the newest min(limit, rows) projects, annotated and in order; a failed query is a 500 |
| Api.Matches | main.py:202-209 | the three filter conditions: its contract is stated by `FilteredSpec` and `FilterItemsMatch` |
| Api.Filtered | main.py:199-209 | the matching rows in table order: its contract is stated by `FilteredAppend`, `FilteredOne`, `FilteredSpec`, `FilteredSound`, `FilteredComplete` and `FilteredNoFilter` |
| Api.FilteredAppend | main.py:199-209 | the filtered rows of two row lists put together are those of the first followed by those of the second, so table order is kept |
| Api.FilteredOne | main.py:202-209 | one row is kept exactly when it meets every active filter |
| Api.FilteredSpec | main.py:199-209 | the filtered rows are exactly the rows meeting every active filter; with no active filter, all rows |
| Api.FilteredSound | main.py:199-209 | every filtered row is a row of the table that meets every active filter |
| Api.FilteredComplete | main.py:199-209 | every row that meets every active filter is kept |
| Api.FilteredNoFilter | main.py:199-209 | with no active filter, the rows are returned unchanged |
| Api.FilterProjects | main.py:185-223 | the first min(limit, matches) matching rows, annotated and in order; a failed query is a 500 |
| Api.FilterItemsMatch | main.py:202-217 | every returned item meets each active filter (case-insensitive organisation substring, status equality, tag membership) and has similarity 1.0 |
| Api.FirstSeenSpec | main.py:238-240 | the count dict's keys are the organisation values seen, each once |
| Api.FirstSeenOrder | main.py:238-240 | the keys come in the order in which their values first appear: for keys i < j, the first index of key i in the rows is below that of key j |
| Api.OccurrencesPositive | main.py:238-240 | a value has a positive count iff it occurs |
| Api.Organizations | main.py:232-239 | the `organization` value of each row, in order; an explicit null is passed through, and a row without the key gives null |
| Api.CountOrganizations | main.py:237-240 | the loop yields the keys in first-seen order and maps each value, null included, to its number of rows |
| Api.CountsAddUp | main.py:237-244 | the counts add up to the number of rows |
| Api.DistinctOrganizations | main.py:244 | `organizations` is the number of distinct organisation values |
| Api.SortByCount | main.py:245 | the stable sort by non-increasing count: its contract is stated by `SortByCountSpec` |
| Api.InsertByCountElements | main.py:245 | inserting a pair adds exactly that pair |
| Api.InsertByCountOrdered | main.py:245 | inserting into a list sorted by non-increasing count keeps it sorted |
| Api.InsertByCountStable | main.py:245 | inserting keeps the order of pairs with equal counts, the new pair last |
| Api.SortByCountSpec | main.py:245 | the sort orders by non-increasing count, is a permutation, and is stable |
| Api.Top5 | main.py:245 | the first five pairs of the sort: its contract is stated by `Top5Spec` and `Top5Beats` |
| Api.Top5Beats | main.py:245 | a pair left out of the top five has a count no higher than any pair kept |
| Api.Top5Spec | main.py:245 | the top list has min(5, distinct) pairs in non-increasing order; no pair left out beats a kept one |
| Api.GetStats | main.py:226-250 | the total, the number of distinct organisations, and the first five pairs of the stable sort of the counts in first-seen order |

## Left out

- HTTP traffic is not modelled: sessions, time-outs, streaming and `raise_for_status`. A page
  fetch is a function that returns a page or nothing. A download is a `Fetch` value saying
  whether the request failed, whether the status was an error, and whether the file was written.
- HTML parsing is not modelled. A page is given as the strings the CSS selectors would extract.
- The row-level `try`/`except` in `get_notice_list_with_files` is not modelled: once a page is
  given as strings, no row can raise.
- `get_page` and the constructor of `MSSCrawler` are not modelled. They build a URL, make an
  HTTP call and create the download directory.
- `time.sleep`, all printing and logging, and `datetime.now()` are left out. The timestamp is an
  input string, and every file of one directory run gets the same timestamp. The source reads the
  clock once per file.
- Filesystem effects are modelled only as the set of existing paths and the set of created
  folders.
- The model does not capture `os.makedirs` failures, partial files left after a failed write,
  or the trailing-slash normalisation of `os.path.exists`.
- `unquote` is a function parameter. Percent-decoding is not modelled.
- `Text.IsSpace` is Python's `str.isspace` set, Unicode included. `Text.Lower` and
  `Text.IsDigit` cover ASCII only. Python's Unicode case
  mapping, whitespace and decimal digits are not modelled.
- The chat model, the embedding endpoint, the PDF reader and the table insert are oracles. The
  prompt's wording, `json.loads` and the reader's text extraction are not modelled.
- Crawler.CrawlAndDownload: a crawl that keeps a notice without a title raises `KeyError` in the
  source, after the folders and downloads of the earlier notices are done. `CrawlTitled` excludes
  that run, so the model says nothing about it or about the downloads made before the raise.
- Api.Matches: the ILIKE wildcards `%` and `_`, and `*`, which PostgREST also reads as a
  wildcard, are not given their pattern meaning inside the organisation argument; the argument
  is matched as plain text.
- Pydantic validation and coercion of the response models (`ProjectSearchResult`,
  `ProjectDetail`) is not modelled. The model returns the normalised row dicts, and assumes
  every row validates. In the source a row that fails validation turns the whole response into
  a 500.
- FastAPI routing and CORS are not modelled. The query-parameter bounds 1..50 are the
  precondition `ValidLimit`.
- The search endpoint (`/api/search`) and the root endpoint are not modelled. Search ranking
  runs in the database and uses floating point.
- Api.GetStats reads `organization` with a null default. PostgREST returns every selected
  column, so the `KeyError` path of `item['organization']` cannot occur.
- Api.GetStats takes `total.count` as the number of rows of the same snapshot the organisation
  query reads, and assumes that query returns every row. PostgREST's max-rows cap applies to
  the `select('organization')` but not to the exact count, so `CountsAddUp` relates the counts to
  the rows that query returns.
- The scripts' `main` functions, `check_similar.py` and `test_search.py` are not modelled. They
  are diagnostics and smoke tests over the network.
