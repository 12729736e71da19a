# node-rag core, modelled in Dafny

node-rag is a retrieval-augmented chat application. PDF files are split
into chunks and embedded into a Chroma collection. A chat endpoint then
answers questions with a local language model served by Ollama, using the
best-matching chunks as context. Most of the repository is glue code
around those services. This project models the four pieces of it that
have logic of their own, and proves what they promise.

- **Ingestion** (`Ingest.dfy`, scripts/ingest.js).
  - `sanitizeMetadata` flattens a page's metadata object into string,
    number and boolean properties. Its `clean` object is built property
    by property: an existing name is overwritten in place and a new name
    is appended, as in a JavaScript object.
  - The `ingestPDFs` run is modelled as a method over the answers of
    its external calls: the collection count, the directory listing, the
    PDF loader, the splitter, the embedding probe and the store.
- **Chat endpoint** (`ChatRoute.dfy`, src/app/api/query/route.ts):
  request checks, query extraction, mapping hits to `{content, source,
  page}`, the numbered context and the system prompt.
- **Model setup** (`SetupOllama.dfy`, scripts/setup-ollama.js):
  - the model list taken from the environment;
  - the names already on the server;
  - the install list;
  - the pull loop, which stops at the first pull that throws.
- **Progress indicator** (`ProcessingSteps.dfy`,
  src/components/ui/processing-steps.tsx): the status of each step and
  the "Found N document(s)" label.

Shared modules:

- `Strings.dfy`: decimal rendering, `split`, `join` and `trim`.
- `JsValues.dfy`: JavaScript values, truthiness, `Object.entries`,
  property read and write, and template-literal rendering.
- `Seqs.dfy`: `flatMap`, `map` and `filter` on sequences, with how
  they distribute over concatenation.
- `Optional.dfy`: the option type, for absent values and calls that throw.

## Model

| member | source | states |
|---|---|---|
| `Strings.NatToString` | scripts/ingest.js:35 | A counter or array index renders as at least one decimal digit, with no leading zero: only 0 itself renders with a leading "0", as "0". |
| `Strings.NatToStringRoundTrip` | src/app/api/query/route.ts:71 | Reading the rendered digits back gives the number. |
| `Strings.NatToStringInjective` | scripts/ingest.js:29-35 | Distinct indices render as distinct strings, so array elements get distinct `key_i` names. |
| `Strings.IntToString` | src/components/ui/processing-steps.tsx:24 | An integer renders with a leading '-' exactly when it is negative, and ends in a digit. |
| `Strings.IntToStringRoundTrip` | src/components/ui/processing-steps.tsx:24 | The rendered text reads back as the integer: after an optional '-' come only digits, and their value is the magnitude. |
| `Strings.Split` | scripts/setup-ollama.js:8 | `split` on one character yields at least one piece, and no piece holds the separator. |
| `Strings.SplitJoin` | scripts/setup-ollama.js:8 | Joining the pieces with the separator gives back the input. |
| `Strings.SplitHead` | scripts/setup-ollama.js:73 | The first piece is the prefix before the first separator; the separator follows it when it is shorter than the input. |
| `Strings.SplitAppend` | scripts/setup-ollama.js:8 | Around one separator, the pieces of `a,b` are the pieces of `a` followed by those of `b`. |
| `Strings.TrimStart` | scripts/setup-ollama.js:9 | Leading whitespace only is removed, and the result does not start with whitespace. |
| `Strings.TrimEnd` | scripts/setup-ollama.js:9 | Trailing whitespace only is removed, and the result does not end with whitespace. |
| `Strings.Trim` | scripts/setup-ollama.js:9 | `trim` keeps a contiguous middle of the input, with only whitespace cut off either side, and neither end of the result is whitespace. |
| `Strings.TrimIdempotent` | scripts/setup-ollama.js:9 | Trimming twice is trimming once. |
| `JsValues.EntriesOf` | scripts/ingest.js:29 | `Object.entries` of an object is its properties in order; of an array, its elements under "0", "1", ... |
| `JsValues.Get` | src/app/api/query/route.ts:62-63 | Reading a missing property gives undefined, and reading a present one gives a value stored under that name. |
| `JsValues.Set` | scripts/ingest.js:24 | A write replaces an existing property in place, or appends a new one; properties of other names keep their places and values. |
| `JsValues.GetAfterSet` | scripts/ingest.js:35 | After a write, the written name reads the new value and every other name reads as before. |
| `JsValues.HasKeyAfterSet` | scripts/ingest.js:24 | A write adds exactly the written name to the object's names. |
| `JsValues.HasKeyConcat` | scripts/ingest.js:29-37 | The names of a concatenation are the names of its parts. |
| `JsValues.SetKeepsKeysDistinct` | scripts/ingest.js:24 | A write never creates a second property of the same name. |
| `JsValues.Truthy` | src/app/api/query/route.ts:63 | JavaScript truthiness: "", 0, false, null and undefined are falsy, and every other value (objects and arrays included) is truthy. |
| `JsValues.Display` | src/app/api/query/route.ts:71 | The text `${v}` interpolates: a string as itself, a number in decimal, "true"/"false", "null", "undefined", "[object Object]", and an array as its elements joined by "," with null and undefined elements empty. |
| `Ingest.EntryWrites` | scripts/ingest.js:19-37 | The writes one top-level property makes: a primitive under its own name, nothing for null or undefined, and for an object or array each primitive entry `n` under `<key>_<n>` in entry order. |
| `Ingest.Writes` | scripts/ingest.js:18-39 | All the sanitiser's writes, property after property in `Object.entries` order. |
| `Ingest.Sanitized` | scripts/ingest.js:16-41 | The returned object: those writes performed in order on an empty object. |
| `Ingest.SanitizeMetadata` | scripts/ingest.js:16-41 | The nested loops build exactly the object specified by applying every write in order, and that object is flat. |
| `Ingest.SanitizedFlat` | scripts/ingest.js:19-37 | Every sanitised value is a string, number or boolean, and no name appears twice. |
| `Ingest.GetAfterApply` | scripts/ingest.js:18-39 | After a sequence of writes, the last write to a name wins, and an unwritten name reads as before. |
| `Ingest.SanitizedGet` | scripts/ingest.js:18-39 | A sanitised property holds the value of the last write to it, and a name never written reads as undefined. |
| `Ingest.TopLevelPrimitiveCopied` | scripts/ingest.js:19-24 | A top-level string, number or boolean is copied unchanged under its own name, unless a later write takes that name. |
| `Ingest.NullishDropped` | scripts/ingest.js:25-26 | A null or undefined property contributes nothing: the result equals the result without it. |
| `Ingest.NestedPrimitiveFlattened` | scripts/ingest.js:27-37 | A primitive entry `n` of an object or array under `k` comes out as `k_n` with its value, unless a later write takes that name. |
| `Ingest.ArrayElementFlattened` | scripts/ingest.js:27-37 | A primitive array element at index `j` under `k` comes out as `k_j`. |
| `Ingest.EntryWritesKeys` | scripts/ingest.js:19-37 | A primitive writes its own name; an object or array writes `k_n` for each primitive entry `n`; null and undefined write nothing. |
| `Ingest.NestedWritesKeys` | scripts/ingest.js:29-37 | The names one nested object writes are exactly `k_n` for its primitive entries, so deeper values never appear. |
| `Ingest.SanitizedKeys` | scripts/ingest.js:16-41 | A name is in the sanitised object if and only if some top-level property writes it. |
| `Ingest.FlatIsFixpoint` | scripts/ingest.js:16-41 | A flat object is copied verbatim. |
| `Ingest.SanitizeIdempotent` | scripts/ingest.js:16-41 | Sanitising twice is sanitising once. |
| `Ingest.PdfFiles` | scripts/ingest.js:70 | The files kept are exactly the listed names ending in ".pdf". |
| `Ingest.PdfFilesAppend` | scripts/ingest.js:70 | The filter keeps listing order. |
| `Ingest.Tagged` | scripts/ingest.js:90 | A file's pages, each with `metadata.source` set to the file name and nothing else changed. |
| `Ingest.FilePages` | scripts/ingest.js:87-95 | The pages one file adds to `allDocs`: none when its load throws, otherwise its tagged pages. |
| `Ingest.LoadedPages` | scripts/ingest.js:81-96 | `allDocs` after the loop: the pages of each PDF, file after file in listing order. |
| `Ingest.LoadedPagesAppend` | scripts/ingest.js:83-96 | Pages accumulate in file order. |
| `Ingest.FailedLoadSkipped` | scripts/ingest.js:87-95 | A file whose load throws adds no page, and the files after it are still loaded. |
| `Ingest.LoadedFileKept` | scripts/ingest.js:87-92 | A file that loads contributes all its tagged pages, between the pages of the files before and after it. |
| `Ingest.LoadedPagesSource` | scripts/ingest.js:90 | Every loaded page has `metadata.source` set to the name of a listed file whose load succeeded. |
| `Ingest.SanitizedChunks` | scripts/ingest.js:112-114 | The chunks after the `forEach`: each chunk's metadata replaced by its sanitised form, its text untouched. |
| `Ingest.SanitizedChunksFlat` | scripts/ingest.js:112-114 | Each chunk keeps its text, and its metadata is replaced by a flat object. |
| `Ingest.SanitizedChunksIdempotent` | scripts/ingest.js:112-114 | Sanitising the stored chunks again changes nothing. |
| `Ingest.IngestPDFs` | scripts/ingest.js:43-142 | The run's outcome in each case. A non-empty collection exits 0 before anything else, and a failed count check lets the run go on. A missing directory, or one that cannot be listed, exits 1. No PDF exits 0 without storing. Otherwise every PDF is tried in listing order. A splitter that throws or a failed embedding probe exits 1 and stores nothing. Otherwise the sanitised chunks of the loaded pages go to the store, and the exit code reflects whether storing succeeded. |
| `ChatRoute.QueryText` | src/app/api/query/route.ts:39-42 | The query: the first part's text when that part has type "text", and "" otherwise. |
| `ChatRoute.QueryTextFirstPartOnly` | src/app/api/query/route.ts:39-42 | The query is the first part's text when that part has type "text", and "" otherwise; later parts are never consulted. A message whose parts are missing or empty gives "". |
| `ChatRoute.ToDocument` | src/app/api/query/route.ts:60-63 | One hit as `{content, source, page}`: its page content, `metadata.source`, and `metadata.loc_pageNumber` when truthy, else null. |
| `ChatRoute.Documents` | src/app/api/query/route.ts:60-65 | The hits mapped one for one, in search order. |
| `ChatRoute.DocumentPage` | src/app/api/query/route.ts:60-63 | A record's page is truthy exactly when `loc_pageNumber` is, and is then that value, and null otherwise. Its source and content are the hit's. |
| `ChatRoute.PageInfo` | src/app/api/query/route.ts:70 | " (Page p)" when the page is truthy, "" otherwise. |
| `ChatRoute.Block` | src/app/api/query/route.ts:71 | "Document n from <source><page info>:" followed by a newline and the content. |
| `ChatRoute.Blocks` | src/app/api/query/route.ts:68-72 | One block per document, numbered from 1 in retrieval order. |
| `ChatRoute.Context` | src/app/api/query/route.ts:68-73 | The blocks joined by a blank line. |
| `ChatRoute.PageSuffixIff` | src/app/api/query/route.ts:70-71 | The " (Page p)" suffix follows the block head exactly when the page is truthy. |
| `ChatRoute.JoinSnoc` | src/app/api/query/route.ts:73 | Joining one more piece appends the separator and the piece. |
| `ChatRoute.ContextSnoc` | src/app/api/query/route.ts:68-73 | Each further document appends a block numbered with its position, after a blank line. |
| `ChatRoute.ContextEmptyIff` | src/app/api/query/route.ts:68-73 | The context is empty exactly when no document was retrieved; otherwise it opens with "Document 1 from ". |
| `ChatRoute.SystemPrompt` | src/app/api/query/route.ts:76-85 | The five fixed instructions, line 6 when no document was retrieved, the "Context documents:" heading, then the context or "No relevant documents found." when it is empty. |
| `ChatRoute.Line6Iff` | src/app/api/query/route.ts:83 | Instruction 6 ("No documents were found ...") follows the fixed instructions if and only if no document was retrieved. |
| `ChatRoute.ContextSection` | src/app/api/query/route.ts:84-85 | The context section is "No relevant documents found." exactly when the document list is empty, and otherwise the joined blocks. |
| `ChatRoute.HandleChat` | src/app/api/query/route.ts:19-108 | Status 400 "Messages are required" for missing or empty messages. Status 400 "Last message must be from user" when the last role is not "user". A valid request streams if and only if the search for its query with 4 results succeeds and the messages convert. A streamed reply carries that query, the system prompt built from the hits and the messages. Any other failure is 500 "Failed to process chat". |
| `ChatRoute.NoSearchWithoutMessages` | src/app/api/query/route.ts:23-28 | Without messages the answer does not depend on the search or the conversion. |
| `SetupOllama.NonEmpty` | scripts/setup-ollama.js:10 | `filter(Boolean)` keeps exactly the non-empty strings. |
| `SetupOllama.NonEmptyAppend` | scripts/setup-ollama.js:10 | The filter keeps order. |
| `SetupOllama.SplitNoSeparator` | scripts/setup-ollama.js:8 | A string without a comma splits into itself. |
| `SetupOllama.ModelList` | scripts/setup-ollama.js:6-11 | OLLAMA_MODELS split at each ",", every piece trimmed, the empty pieces dropped, in order. |
| `SetupOllama.ModelListClean` | scripts/setup-ollama.js:6-11 | Every model taken from OLLAMA_MODELS is non-empty, holds no comma and is already trimmed. |
| `SetupOllama.ModelListAppend` | scripts/setup-ollama.js:6-11 | The list for `a,b` is the list for `a` followed by that for `b`, so order and duplicates are kept. |
| `SetupOllama.ModelListSingle` | scripts/setup-ollama.js:7-10 | One entry yields its trimmed text, or nothing when it is blank. |
| `SetupOllama.Dedup` | scripts/setup-ollama.js:18 | `[...new Set(xs)]` holds the same elements as `xs`, each once. |
| `SetupOllama.DedupSnoc` | scripts/setup-ollama.js:18 | A repeated element leaves the result unchanged and a new one goes to the end, so each element keeps the place of its first occurrence. |
| `SetupOllama.GetModelsFromEnv` | scripts/setup-ollama.js:3-20 | A set OLLAMA_MODELS gives its cleaned list. Otherwise EMBEDDING_MODEL precedes LLM_MODEL, the two appear once when equal, one alone is kept, and neither gives ["nomic-embed-text", "mistral"]. So the fallback list is never empty. |
| `SetupOllama.BaseName` | scripts/setup-ollama.js:73 | A model's name is the prefix before its first ":", and holds no ":". |
| `SetupOllama.ExistingNames` | scripts/setup-ollama.js:73 | The existing names are the base names of the listed models, one per model, or none when the reply lists none. |
| `SetupOllama.ModelsToInstall` | scripts/setup-ollama.js:77-80 | A model is to be installed if and only if it is in MODELS and its base name is not among the existing names. |
| `SetupOllama.ModelsToInstallAppend` | scripts/setup-ollama.js:77-80 | The install list keeps the order of MODELS. |
| `SetupOllama.SameBaseNotInstalled` | scripts/setup-ollama.js:77-80 | A model is not installed when any existing model shares its base name, whatever the tag. |
| `SetupOllama.RunSetup` | scripts/setup-ollama.js:68-106 | An unreachable server exits 1 and pulls nothing. Otherwise the pulls follow the install list in order, each once, and stop at the first pull that throws, which exits 1. The exit code is 0 if and only if no pull of a listed model throws. An empty install list pulls nothing. |
| `ProcessingSteps.IndexOf` | src/components/ui/processing-steps.tsx:31-32 | `indexOf` gives -1 exactly when the element is absent, and otherwise the position of its first occurrence. |
| `ProcessingSteps.IndexOfDistinct` | src/components/ui/processing-steps.tsx:30-32 | In a list without repeats, the element at `i` is found at `i`. |
| `ProcessingSteps.StepStatus` | src/components/ui/processing-steps.tsx:29-37 | `getStepStatus`: "completed" when the step comes before the active one, "active" at the same position, "pending" otherwise; with no active step the active position is -1. |
| `ProcessingSteps.StepPositions` | src/components/ui/processing-steps.tsx:30 | Each step is found at its own position in the step order. |
| `ProcessingSteps.NoActiveStepAllPending` | src/components/ui/processing-steps.tsx:31-36 | With no active step, every step is pending. |
| `ProcessingSteps.StatusByPosition` | src/components/ui/processing-steps.tsx:30-36 | With the step at position `a` active, the steps before it are completed, it is active, and the steps after it are pending. |
| `ProcessingSteps.ExactlyOneActive` | src/components/ui/processing-steps.tsx:30-36 | When a step is active, a step is active if and only if it is that step. |
| `ProcessingSteps.CountOrZero` | src/components/ui/processing-steps.tsx:16 | An absent `documentCount` defaults to 0. |
| `ProcessingSteps.ResultsLabel` | src/components/ui/processing-steps.tsx:24 | "Found <count> document", with an "s" unless the count is 1. |
| `ProcessingSteps.ResultsLabelPlural` | src/components/ui/processing-steps.tsx:16-24 | The label starts "Found ". It is "Found 1 document" for one document and ends " documents" for every other count, with the count shown between. An absent count reads "Found 0 documents". |

## Left out

- PDF loading and text splitting (`PDFLoader`, `RecursiveCharacterTextSplitter`) are library code. The loader is an input function giving a file's pages, or none when it throws. The splitter is an input function from pages to chunks, or none when it throws. The directory listing is an input too, none when `readdirSync` throws.
- The embedding service, the Chroma calls (`getCollection`, `count`, `fromDocuments`, `fromExistingCollection`, `similaritySearchWithScore`) and `convertToModelMessages` are remote or foreign calls. Each is an input: a count or none, whether the probe and the store succeed, the search hits or none, and whether the messages convert.
- `ChatRoute.HandleChat`: `streamText` and `toUIMessageStreamResponse` are taken to return the streamed reply once reached. Errors they report inside the stream, and the model's reply itself, are not modelled.
- `JsValues.Set`: a write to the name `"__proto__"` changes an object's prototype rather than adding a property, so `clean["__proto__"] = value` leaves no property in the source. The model treats `"__proto__"` as an ordinary name and adds it.
- The similarity score `(1 - score).toFixed(4)` is floating-point formatting, and the prompt does not use it.
- The streamed body of `pullModel` (`TextDecoder`, progress lines) is network I/O. A pull is reduced to whether `pullModel` throws.
- `SetupOllama.RunSetup`: a pull the server refuses counts as a success, as in the source. `pullModel` never checks `response.ok` and only prints the `status` of each progress line, so a non-ok reply or an `error` line neither throws nor exits: the script reports the model ready, goes on to the next one and exits 0. The model does not promise that a model was installed, only that its pull did not throw.
- `process.exit` and console output. Exits are returned as exit codes.
- `ChatRoute.HandleChat`: a body that `req.json()` cannot parse, a `messages` that is not an array, and the `details` field of the 500 reply are not modelled.
- `SetupOllama.RunSetup`: the tags request failing, replying not ok, or replying with an unreadable body are merged into one unreachable case. A listed model without a `name` string is not modelled.
- src/app/page.tsx is not part of this model: it is presentation code over the chat hook's state.
- The JSX, class names and emoji handling of the progress indicator are rendering only.
- Numbers are unbounded integers. Fractional numbers, NaN and infinities, the loss of precision above 2^53, and the exponent form a template literal gives from 1e21 on ("1e+21") are not modelled: `JsValues.Display` and `Strings.IntToString` always write plain decimal digits. No page number or count in the core comes near these values.
- JavaScript lists integer-like property names first in `Object.entries`. Objects here keep one fixed order, taken to be `Object.entries` order.
- `typeof` cases other than string, number, boolean and object (bigint, symbol, function) do not occur in parsed metadata and are not modelled.
- `trim` uses a fixed set of whitespace characters (the ASCII ones, no-break space, line and paragraph separators, byte-order mark), not the full Unicode space category.
- Concurrency between a running ingestion and the chat endpoint is not modelled.
