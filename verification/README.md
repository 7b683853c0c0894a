# RAG survey analysis backend: a Dafny model of its rules

The backend ingests PDF market-research reports and answers questions about them through retrieval-augmented generation. It can also compare two reports. Most of it is glue around hosted models and libraries. This project models the rules the backend itself imposes, with every library and model call kept abstract:

- **Page extraction** (`get_pdf_text`): one document per page of every file. Files come in input order and pages in ascending order, each page with `source`/`page` metadata. Text selection: use the direct text if it is non-blank, else the OCR text if non-blank, else `""`.
- **Index building** (`get_vectorstore`): an empty chunk list is rejected before the index constructor is reached. Otherwise the constructor's result or error is passed through.
- **Backend dispatch** (`get_llm`, a helper of `process_pdfs` and `compare_reports`): a backend is chosen by name, with Phi as the fallback.
- **The request handlers** (`process_pdfs`, `ask_question`, `compare_reports`):
  - the process-wide conversation slot, set only by a fully successful build;
  - the not-ready refusal of questions;
  - citations from retrieved chunks;
  - the exactly-two rule of comparisons, with their summary map and prompts.

Modules, one file each:

| file | module | models |
|---|---|---|
| wrappers.dfy | `Wrappers` | `Option` and `Result` |
| pytext.dfy | `PyText` | Python's `str.strip()`, `s[:n]` and `sep.join(parts)` |
| vectorstore.dfy | `Vectorstore` | backend/Vectorstore.py |
| api.dfy | `Api` | backend/api.py handlers |
| session.dfy | `SessionMachine` | the conversation slot across a sequence of requests |

Every external call is a function parameter, bundled in `Api.Env`:

- the PDF reader: a path maps to the direct-extraction result of each page, or to `None` when opening the file or extracting the text of any of its pages raises (text extraction is outside the OCR `try`, so either aborts the call);
- the OCR attempt: a path and a 1-based page number map to `NoImage`, `Recognised(text)` or `OcrRaised`;
- the text splitter;
- the vector index constructor, which may raise;
- the retrieval-chain factory;
- one call of a chain, which returns a response and the chain with its updated memory;
- one LLM completion.

The conversation slot `app.state.conversation` is an explicit `Session` value. `process_pdfs` and `ask_question` take it and return the next one. `compare_reports` neither reads nor changes it.

## Model

| member | source | states |
|---|---|---|
| `Vectorstore.SelectTextRule` | backend/Vectorstore.py:21-47 | Direct text with a non-whitespace character is kept exactly. Otherwise OCR text with a non-whitespace character is kept. Otherwise the text is `""`: no image, blank OCR text and a raised OCR step all give this. A kept page text is therefore `""` or has a non-whitespace character. |
| `Vectorstore.OcrIgnoredWhenDirectHasContent` | backend/Vectorstore.py:21-24 | When the direct text has content, the OCR outcome makes no difference to the page text. |
| `PyText.TrimLeftShape` | backend/Vectorstore.py:23 | Stripping the left end keeps a suffix of the text that does not start with whitespace, and everything it drops is whitespace. |
| `PyText.TrimRightShape` | backend/Vectorstore.py:23 | Stripping the right end keeps a prefix of the text that does not end with whitespace, and everything it drops is whitespace. |
| `PyText.StripEmptyIffAllSpace` | backend/Vectorstore.py:23 | Python's test `s.strip()` is false exactly when every character of `s` is whitespace. |
| `Vectorstore.GetPdfTextFailsOnlyOnUnreadableFile` | backend/Vectorstore.py:16-20 | Extraction succeeds if and only if every file can be read, page texts included. On failure the error names the first file that could not be read. OCR trouble never fails it. |
| `Vectorstore.OcrNeverAborts` | backend/Vectorstore.py:27-46 | OCR results never change whether extraction fails, or with which error. An OCR exception on one page never aborts the other pages or files. |
| `Vectorstore.GetPdfTextCountsPages` | backend/Vectorstore.py:16-20 | With every file readable there is exactly one document per page, summed over all files. |
| `Vectorstore.GetPdfTextPageAt` | backend/Vectorstore.py:17-54 | Page `p+1` of file `f` comes right after all pages of the earlier files. Its metadata gives that file and 1-based page, and its text is the selection rule applied to that page. |
| `Vectorstore.GetPdfTextLayout` | backend/Vectorstore.py:15-55 | Whole-output form of the two rows above: the number of documents, plus the position and content of every page. |
| `Vectorstore.GetPdfTextHasNoBlankPages` | backend/Vectorstore.py:22-47 | No extracted document carries whitespace-only text. |
| `Vectorstore.PageText` | backend/Vectorstore.py:21-46 | The per-page branch of the source's loop, written as statements, keeps the direct text when it has a non-whitespace character, else the recognised OCR text when it has one, else `""`. |
| `Vectorstore.AppendFilePages` | backend/Vectorstore.py:20-54 | The inner loop appends one document per page of the file, in page order, after the documents already collected. |
| `Vectorstore.CollectPageDocuments` | backend/Vectorstore.py:15-55 | The source's nested loops compute exactly the functional extraction, including aborting on the first unreadable file. |
| `Vectorstore.GetVectorstore` | backend/Vectorstore.py:70-97 | An empty chunk list fails with the no-chunks error whatever the constructor would do. On a non-empty list the constructor's index is returned, or its failure is passed through. |
| `Api.GetLlm` | backend/api.py:44-50 | The dispatch is total. "Llama 3.1" selects Llama 3 and "Mixtral" selects Mixtral, in both directions. Every other string, "Phi" and unknown names included, selects Phi. |
| `Api.MenuLabelSelectsItsBackend` | frontend/client.py:109 | Each model name the frontend offers selects the backend it names. |
| `Api.ResolvePath` | backend/api.py:78 | A relative name resolves to `uploaded_pdfs/<name>`. An absolute name is used as given. |
| `Api.ResolvePathKeepsName` | backend/api.py:78 | The name can be read back from its resolved path, so distinct relative names resolve to distinct path strings. |
| `Api.ResolvePaths` | backend/api.py:78 | Paths are resolved one per name, in input order. |
| `Api.ProcessPdfs` | backend/api.py:77-84 | A build succeeds exactly when extraction succeeds, the chunks are non-empty and the index is built. Only then is the slot set, to a chain over the new index with the dispatched backend. Any failure leaves the session unchanged. |
| `Api.ProcessWithoutChunksKeepsConversation` | backend/api.py:79-83 | When the files give no chunks, the build fails with the no-chunks error and the previous conversation stays. |
| `Api.ProcessReplacesConversation` | backend/api.py:77-84 | The reply does not depend on the previous session. After a success, neither does the new session. |
| `Api.AskQuestion` | backend/api.py:87-108 | With no conversation the reply is the 400 not-ready error and the session is unchanged. Otherwise the chain's answer and history are passed through. There is one citation per source document, in order: page and file default to "Unknown", and the snippet is a prefix of length `min(200, len)`. |
| `Api.AskWithoutConversationCallsNoChain` | backend/api.py:88-89 | A refused question does not depend on any chain. |
| `Api.AskIgnoresLlmChoice` | backend/api.py:87-91 | The backend named in a question request has no effect on the reply or the session. |
| `PyText.Head` | backend/api.py:97 | The snippet is a prefix of the text, of length `min(n, len)`, and is the whole text when the text is no longer than `n`. |
| `Api.CitationOfExtractedPage` | backend/api.py:95-97 | A chunk carrying an extracted page's metadata is cited with that page number and file. Its snippet is at most 200 characters and is the whole text when the text is short. |
| `Api.SummaryPrompt` | backend/api.py:122 | The summary request ends with the document's combined text. |
| `Api.ComparePrompt` | backend/api.py:126-129 | The comparison request embeds the first summary, whole, before the second. |
| `PyText.JoinPlacesPart` | backend/api.py:121 | Every part appears unchanged at its offset in the joined text. |
| `PyText.JoinSeparatesParts` | backend/api.py:121 | Neighbouring parts are separated by exactly one separator. |
| `PyText.JoinLength` | backend/api.py:121 | The joined text is exactly the parts plus one separator between each pair of neighbours. |
| `Api.CombinedTextKeepsChunkOrder` | backend/api.py:121 | A document's combined text is its chunk contents in chunk order, separated by single spaces. |
| `Api.CompareReports` | backend/api.py:111-132 | A request with other than two names is refused with 400 and sends no prompt. On success the summary keys are exactly the two names. The prompts sent are the two summary requests and then exactly one comparison request, in that order. The comparison is the model's reply to that request. If the first file cannot be read, the call fails with its error and sends no prompt. If only the second cannot be read, it fails with that error after sending the first summary request. |
| `Api.CompareRejectsBeforeAnyWork` | backend/api.py:112-113 | The refusal does not depend on the reader, the OCR, the splitter or the model. |
| `Api.CompareSucceedsIffBothReadable` | backend/api.py:111-132 | With two names, a comparison succeeds exactly when both files can be read. |
| `SessionMachine.Run` | backend/api.py:77-108 | Serving a sequence of requests gives one reply per request, of the matching kind. |
| `SessionMachine.ConversationSetIffBuilt` | backend/api.py:83 | From process start, the slot holds a conversation exactly when some build has succeeded. |
| `SessionMachine.AskNotReadyIffNoEarlierBuild` | backend/api.py:88-89 | From process start, a question is refused as not ready exactly when no earlier build succeeded. |

## Behaviour of the code worth knowing

- `ask_question` ignores the `llm_choice` of its request. The chain keeps the backend chosen when it was built, so switching backends takes effect only at the next build, not at the next question. `Api.AskIgnoresLlmChoice` states this.
- A missing or unreadable file is not checked up front. The reader raises when it reaches the file, after earlier files have already been extracted, and the whole call fails. The model reports this as `UnreadablePdf` for the first file that cannot be read.
- The OCR attempt runs when the direct text is missing or whitespace-only, because the code tests it with `strip()`, not only when it is empty.
- `compare_reports` handles its two files one after the other: it reads the first, requests its summary, and only then reads the second. A second file that cannot be read therefore fails the call after the first summary was already requested, and `Api.CompareReports` records that one prompt.
- `compare_reports` with the same name twice builds a one-key summary map, and both slots of the comparison prompt hold that one summary. The two summary requests are then equal, so `Api.CompareReports` ties each name's summary to its own request in every case.

## Left out

- Chunking (`get_chunks`) is LangChain's `CharacterTextSplitter`, whose code is not part of this model. It is an uninterpreted `seq<Doc> -> seq<Doc>`, and no size or overlap invariants are claimed.
- The sample-embedding probe in `get_vectorstore` (backend/Vectorstore.py:81-88) is left out. Its errors are swallowed and its result only printed, so it cannot change the outcome.
- Embeddings, the FAISS index, the retriever, question condensing and the conversation memory are external library behaviour. The chain is a function from (chain, question) to (response, updated chain).
- PDF parsing, rasterisation at 300 DPI, grayscale/autocontrast preprocessing and Tesseract are abstract per-page inputs.
- `upload_pdfs` file writes, directory creation, CORS and `print` warnings are I/O and logging.
- HTTP transport is reduced to reply datatypes. Only extraction errors and index-build errors are modelled as failures: they become `ProcessFailed`/`CompareFailed`, which the server would turn into a 500 response.
- Exceptions raised by the chain call in `ask_question` (backend/api.py:91) or by a model completion in `compare_reports` (backend/api.py:123, 130) are not modelled. `Env.chain` and `Env.complete` are total, so there is no failed-question reply and no comparison that fails because a model call raised.
- `Api.CompareReports` returns the summaries as a `map`, which has no order. The source's dictionary keeps insertion order, and frontend/client.py:162 shows the summaries in that order.
- Model responses are modelled as deterministic functions of backend and prompt, although real endpoints are not deterministic.
- Concurrent builds and questions on the shared slot are not modelled: requests are served one at a time.
- The frontends (frontend/client.py, client.py), model endpoint configuration (backend/Phi.py, backend/Llama3.py, backend/Mixtral.py, Phi.py) and the live integration tests are not part of this model.
- `PyText.IsSpace` takes the whitespace set from Python's `str.isspace()`. Other Unicode details of `strip()` are not modelled.
