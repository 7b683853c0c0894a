/**
 * The request handlers of the backend (backend/api.py): backend dispatch,
 * building a conversation from uploaded PDFs, answering a question with
 * citations, and comparing two reports.
 *
 * The process-wide `app.state.conversation` slot is an explicit `Session`
 * value passed in and returned. Every library and model call is a field of
 * `Env`: the PDF reader and OCR, the text splitter, the vector index
 * constructor, the retrieval-chain factory, one call of a chain, and one
 * completion by an LLM backend.
 */
module Api {
  import opened Wrappers
  import opened PyText
  import opened Vectorstore

  /** Directory the uploaded PDFs are stored in. */
  const PdfDir: string := "uploaded_pdfs"

  /** The three hosted model endpoints. */
  datatype Backend = Llama3 | Mixtral | Phi

  /** `get_llm`: a total dispatch on the choice string; every string other
      than the two exact names selects Phi. */
  function GetLlm(choice: string): (b: Backend)
    ensures b == Llama3 <==> choice == "Llama 3.1"
    ensures b == Mixtral <==> choice == "Mixtral"
    ensures b == Phi <==> choice != "Llama 3.1" && choice != "Mixtral"
  {
    if choice == "Llama 3.1" then Llama3
    else if choice == "Mixtral" then Mixtral
    else Phi
  }

  /** The label the frontend's model menu shows for each backend. */
  function MenuLabel(b: Backend): string {
    match b
    case Llama3 => "Llama 3.1"
    case Mixtral => "Mixtral"
    case Phi => "Phi"
  }

  /** Each menu label selects the backend it names. */
  lemma MenuLabelSelectsItsBackend(b: Backend)
    ensures GetLlm(MenuLabel(b)) == b
  {
  }

  /** POSIX `os.path.join(dir, name)`: an absolute `name` replaces `dir`;
      otherwise one `/` is inserted unless `dir` is empty or already ends in one. */
  function JoinPath(dir: string, name: string): string {
    if |name| > 0 && name[0] == '/' then name
    else if |dir| == 0 || dir[|dir| - 1] == '/' then dir + name
    else dir + "/" + name
  }

  /** A name that `os.path.join` would not treat as absolute. */
  predicate IsRelative(name: string) {
    !(|name| > 0 && name[0] == '/')
  }

  /** The path a file name is read from: inside the upload directory, unless
      the name is absolute. */
  function ResolvePath(name: string): (path: string)
    ensures IsRelative(name) ==> path == PdfDir + "/" + name
    ensures !IsRelative(name) ==> path == name
  {
    JoinPath(PdfDir, name)
  }

  /** The file name can be read back from a resolved relative path, so two
      different relative names never resolve to the same path string. */
  lemma ResolvePathKeepsName(name: string, other: string)
    requires IsRelative(name) && IsRelative(other)
    ensures ResolvePath(name)[|PdfDir| + 1..] == name
    ensures ResolvePath(name) == ResolvePath(other) ==> name == other
  {
    assert ResolvePath(name)[|PdfDir| + 1..] == name;
    if ResolvePath(name) == ResolvePath(other) {
      assert ResolvePath(other)[|PdfDir| + 1..] == other;
    }
  }

  /** The list comprehension of `process_pdfs`: one path per name, in order. */
  function ResolvePaths(names: seq<string>): (paths: seq<string>)
    ensures |paths| == |names|
    ensures forall i :: 0 <= i < |names| && IsRelative(names[i]) ==> paths[i] == PdfDir + "/" + names[i]
    ensures forall i :: 0 <= i < |names| && !IsRelative(names[i]) ==> paths[i] == names[i]
  {
    seq(|names|, i requires 0 <= i < |names| => ResolvePath(names[i]))
  }

  /** A chat-history entry of the conversation memory. */
  datatype Message = HumanMessage(text: string) | AiMessage(text: string)

  /** What one call of the retrieval chain returns. A missing
      `source_documents` entry is `None`. */
  datatype ChainResponse = ChainResponse(answer: string, chatHistory: seq<Message>, sourceDocuments: Option<seq<Doc>>)

  /** The library and model calls the handlers make. `V` is the vector index,
      `C` the conversation chain (with its memory). */
  datatype Env<!V, !C> = Env(
    read: Reader,
    ocr: Ocr,
    split: seq<Doc> -> seq<Doc>,
    build: seq<Doc> -> Result<V, string>,
    makeChain: (V, Backend) -> C,
    chain: (C, string) -> (ChainResponse, C),
    complete: (Backend, string) -> string)

  /** The `app.state.conversation` slot; `None` covers both "never set" and `None`. */
  datatype Session<C> = Session(conversation: Option<C>)

  /** The replies of `process_pdfs`; a raised error surfaces as a server error. */
  datatype ProcessReply = Processed(status: string, llm: string) | ProcessFailed(error: Error)

  /** `process_pdfs`: extract, chunk and index the named files, and only when
      all of that succeeds replace the conversation with a fresh chain over
      the new index. */
  function ProcessPdfs<V, C>(s: Session<C>, llmChoice: string, pdfFiles: seq<string>, env: Env<V, C>)
    : (out: (ProcessReply, Session<C>))
    ensures out.0.ProcessFailed? ==> out.1 == s
    ensures out.0.Processed? <==>
      && GetPdfText(ResolvePaths(pdfFiles), env.read, env.ocr).Success?
      && var chunks := env.split(GetPdfText(ResolvePaths(pdfFiles), env.read, env.ocr).value);
         |chunks| > 0 && env.build(chunks).Success?
    ensures out.0.Processed? ==>
      && out.0.llm == llmChoice
      && var chunks := env.split(GetPdfText(ResolvePaths(pdfFiles), env.read, env.ocr).value);
         out.1 == Session(Some(env.makeChain(env.build(chunks).value, GetLlm(llmChoice))))
  {
    var paths := ResolvePaths(pdfFiles);
    match GetPdfText(paths, env.read, env.ocr)
    case Failure(e) => (ProcessFailed(e), s)
    case Success(raw) =>
      match GetVectorstore(env.split(raw), env.build)
      case Failure(e) => (ProcessFailed(e), s)
      case Success(index) =>
        (Processed("PDFs processed successfully", llmChoice), Session(Some(env.makeChain(index, GetLlm(llmChoice)))))
  }

  /** When the files yield no chunks the build stops with the empty-input
      error and the previous conversation stays in place. */
  lemma ProcessWithoutChunksKeepsConversation<V, C>(s: Session<C>, llmChoice: string, pdfFiles: seq<string>, env: Env<V, C>)
    requires GetPdfText(ResolvePaths(pdfFiles), env.read, env.ocr).Success?
    requires env.split(GetPdfText(ResolvePaths(pdfFiles), env.read, env.ocr).value) == []
    ensures ProcessPdfs(s, llmChoice, pdfFiles, env) == (ProcessFailed(NoChunks), s)
  {
  }

  /** A successful build replaces the conversation wholesale: the new session
      does not depend on the one it replaced. */
  lemma ProcessReplacesConversation<V, C>(s1: Session<C>, s2: Session<C>, llmChoice: string, pdfFiles: seq<string>, env: Env<V, C>)
    ensures ProcessPdfs(s1, llmChoice, pdfFiles, env).0 == ProcessPdfs(s2, llmChoice, pdfFiles, env).0
    ensures ProcessPdfs(s1, llmChoice, pdfFiles, env).0.Processed? ==>
      ProcessPdfs(s1, llmChoice, pdfFiles, env).1 == ProcessPdfs(s2, llmChoice, pdfFiles, env).1
  {
  }

  /** A source of an answer as the client receives it. */
  datatype Citation = Citation(page: MetaValue, file: MetaValue, snippet: string)

  /** The replies of `ask_question`. */
  datatype AskReply =
    | NotReady(status: int, error: string)
    | Answered(answer: string, chatHistory: seq<Message>, sources: seq<Citation>)

  /** Python's `metadata.get(key, "Unknown")`. */
  function MetaOrUnknown(metadata: map<string, MetaValue>, key: string): MetaValue {
    if key in metadata then metadata[key] else Str("Unknown")
  }

  /** The citation for one retrieved chunk: its page and file metadata, and
      its first 200 characters. */
  function CitationOf(d: Doc): Citation {
    Citation(MetaOrUnknown(d.metadata, "page"), MetaOrUnknown(d.metadata, "source"), Head(d.content, 200))
  }

  /** The citations of the retrieved chunks, one each, in retrieval order. */
  function Citations(docs: seq<Doc>): seq<Citation> {
    seq(|docs|, i requires 0 <= i < |docs| => CitationOf(docs[i]))
  }

  /** Python's `response.get("source_documents", [])`. */
  function SourceDocs(resp: ChainResponse): seq<Doc> {
    match resp.sourceDocuments
    case None => []
    case Some(docs) => docs
  }

  /** `ask_question`: refused with status 400 while no conversation is set;
      otherwise one call of the chain, whose answer and history are passed
      through and whose sources become citations. */
  function AskQuestion<C>(s: Session<C>, question: string, llmChoice: string, chain: (C, string) -> (ChainResponse, C))
    : (out: (AskReply, Session<C>))
    ensures out.0.NotReady? <==> s.conversation.None?
    ensures out.0.NotReady? ==> out.0.status == 400 && out.1 == s
    ensures out.0.Answered? ==>
      var (resp, next) := chain(s.conversation.value, question);
      && out.0.answer == resp.answer
      && out.0.chatHistory == resp.chatHistory
      && out.1 == Session(Some(next))
      && |out.0.sources| == |SourceDocs(resp)|
      && forall i :: 0 <= i < |SourceDocs(resp)| ==>
           var d := SourceDocs(resp)[i];
           && out.0.sources[i].snippet <= d.content
           && |out.0.sources[i].snippet| == Min(200, |d.content|)
           && out.0.sources[i].page == (if "page" in d.metadata then d.metadata["page"] else Str("Unknown"))
           && out.0.sources[i].file == (if "source" in d.metadata then d.metadata["source"] else Str("Unknown"))
  {
    match s.conversation
    case None => (NotReady(400, "No conversation chain found. Process PDFs first."), s)
    case Some(c) =>
      var (resp, next) := chain(c, question);
      (Answered(resp.answer, resp.chatHistory, Citations(SourceDocs(resp))), Session(Some(next)))
  }

  /** A question asked before any build never reaches a chain. */
  lemma AskWithoutConversationCallsNoChain<C>(s: Session<C>, question: string, llmChoice: string,
                                               chain1: (C, string) -> (ChainResponse, C),
                                               chain2: (C, string) -> (ChainResponse, C))
    requires s.conversation.None?
    ensures AskQuestion(s, question, llmChoice, chain1) == AskQuestion(s, question, llmChoice, chain2)
  {
  }

  /** The backend named in the question request has no effect: the chain
      keeps the backend chosen when it was built. */
  lemma AskIgnoresLlmChoice<C>(s: Session<C>, question: string, choice1: string, choice2: string,
                               chain: (C, string) -> (ChainResponse, C))
    ensures AskQuestion(s, question, choice1, chain) == AskQuestion(s, question, choice2, chain)
  {
  }

  /** A chunk cut from an extracted page is cited with that page's number and
      file, and a snippet of at most 200 characters that starts its text. */
  lemma CitationOfExtractedPage(path: string, page: nat, text: string)
    ensures CitationOf(PageDocument(path, page, text)) == Citation(Int(page), Str(path), Head(text, 200))
    ensures |CitationOf(PageDocument(path, page, text)).snippet| <= 200
    ensures |text| <= 200 ==> CitationOf(PageDocument(path, page, text)).snippet == text
  {
  }

  /** The replies of `compare_reports`. */
  datatype CompareReply =
    | CompareRejected(status: int, error: string)
    | CompareFailed(cause: Error)
    | Compared(comparison: string, summaries: map<string, string>)

  const SummaryInstruction: string := "Summarize the following market research report in a concise paragraph:\n\n"
  const CompareHead: string :=
    "Compare the following two market research reports and highlight their similarities, differences, "
    + "and key insights:\n\nReport 1 Summary:\n"
  const CompareMiddle: string := "\n\nReport 2 Summary:\n"
  const CompareTail: string := "\n\nComparison:"

  /** The summary request for one report: the instruction, then its text. */
  function SummaryPrompt(text: string): (prompt: string)
    ensures |SummaryInstruction| <= |prompt| && prompt[|SummaryInstruction|..] == text
  {
    SummaryInstruction + text
  }

  /** The comparison request: the first summary is embedded, whole, before
      the second. */
  function ComparePrompt(first: string, second: string): (prompt: string)
    ensures |CompareHead| + |first| + |CompareMiddle| + |second| <= |prompt|
    ensures prompt[|CompareHead|..|CompareHead| + |first|] == first
    ensures prompt[|CompareHead| + |first| + |CompareMiddle|..|CompareHead| + |first| + |CompareMiddle| + |second|] == second
  {
    CompareHead + first + CompareMiddle + second + CompareTail
  }

  /** The chunk texts of a document, in chunk order. */
  function ChunkTexts(chunks: seq<Doc>): seq<string> {
    seq(|chunks|, i requires 0 <= i < |chunks| => chunks[i].content)
  }

  /** All chunk contents of a document run together, in chunk order, with a
      single space between neighbours. */
  function CombinedText(chunks: seq<Doc>): string {
    Join(" ", ChunkTexts(chunks))
  }

  /** The combined text holds every chunk's content, whole and in chunk order,
      with a single space between neighbours. */
  lemma CombinedTextKeepsChunkOrder(chunks: seq<Doc>, i: nat)
    requires i < |chunks|
    ensures var o := JoinOffset(" ", ChunkTexts(chunks), i);
      && o + |chunks[i].content| <= |CombinedText(chunks)|
      && CombinedText(chunks)[o..o + |chunks[i].content|] == chunks[i].content
      && (i + 1 < |chunks| ==>
           && o + |chunks[i].content| < |CombinedText(chunks)|
           && CombinedText(chunks)[o + |chunks[i].content|] == ' '
           && JoinOffset(" ", ChunkTexts(chunks), i + 1) == o + |chunks[i].content| + 1)
  {
    var texts := ChunkTexts(chunks);
    JoinPlacesPart(" ", texts, i);
    if i + 1 < |chunks| {
      JoinSeparatesParts(" ", texts, i);
      var o := JoinOffset(" ", texts, i) + |texts[i]|;
      assert Join(" ", texts)[o..o + 1] == " ";
      assert Join(" ", texts)[o] == Join(" ", texts)[o..o + 1][0];
    }
  }

  /** The summary request for one named file, or the error its extraction raised. */
  function SummaryRequest<V, C>(pdf: string, env: Env<V, C>): Result<string, Error> {
    match GetPdfText([ResolvePath(pdf)], env.read, env.ocr)
    case Failure(e) => Failure(e)
    case Success(raw) => Success(SummaryPrompt(CombinedText(env.split(raw))))
  }

  /** `compare_reports`: with exactly two names, summarise each report in
      turn and then ask once for a comparison of the two summaries. The
      second component lists the prompts sent to the model, in order. */
  function CompareReports<V, C>(llmChoice: string, pdfFiles: seq<string>, env: Env<V, C>)
    : (out: (CompareReply, seq<string>))
    ensures out.0.CompareRejected? <==> |pdfFiles| != 2
    ensures out.0.CompareRejected? ==> out.0.status == 400 && out.1 == []
    ensures out.0.Compared? ==>
      && |pdfFiles| == 2
      && SummaryRequest(pdfFiles[0], env).Success?
      && SummaryRequest(pdfFiles[1], env).Success?
      && out.0.summaries.Keys == {pdfFiles[0], pdfFiles[1]}
      && out.1 == [SummaryRequest(pdfFiles[0], env).value, SummaryRequest(pdfFiles[1], env).value,
                   ComparePrompt(out.0.summaries[pdfFiles[0]], out.0.summaries[pdfFiles[1]])]
      && out.0.summaries[pdfFiles[1]] == env.complete(GetLlm(llmChoice), out.1[1])
      && out.0.summaries[pdfFiles[0]] == env.complete(GetLlm(llmChoice), out.1[0])
      && out.0.comparison == env.complete(GetLlm(llmChoice), out.1[2])
    ensures out.0.CompareFailed? ==>
      && |pdfFiles| == 2
      && (SummaryRequest(pdfFiles[0], env).Failure? ==>
            out == (CompareFailed(SummaryRequest(pdfFiles[0], env).error), []))
      && (SummaryRequest(pdfFiles[0], env).Success? ==>
            && SummaryRequest(pdfFiles[1], env).Failure?
            && out == (CompareFailed(SummaryRequest(pdfFiles[1], env).error), [SummaryRequest(pdfFiles[0], env).value]))
  {
    if |pdfFiles| != 2 then (CompareRejected(400, "Please select exactly 2 PDFs for comparison."), [])
    else
      var llm := GetLlm(llmChoice);
      match SummaryRequest(pdfFiles[0], env)
      case Failure(e) => (CompareFailed(e), [])
      case Success(p0) =>
        var s0 := env.complete(llm, p0);
        match SummaryRequest(pdfFiles[1], env)
        case Failure(e) => (CompareFailed(e), [p0])
        case Success(p1) =>
          var s1 := env.complete(llm, p1);
          var summaries := map[pdfFiles[0] := s0][pdfFiles[1] := s1];
          var request := ComparePrompt(summaries[pdfFiles[0]], summaries[pdfFiles[1]]);
          (Compared(env.complete(llm, request), summaries), [p0, p1, request])
  }

  /** A request without exactly two names is refused before any file is
      read or any model is called: no part of the environment matters. */
  lemma CompareRejectsBeforeAnyWork<V, C>(llmChoice: string, pdfFiles: seq<string>, env1: Env<V, C>, env2: Env<V, C>)
    requires |pdfFiles| != 2
    ensures CompareReports(llmChoice, pdfFiles, env1) == CompareReports(llmChoice, pdfFiles, env2)
  {
  }

  /** With two names, the comparison succeeds exactly when both files can be
      read; OCR trouble never fails it. */
  lemma CompareSucceedsIffBothReadable<V, C>(llmChoice: string, pdfFiles: seq<string>, env: Env<V, C>)
    requires |pdfFiles| == 2
    ensures CompareReports(llmChoice, pdfFiles, env).0.Compared? <==>
      env.read(ResolvePath(pdfFiles[0])).Some? && env.read(ResolvePath(pdfFiles[1])).Some?
  {
    GetPdfTextFailsOnlyOnUnreadableFile([ResolvePath(pdfFiles[0])], env.read, env.ocr);
    GetPdfTextFailsOnlyOnUnreadableFile([ResolvePath(pdfFiles[1])], env.read, env.ocr);
  }
}
