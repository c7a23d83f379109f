/** The decision logic of app/services/agent_service.py: the "fetch all chunks"
    tool and the four-stage query pipeline (load retriever, retrieve, format the
    prompt, invoke the agent).

    The retriever's similarity search, the prompt template and the ReAct agent
    are libraries; each enters as a function argument giving what the call
    returns or the text of what it raises. The result of a query records which
    of those calls were made, so that "the agent is never invoked" can be said. */
module AgentService {
  import opened Wrappers
  import opened VectorStore

  const NoReportFound: string := "Error: No health report found for this user. Please upload a document first."
  const FetchErrorPrefix: string := "Error fetching data: "
  const NoDataPlaceholder: string := "No specific data found for this query."
  const RetrievalFailedAnswer: string := "I'm sorry, I encountered an error while retrieving your health data."
  const PreparingFailedAnswer: string := "I'm sorry, I encountered an error while preparing your query."
  const ProcessingFailedAnswer: string := "I'm sorry, I encountered an error while processing your request."

  /** The answer for a user without a usable index. */
  function NotFoundAnswer(userId: string): string
  {
    "I'm sorry, but I couldn't find a health report for user " + userId + ". Please upload one first."
  }

  /** `[doc.page_content for doc in docs]`: one text per document, in order. */
  function PageContents(docs: seq<Document>): (texts: seq<string>)
    ensures |texts| == |docs|
    ensures forall i :: 0 <= i < |docs| ==> texts[i] == docs[i].pageContent
  {
    if docs == [] then [] else [docs[0].pageContent] + PageContents(docs[1..])
  }

  /** `getAllChunks_fn(user_id)`: the text of every chunk in the user's saved
      index, in docstore order; a one-message list when there is no loadable
      index, or when reading the docstore raises (`fetchError`). */
  function GetAllChunks(store: IndexStore, userId: string, loadRaises: bool, fetchError: Option<string>): (r: seq<string>)
    requires store.Valid()
    reads store
    ensures store.LoadVectorStore(userId, loadRaises).None? ==> r == [NoReportFound]
    ensures store.IndexPath(userId) !in store.dirs ==> r == [NoReportFound]
    ensures store.LoadVectorStore(userId, loadRaises).Some? && fetchError.Some? ==>
              |r| == 1 && FetchErrorPrefix <= r[0] && r[0] == FetchErrorPrefix + fetchError.value
    ensures var p := store.IndexPath(userId);
            !loadRaises && fetchError.None? && p in store.indexes && store.indexes[p].Saved? ==>
              |r| == |store.indexes[p].docstore| &&
              forall i :: 0 <= i < |r| ==> r[i] == store.indexes[p].docstore[i].pageContent
  {
    match store.LoadVectorStore(userId, loadRaises)
    case None => [NoReportFound]
    case Some(vectorstore) =>
      match fetchError
      case None => PageContents(vectorstore.docstore)
      case Some(e) => [FetchErrorPrefix + e]
  }

  /** The three variables the prompt template is filled with. */
  datatype PromptInput = PromptInput(data: seq<string>, query: string, userId: string)

  /** A call the query pipeline makes into a library. */
  datatype Call =
    | Retrieve(query: string)          // retriever.invoke(query)
    | FormatPrompt(input: PromptInput) // PROMPT_TEMPLATE.invoke({...})
    | InvokeAgent(prompt: string)      // agent_executor.invoke({"input": prompt})

  /** The answer returned to the caller and the library calls made on the way. */
  datatype QueryRun = QueryRun(answer: string, calls: seq<Call>)

  /** The data handed to the prompt: the retrieved texts in retriever order, or
      the placeholder when nothing was retrieved; never empty. */
  function FetchedData(docs: seq<Document>): (data: seq<string>)
    ensures |data| >= 1
    ensures docs == [] ==> data == [NoDataPlaceholder]
    ensures docs != [] ==> |data| == |docs| && forall i :: 0 <= i < |docs| ==> data[i] == docs[i].pageContent
  {
    if docs == [] then [NoDataPlaceholder] else PageContents(docs)
  }

  predicate Invoked(calls: seq<Call>)
  {
    exists k :: 0 <= k < |calls| && calls[k].InvokeAgent?
  }

  /** `run_agent_query(user_id, query)`. Without a retriever it answers that no
      report was found and calls nothing; otherwise it retrieves with the query
      as given, fills the prompt with exactly the retrieved data, the query and
      the user id, and hands the rendered prompt to the agent. A failure at any
      stage ends the pipeline with that stage's fixed answer; only when every
      stage succeeds is the answer the agent's output. */
  function RunAgentQuery(store: IndexStore, userId: string, query: string, loadRaises: bool,
                         retrieve: (Retriever, string) -> Result<seq<Document>>,
                         format: PromptInput -> Result<string>,
                         agent: string -> Result<string>): (r: QueryRun)
    requires store.Valid()
    reads store
    ensures r.calls == [] <==> store.GetRetriever(userId, loadRaises).None?
    ensures r.calls == [] ==> r.answer == NotFoundAnswer(userId)
    ensures store.IndexPath(userId) !in store.dirs ==> r == QueryRun(NotFoundAnswer(userId), [])
    ensures r.calls != [] ==> r.calls[0] == Retrieve(query) && |r.calls| <= 3
    ensures r.calls != [] && retrieve(store.GetRetriever(userId, loadRaises).value, query).Failure? ==>
              r == QueryRun(RetrievalFailedAnswer, [Retrieve(query)])
    ensures r.calls != [] && retrieve(store.GetRetriever(userId, loadRaises).value, query).Success? ==> |r.calls| >= 2
    ensures |r.calls| >= 2 ==>
              var docs := retrieve(store.GetRetriever(userId, loadRaises).value, query);
              docs.Success? && r.calls[1] == FormatPrompt(PromptInput(FetchedData(docs.value), query, userId))
    ensures |r.calls| == 2 ==> r.answer == PreparingFailedAnswer && format(r.calls[1].input).Failure?
    ensures |r.calls| >= 2 && format(r.calls[1].input).Success? ==> |r.calls| == 3
    ensures |r.calls| == 3 ==>
              var prompt := format(r.calls[1].input);
              prompt.Success? && r.calls[2] == InvokeAgent(prompt.value) &&
              r.answer == (if agent(prompt.value).Success? then agent(prompt.value).value else ProcessingFailedAnswer)
    ensures Invoked(r.calls) <==> |r.calls| == 3
  {
    match store.GetRetriever(userId, loadRaises)
    case None => QueryRun(NotFoundAnswer(userId), [])
    case Some(retriever) =>
      match retrieve(retriever, query)
      case Failure(_) => QueryRun(RetrievalFailedAnswer, [Retrieve(query)])
      case Success(docs) =>
        var input := PromptInput(FetchedData(docs), query, userId);
        match format(input)
        case Failure(_) => QueryRun(PreparingFailedAnswer, [Retrieve(query), FormatPrompt(input)])
        case Success(prompt) =>
          var calls := [Retrieve(query), FormatPrompt(input), InvokeAgent(prompt)];
          match agent(prompt)
          case Failure(_) => QueryRun(ProcessingFailedAnswer, calls)
          case Success(output) => QueryRun(output, calls)
  }
}
