# Per-user report index and query orchestration, modelled in Dafny

This project models the two pieces of logic that the health-report service
owns itself, apart from the libraries it glues together:

- **The per-user index store** (`app/services/vector_store.py`). Each user id
  owns one FAISS index directory, `FAISS_INDEX_DIR / "faiss_index_<user_id>"`.
  An upload removes the old index and runs OCR → load → split → embed → save.
  On failure it removes whatever was written. In every case it then deletes the
  uploaded PDF and its `.ocr.pdf` sibling. The store can also delete an index
  (reporting whether anything was removed) and load one (giving nothing for a
  missing or unreadable index).
- **The query pipeline and the "fetch all chunks" tool**
  (`app/services/agent_service.py`). A query loads the retriever, retrieves,
  fills the prompt template and invokes the agent. Each failure gives a fixed
  answer, and an empty retrieval is replaced by a fixed placeholder.

Modules, one per concern:

- `Wrappers` (`wrappers.dfy`): `Option` and `Result`. A `Result` carries either
  a value or the text of a raised exception.
- `Paths` (`paths.dfy`): how pathlib builds `base / name` and
  `with_suffix`. A path is the sequence of its parts below the file-system anchor.
  `base / name` splits `name` at `/` and drops empty and `.` pieces, as
  pathlib does.
- `VectorStore` (`vector_store.dfy`): the class `IndexStore`. Its fields are
  `dirs` (the directories that exist), `indexes` (what `save_local` wrote into
  each index directory: a saved docstore or a damaged partial index) and `files`
  (uploads and OCR output). `shutil.rmtree`, `save_local` and `unlink` change
  these fields step by step in `CreateVectorStore` and `DeleteVectorStore`.
- `AgentService` (`agent_service.dfy`): `GetAllChunks` and `RunAgentQuery` as
  total functions. A query's result records the library calls it made
  (retrieve, format prompt, invoke agent), so that the calls it does *not* make
  can be stated.

External behaviour enters as arguments:

- `IngestRun` says which of OCR, load, split, embed or save raises. It also says
  whether the failing step left an OCR output file or a partial index directory
  behind, and which chunks the splitter produced when everything succeeds.
- `Removal` says whether `rmtree` in delete succeeds. When it raises, it says
  which subtrees it had removed and which index directories it had already
  begun to empty.
- `loadRaises` says whether `FAISS.load_local` raises on a directory that holds
  a saved index.
- `fetchError` stands for an exception while reading the docstore.
- `retrieve`, `format` and `agent` are functions giving what the retriever, the
  prompt template and the agent executor return or raise.

Where one might expect otherwise, the model follows the code:

- Load gives "absent" (`None`) for a corrupt index and does not raise.
- Delete returns `false` when `rmtree` raises and does not propagate the error.
- No id sanitisation happens. ids containing `/` can share or nest index
  directories.
- A query returns one string and no status.
- Failures at the two unprotected `rmtree` calls and the `unlink` calls in
  create propagate as exceptions.

## Model

| member | source | states |
|---|---|---|
| Paths.SlashIndex | app/services/vector_store.py:27 | the position of the first '/' in a name, or its length when it has none |
| Paths.Split | app/services/vector_store.py:27 | the pieces of a name between slashes: at least one, none containing '/' |
| Paths.UnsplitSplit | app/services/vector_store.py:27 | joining the pieces with '/' gives the name back, so splitting loses nothing |
| Paths.SplitAtSlash | app/services/vector_store.py:27 | splitting takes the name apart at its first slash |
| Paths.Clean | app/services/vector_store.py:27 | exactly the pieces that are neither empty nor "." are kept: every kept piece is such a piece of the input, and every such piece is kept |
| Paths.CleanAppend | app/services/vector_store.py:27 | cleaning keeps order: the parts of a + b are the parts of a followed by those of b |
| Paths.Parts | app/services/vector_store.py:27 | the parts a name adds to a path are exactly its slash-separated pieces that are neither empty nor "."; none contains '/' |
| Paths.PartsOfPlainName | app/services/vector_store.py:27 | a slash-free name other than "" and "." is a single part, unchanged |
| Paths.LastDot | app/services/vector_store.py:41 | the position of the last '.' in a name (no dot after it), or -1 |
| Paths.LastDotOfExtension | app/services/vector_store.py:41 | in stem + ext, where ext opens with its only dot, the last dot is the one opening ext |
| Paths.Suffix | app/services/vector_store.py:41 | pathlib's suffix: non-empty exactly when the last dot is neither the first nor the last character. It is then the tail of the name from that dot, which is its only dot |
| Paths.WithSuffix | app/services/vector_store.py:41 | the renamed path stays in the same directory. Its final part is the old name's stem (the name without its suffix) followed by the new suffix |
| VectorStore.PrefixedNameParts | app/services/vector_store.py:27 | "faiss_index_" + any id gives at least one part, and the first begins with "faiss_index_" |
| VectorStore.FaissPath | app/services/vector_store.py:25-27 | a user's index path lies strictly below the index root and its first part there starts with "faiss_index_" |
| VectorStore.FaissPathOfPlainId | app/services/vector_store.py:25-27 | for an id without '/', the index path is the root plus one part, "faiss_index_" + id |
| VectorStore.FaissPathsApart | app/services/vector_store.py:25-27 | distinct ids without '/' get index paths neither of which lies within the other |
| VectorStore.FaissPathInjective | app/services/vector_store.py:25-27 | the path derivation is injective on ids without '/' |
| VectorStore.TrailingSlashShares | app/services/vector_store.py:27 | the ids "u" and "u/" get the same index path |
| VectorStore.SlashedIdNests | app/services/vector_store.py:27 | the index path of the id "a/b" lies inside that of the id "a" |
| VectorStore.OcrSiblingOfPdf | app/services/vector_store.py:41 | the OCR output of stem + ".pdf" is stem + ".ocr.pdf" in the same directory |
| VectorStore.OcrSiblingDiffers | app/services/vector_store.py:41 | the OCR output path is never the upload's own path |
| VectorStore.PruneKeepsParents | app/services/vector_store.py:39 | after rmtree(p), p is gone, every directory left still has its parents, and every index left lies in a directory left |
| VectorStore.PruneAfterMkdir | app/services/vector_store.py:63-72 | removing p after save_local created it and its parents leaves the parents |
| VectorStore.PrefixesHaveParents | app/services/vector_store.py:63 | the directories mkdir(parents=True) creates include each one's parents |
| VectorStore.NothingBelowMissing | app/services/vector_store.py:38-39 | when p does not exist, nothing lies below it, so skipping rmtree changes nothing |
| VectorStore.LoadFromSameEntry | app/services/vector_store.py:105-115 | what loading a path gives depends only on what is saved at that path |
| VectorStore.IndexStore.constructor | app/config.py:23-27 | on a fresh disk, the store starts with the index root existing and no indexes or files |
| VectorStore.IndexStore.IndexPath | app/services/vector_store.py:25-27 | the user's index path lies strictly within the store's index root |
| VectorStore.IndexStore.RemoveTree | app/services/vector_store.py:89 | a successful rmtree removes p and everything within it, nothing else |
| VectorStore.IndexStore.RemoveTreeRaising | app/services/vector_store.py:88-94 | an rmtree that raises keeps p. It removes only whole subtrees below p, and an index it had begun to empty is left damaged |
| VectorStore.IndexStore.RemoveIfExists | app/services/vector_store.py:38-39 | afterwards nothing within p exists; everything else is unchanged |
| VectorStore.IndexStore.SaveLocal | app/services/vector_store.py:63 | save_local creates p and its parents and records what was written at p |
| VectorStore.IndexStore.Unlink | app/services/vector_store.py:77-80 | unlinking removes that one file and nothing else |
| VectorStore.IndexStore.RunIngest | app/services/vector_store.py:43-66 | the try body raises exactly when a step fails; the OCR output and the saved index appear as the outcome says |
| VectorStore.IndexStore.RemoveTemporaryFiles | app/services/vector_store.py:75-80 | the upload and its OCR output no longer exist; directories and indexes are unchanged |
| VectorStore.IndexStore.CreateVectorStore | app/services/vector_store.py:33-80 | returns true exactly when every step succeeds. Then the user's path holds only an index over the produced chunks, and loading gives those chunks. On failure nothing exists at the user's path and loading gives nothing. Old content within the path is always gone first. Both temporary files are always gone afterwards. Other users' (slash-free ids) loads are unchanged |
| VectorStore.IndexStore.DeleteVectorStore | app/services/vector_store.py:83-97 | returns true exactly when the path existed and rmtree succeeded, and then nothing remains to load. An absent path gives false with nothing changed. A raising rmtree gives false with the path still present and only whole subtrees below it removed. If rmtree had already begun to empty the user's own index, loading it gives nothing; otherwise loading gives what it gave before. Other users' loads are unchanged |
| VectorStore.IndexStore.LoadVectorStore | app/services/vector_store.py:100-115 | gives nothing when the path is missing or loading raises. Otherwise it gives a store exactly when a complete index is saved there, with that index's docstore |
| VectorStore.IndexStore.GetRetriever | app/services/vector_store.py:118-131 | gives nothing exactly when loading gives nothing; otherwise a retriever over the loaded store |
| AgentService.PageContents | app/services/agent_service.py:45 | one text per document, in order, each the document's page_content |
| AgentService.GetAllChunks | app/services/agent_service.py:34-50 | with no index, the one "No health report found" message. When reading raises, one message starting "Error fetching data: ". Otherwise every saved chunk's text, as many as the docstore holds, in order |
| AgentService.FetchedData | app/services/agent_service.py:150-161 | never empty. The placeholder alone for an empty retrieval; otherwise the retrieved texts in retriever order, one per document |
| AgentService.RunAgentQuery | app/services/agent_service.py:132-194 | with no retriever (in particular with no index directory), the not-found answer and no calls. Otherwise retrieval with the query as given. If retrieval raises, its fixed answer and no further calls. The prompt is filled with exactly the fetched data, the query and the user id. If formatting raises, its fixed answer, and the agent is not invoked. Otherwise the agent receives the rendered prompt and the answer is its output, or the fixed processing answer if it raises |

## Left out

- OCR, PDF loading, text splitting (chunk size 150, overlap 20), embedding and FAISS index building (app/services/vector_store.py:16-20, 46-63): these are library calls. They appear only through `IngestRun`. The model claims nothing about chunk sizes, overlaps or vectors.
- Similarity search and the retriever's default k (app/services/vector_store.py:129): a library call, modelled as the `retrieve` argument.
- The ReAct agent, its tools, its parse-error handling and the Gemini model (app/services/agent_service.py:53-102): library code, modelled as the `agent` argument. The DuckDuckGo search tool (lines 17-27) is a network call and is not modelled.
- The text of the prompt template (lines 107-127): only the three variables it is filled with are modelled. Rendering is the `format` argument.
- The HTTP endpoints, including `delete_all`, server start-up, environment loading and the response schemas: these are not part of this model.
- All `print` logging: it is output only.
- Concurrent requests for the same user: the code does not coordinate them, and each operation is modelled as one atomic call.
- VectorStore.IndexStore.CreateVectorStore: assumes the `rmtree` at lines 39 and 72 and the `unlink` calls at lines 78 and 80 succeed. An error there propagates out of create_vector_store; at line 39, before the `try`, the temporary files are then left in place.
- VectorStore.IndexStore.CreateVectorStore: requires the upload path to have a non-empty final part, because `with_suffix` at line 41 (outside the `try`) raises otherwise.
- VectorStore.IndexStore.CreateVectorStore: the "other users unchanged" clause is stated only for ids without '/'. For other ids it does not hold, since an id like "a/b" has its index inside the directory of "a" (VectorStore.SlashedIdNests).
- VectorStore.IndexStore.DeleteVectorStore: the "other users unchanged" clause is likewise stated only for ids without '/'.
- VectorStore.FaissPathInjective: stated for ids without '/'. pathlib drops trailing slashes and "." parts, so "u" and "u/" share a path (VectorStore.TrailingSlashShares).
- VectorStore.FaissPathsApart: stated for ids without '/', for the same reason.
- A ".." part is kept as pathlib keeps it. The operating system's resolution of "..", which lets an id reach outside the index root, is not modelled, and no claim is made that paths are safe.
- Paths.Join: names starting with '/' (which pathlib treats as absolute) are not modelled. The derived name always starts with "faiss_index_". The path anchor and Windows separators are not modelled either.
- VectorStore.IndexStore.RemoveTreeRaising: which directories a failed `rmtree` removed or began to empty is given by the `Removal` argument. The model does not derive it from the order in which `rmtree` visits entries.
- Paths are compared as exact strings, as on a case-sensitive POSIX file system. On a case-insensitive file system, ids such as "U" and "u" would share one index directory, and VectorStore.FaissPathInjective would not describe the disk.
- The constructor models a first start on an empty disk. DATA_DIR (app/config.py:16-21) is persistent, so after a restart the indexes saved earlier are still there.
- Truthiness: `if vectorstore:` and `if not retriever:` are modelled as tests for `None`, on the reading that these objects define no length or boolean value. An exception's text (`str(e)`) enters as a given string.
- Uploads and index directories are modelled as separate parts of the disk: `files` and `dirs`/`indexes`.
