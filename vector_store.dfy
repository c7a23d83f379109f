/** The per-user index store of app/services/vector_store.py: where a user's
    FAISS index lives, how an upload replaces it, how it is deleted and loaded.

    OCR, PDF loading, splitting, embedding and the FAISS library itself are not
    modelled: each ingestion is given as an `IngestRun` saying how far the chain
    of library calls gets, and each load as a flag saying whether `load_local`
    raises on a directory that holds an index. */
module VectorStore {
  import opened Wrappers
  import opened Paths

  /** A langchain `Document`: one chunk of text and its metadata. */
  datatype Document = Document(pageContent: string, metadata: map<string, string>)

  /** What `save_local` has left in an index directory. */
  datatype Entry =
    | Saved(docstore: seq<Document>)  // a complete index over these chunks, in insertion order
    | Damaged                         // a partly written index, which `load_local` cannot read

  /** A loaded FAISS vector store; only its docstore is modelled, not the vectors. */
  datatype FaissStore = FaissStore(docstore: seq<Document>)

  /** `vectorstore.as_retriever()`: a retriever over a loaded store. */
  datatype Retriever = Retriever(store: FaissStore)

  /** How far one ingestion gets through OCR, load, split, embed and save. */
  datatype IngestRun =
    | Completes(chunks: seq<Document>)  // every step succeeds; the splitter produced `chunks`
    | OcrRaises(wroteOutput: bool)      // ocrmypdf raises, possibly after writing its output file
    | LoadRaises                        // PDFPlumberLoader raises
    | SplitRaises                       // the text splitter raises
    | EmbedRaises                       // FAISS.from_documents (embedding) raises
    | SaveRaises(wroteDirectory: bool)  // save_local raises, possibly after creating the directory

  /** How `shutil.rmtree` on an existing index directory ends. */
  datatype Removal =
    | Removes                           // the whole tree is gone
    | RaisesAfterRemoving(gone: set<Path>, emptied: set<Path>)
      // it raises part-way: of the directories below the top, those in the `gone`
      // subtrees were removed; from the ones in `emptied` it had already unlinked files

  const IndexPrefix: string := "faiss_index_"
  const OcrSuffix: string := ".ocr.pdf"

  /** The directory name given to "faiss_index_" + a user id begins a path
      part of its own, whatever the id holds. */
  lemma PrefixedNameParts(userId: string)
    ensures |Parts(IndexPrefix + userId)| > 0
    ensures IndexPrefix <= Parts(IndexPrefix + userId)[0]
  {
    var name := IndexPrefix + userId;
    var i := SlashIndex(name);
    assert forall j :: 0 <= j < |IndexPrefix| ==> name[j] == IndexPrefix[j] != '/';
    assert i >= |IndexPrefix|;
    var pieces := Split(name);
    assert pieces[0] == name[..i];
    assert |pieces[0]| > 1;
    assert Clean(pieces) == [pieces[0]] + Clean(pieces[1..]);
  }

  /** `get_faiss_path`: FAISS_INDEX_DIR / f"faiss_index_{user_id}". It lies
      strictly below the index root, and the part right below the root starts
      with "faiss_index_". */
  function FaissPath(indexRoot: Path, userId: string): (p: Path)
    ensures |p| > |indexRoot| && p[..|indexRoot|] == indexRoot
    ensures IndexPrefix <= p[|indexRoot|]
  {
    PrefixedNameParts(userId);
    Join(indexRoot, IndexPrefix + userId)
  }

  /** For an id without '/', the index directory is one part below the root, named after the id. */
  lemma FaissPathOfPlainId(indexRoot: Path, userId: string)
    requires '/' !in userId
    ensures FaissPath(indexRoot, userId) == indexRoot + [IndexPrefix + userId]
  {
    var name := IndexPrefix + userId;
    assert forall j :: 0 <= j < |name| ==> name[j] != '/' by {
      forall j | 0 <= j < |name| ensures name[j] != '/' {
        if j >= |IndexPrefix| { assert name[j] == userId[j - |IndexPrefix|]; }
      }
    }
    PartsOfPlainName(name);
  }

  /** Distinct ids without '/' get distinct index directories, and neither lies below the other. */
  lemma FaissPathsApart(indexRoot: Path, u: string, v: string)
    requires '/' !in u && '/' !in v && u != v
    ensures !Within(FaissPath(indexRoot, u), FaissPath(indexRoot, v))
  {
    FaissPathOfPlainId(indexRoot, u);
    FaissPathOfPlainId(indexRoot, v);
    assert (IndexPrefix + u)[|IndexPrefix|..] == u;
    assert (IndexPrefix + v)[|IndexPrefix|..] == v;
    assert FaissPath(indexRoot, u)[|indexRoot|] != FaissPath(indexRoot, v)[|indexRoot|];
  }

  /** The path derivation is injective on ids without '/'. */
  lemma FaissPathInjective(indexRoot: Path, u: string, v: string)
    requires '/' !in u && '/' !in v
    requires FaissPath(indexRoot, u) == FaissPath(indexRoot, v)
    ensures u == v
  {
    if u != v {
      FaissPathsApart(indexRoot, u, v);
    }
  }

  /** pathlib drops a trailing slash, so the ids "u" and "u/" share one index directory. */
  lemma TrailingSlashShares(indexRoot: Path)
    ensures FaissPath(indexRoot, "u") == FaissPath(indexRoot, "u/")
  {
    FaissPathOfPlainId(indexRoot, "u");
    var name := IndexPrefix + "u/";
    assert name[..|name| - 1] == IndexPrefix + "u";
    SplitAtSlash(name, |name| - 1);
    assert name[|name|..] == "";
    assert Split(name) == [IndexPrefix + "u", ""];
    assert Clean([""]) == [];
    assert Clean([IndexPrefix + "u", ""]) == [IndexPrefix + "u"] + Clean([""]);
  }

  /** The index directory of the id "a/b" lies inside that of the id "a". */
  lemma SlashedIdNests(indexRoot: Path)
    ensures Within(FaissPath(indexRoot, "a"), FaissPath(indexRoot, "a/b"))
    ensures FaissPath(indexRoot, "a") != FaissPath(indexRoot, "a/b")
  {
    FaissPathOfPlainId(indexRoot, "a");
    var name := IndexPrefix + "a/b";
    var i := |IndexPrefix| + 1;
    assert name[..i] == IndexPrefix + "a";
    SplitAtSlash(name, i);
    assert name[i + 1..] == "b";
    assert Split("b") == ["b"];
    assert Split(name) == [IndexPrefix + "a", "b"];
    assert Clean(["b"]) == ["b"];
    assert Clean([IndexPrefix + "a", "b"]) == [IndexPrefix + "a"] + Clean(["b"]);
    assert FaissPath(indexRoot, "a/b") == indexRoot + [IndexPrefix + "a", "b"];
  }

  /** `pdf_path.with_suffix(".ocr.pdf")`: where ocrmypdf writes the searchable copy. */
  function OcrSibling(pdfPath: Path): Path
    requires |pdfPath| > 0 && pdfPath[|pdfPath| - 1] != ""
  {
    WithSuffix(pdfPath, OcrSuffix)
  }

  /** An upload named stem + ".pdf" gets its OCR output as stem + ".ocr.pdf" in the same directory. */
  lemma OcrSiblingOfPdf(dir: Path, stem: string)
    requires stem != ""
    ensures OcrSibling(dir + [stem + ".pdf"]) == dir + [stem + ".ocr.pdf"]
  {
    var name := stem + ".pdf";
    LastDotOfExtension(stem, ".pdf");
    assert Suffix(name) == ".pdf";
    assert name[..|name| - 4] == stem;
    assert (dir + [name])[..|dir|] == dir;
  }

  /** The OCR output never overwrites the upload it is made from. */
  lemma OcrSiblingDiffers(pdfPath: Path)
    requires |pdfPath| > 0 && pdfPath[|pdfPath| - 1] != ""
    ensures OcrSibling(pdfPath) != pdfPath
  {
    var n := |pdfPath| - 1;
    var name := pdfPath[n];
    var ext := Suffix(name);
    var renamed := name[..|name| - |ext|] + OcrSuffix;
    assert OcrSibling(pdfPath)[n] == renamed;
    if ext == "" {
      assert |renamed| == |name| + |OcrSuffix|;
    } else if |ext| == |OcrSuffix| {
      // The replaced suffix has a single dot; ".ocr.pdf" has a second one at offset 4.
      var k := |name| - |ext| + 4;
      assert renamed[k] == OcrSuffix[4] == '.';
      assert name[k] == ext[4] != '.';
    } else {
      assert |renamed| != |name|;
    }
  }

  /** What `shutil.rmtree(p)` leaves of a set of directories: those not within `p`. */
  function Prune(dirs: set<Path>, p: Path): set<Path>
  {
    set q | q in dirs && !Within(p, q)
  }

  /** What `shutil.rmtree(p)` leaves of the saved indexes: those not within `p`, untouched. */
  function PruneEntries(indexes: map<Path, Entry>, p: Path): map<Path, Entry>
  {
    map q | q in indexes && !Within(p, q) :: indexes[q]
  }

  /** rmtree(p) leaves a well-formed disk: `p` is gone, every directory left
      still has its parents, and every index left is in a directory left. */
  lemma PruneKeepsParents(dirs: set<Path>, indexes: map<Path, Entry>, p: Path)
    requires ParentsExist(dirs) && indexes.Keys <= dirs
    ensures p !in Prune(dirs, p)
    ensures ParentsExist(Prune(dirs, p))
    ensures PruneEntries(indexes, p).Keys <= Prune(dirs, p)
  {
    assert Within(p, p);
    forall q, i | q in Prune(dirs, p) && 0 < i < |q| ensures q[..i] in Prune(dirs, p) {
      if |p| <= i {
        assert q[..i][..|p|] == q[..|p|];
      }
    }
  }

  /** The directories strictly above `p`, which `mkdir(parents=True)` may have created and rmtree(p) leaves. */
  function Ancestors(p: Path): set<Path>
  {
    set i | 0 < i < |p| :: p[..i]
  }

  /** What a failing `rmtree(p)` removed: the directories strictly below `p` that
      lie within one of the `gone` subtrees (rmtree removes a tree bottom-up, so
      what it has finished with is whole subtrees). */
  function RemovedBelow(dirs: set<Path>, p: Path, gone: set<Path>): set<Path>
  {
    set q | q in dirs && Within(p, q) && q != p && exists r :: r in gone && Within(r, q)
  }

  /** What a failing `rmtree(p)` leaves of the saved indexes: those in removed
      subtrees are gone, and an index within `p` whose files rmtree had begun to
      unlink is left damaged; every other index is untouched. */
  function AfterFailedRemoval(indexes: map<Path, Entry>, dirs: set<Path>, p: Path,
                              gone: set<Path>, emptied: set<Path>): map<Path, Entry>
  {
    var removed := RemovedBelow(dirs, p, gone);
    map q | q in indexes && q !in removed :: if Within(p, q) && q in emptied then Damaged else indexes[q]
  }

  /** Every directory's parents exist (down to the file-system anchor). */
  ghost predicate ParentsExist(dirs: set<Path>)
  {
    forall q, i :: q in dirs && 0 < i < |q| ==> q[..i] in dirs
  }

  lemma PruneAfterMkdir(dirs: set<Path>, p: Path)
    ensures Prune(dirs + Prefixes(p), p) == Prune(dirs, p) + Ancestors(p)
  {
    forall q | q in Prune(dirs + Prefixes(p), p) ensures q in Prune(dirs, p) + Ancestors(p) {
      if q in Prefixes(p) {
        var i :| 0 < i <= |p| && q == p[..i];
        assert i < |p|;
      }
    }
  }

  lemma PrefixesHaveParents(p: Path)
    ensures ParentsExist(Prefixes(p))
  {
    forall q, i | q in Prefixes(p) && 0 < i < |q| ensures q[..i] in Prefixes(p) {
      var k :| 0 < k <= |p| && q == p[..k];
      assert q[..i] == p[..i];
    }
  }

  /** When a directory does not exist, nothing below it does, so rmtree of it would change nothing. */
  lemma NothingBelowMissing(dirs: set<Path>, indexes: map<Path, Entry>, p: Path)
    requires ParentsExist(dirs) && indexes.Keys <= dirs
    requires |p| > 0 && p !in dirs
    ensures Prune(dirs, p) == dirs && PruneEntries(indexes, p) == indexes
  {
    forall q | q in dirs ensures !Within(p, q) {
      if |p| < |q| {
        assert q[..|p|] in dirs;
      } else if |p| == |q| {
        assert q != p;
      }
    }
  }

  /** `FAISS.load_local(p)` guarded by `p.exists()`, as load_vector_store does it. */
  function LoadFrom(dirs: set<Path>, indexes: map<Path, Entry>, p: Path, loadRaises: bool): Option<FaissStore>
  {
    if p !in dirs then None
    else if !loadRaises && p in indexes && indexes[p].Saved? then Some(FaissStore(indexes[p].docstore))
    else None
  }

  /** Loading a path depends only on what is saved there. */
  lemma LoadFromSameEntry(dirs: set<Path>, indexes: map<Path, Entry>, dirs': set<Path>, indexes': map<Path, Entry>,
                          p: Path, loadRaises: bool)
    requires indexes.Keys <= dirs && indexes'.Keys <= dirs'
    requires p in indexes <==> p in indexes'
    requires p in indexes ==> indexes[p] == indexes'[p]
    ensures LoadFrom(dirs, indexes, p, loadRaises) == LoadFrom(dirs', indexes', p, loadRaises)
  {
  }

  /** A second rmtree of the same path removes nothing more. */
  lemma PruneTwice(dirs: set<Path>, indexes: map<Path, Entry>, p: Path)
    ensures Prune(Prune(dirs, p), p) == Prune(dirs, p)
    ensures PruneEntries(PruneEntries(indexes, p), p) == PruneEntries(indexes, p)
  {
  }

  /** Removing `p` after writing at `p` undoes the write. */
  lemma PruneEntriesAfterWrite(indexes: map<Path, Entry>, p: Path, e: Entry)
    ensures PruneEntries(indexes[p := e], p) == PruneEntries(indexes, p)
  {
    assert Within(p, p);
  }

  /** The index store: the directories, saved indexes and temporary files on disk. */
  class IndexStore {
    /** FAISS_INDEX_DIR (app/config.py): the directory that holds every user's index directory. */
    const indexRoot: Path
    /** The directories that exist. */
    var dirs: set<Path>
    /** The directories that hold what `save_local` wrote, and what that is. */
    var indexes: map<Path, Entry>
    /** The plain files that exist: uploads and their OCR output. */
    var files: set<Path>

    /** Every saved index lives in a directory that exists. */
    ghost predicate Valid()
      reads this
    {
      indexes.Keys <= dirs && ParentsExist(dirs)
    }

    /** The disk as the service finds it at start-up: the index root exists and holds nothing. */
    constructor (indexRoot: Path)
      ensures Valid()
      ensures this.indexRoot == indexRoot && dirs == Prefixes(indexRoot)
      ensures indexes == map[] && files == {}
    {
      PrefixesHaveParents(indexRoot);
      this.indexRoot := indexRoot;
      dirs := Prefixes(indexRoot);
      indexes := map[];
      files := {};
    }

    /** `get_faiss_path(user_id)` under this store's index root. */
    function IndexPath(userId: string): (p: Path)
      ensures Within(indexRoot, p) && p != indexRoot
    {
      FaissPath(indexRoot, userId)
    }

    /** `shutil.rmtree(p)` that succeeds: `p` and everything below it are gone, nothing else changes. */
    method RemoveTree(p: Path)
      requires Valid()
      modifies this
      ensures Valid()
      ensures dirs == Prune(old(dirs), p) && indexes == PruneEntries(old(indexes), p)
      ensures files == old(files)
    {
      PruneKeepsParents(dirs, indexes, p);
      dirs := Prune(dirs, p);
      indexes := PruneEntries(indexes, p);
    }

    /** `shutil.rmtree(p)` that raises part-way: `p` itself survives, and so does
        every directory below it that is not among those already removed; an index
        from which files were already unlinked is damaged. */
    method RemoveTreeRaising(p: Path, gone: set<Path>, emptied: set<Path>)
      requires Valid()
      modifies this
      ensures Valid()
      ensures dirs == old(dirs) - RemovedBelow(old(dirs), p, gone)
      ensures indexes == AfterFailedRemoval(old(indexes), old(dirs), p, gone, emptied)
      ensures files == old(files)
    {
      indexes := AfterFailedRemoval(indexes, dirs, p, gone, emptied);
      dirs := dirs - RemovedBelow(dirs, p, gone);
    }

    /** `if p.exists(): shutil.rmtree(p)`: afterwards nothing is left within `p`. */
    method RemoveIfExists(p: Path)
      requires Valid() && |p| > 0
      modifies this
      ensures Valid()
      ensures dirs == Prune(old(dirs), p) && indexes == PruneEntries(old(indexes), p)
      ensures files == old(files)
    {
      if p in dirs {
        RemoveTree(p);
      } else {
        NothingBelowMissing(dirs, indexes, p);
      }
    }

    /** `save_local(p)`: creates `p` and its parents and writes the index files into `p`. */
    method SaveLocal(p: Path, entry: Entry)
      requires Valid() && |p| > 0
      modifies this
      ensures Valid()
      ensures dirs == old(dirs) + Prefixes(p) && indexes == old(indexes)[p := entry]
      ensures files == old(files)
    {
      assert p == p[..|p|];
      PrefixesHaveParents(p);
      dirs := dirs + Prefixes(p);
      indexes := indexes[p := entry];
    }

    /** `path.unlink()` on a file that exists. */
    method Unlink(f: Path)
      requires f in files
      modifies this
      ensures files == old(files) - {f}
      ensures dirs == old(dirs) && indexes == old(indexes)
    {
      files := files - {f};
    }

    /** `create_vector_store(user_id, pdf_path)`. The old index is removed first;
        then the OCR → load → split → embed → save chain runs. If it completes,
        the user's directory holds an index over the chunks it produced; if any
        step raises, whatever was written at the user's path is removed again.
        Either way the upload and its OCR output are deleted at the end. */
    method CreateVectorStore(userId: string, pdfPath: Path, run: IngestRun) returns (ok: bool)
      requires Valid()
      requires |pdfPath| > 0 && pdfPath[|pdfPath| - 1] != ""
      modifies this
      ensures Valid()
      ensures ok <==> run.Completes?
      ensures ok ==> indexes == PruneEntries(old(indexes), IndexPath(userId))[IndexPath(userId) := Saved(run.chunks)]
      ensures ok ==> dirs == Prune(old(dirs), IndexPath(userId)) + Prefixes(IndexPath(userId))
      ensures !ok ==> indexes == PruneEntries(old(indexes), IndexPath(userId))
      ensures !ok ==> dirs == Prune(old(dirs), IndexPath(userId)) +
                             (if run == SaveRaises(true) then Ancestors(IndexPath(userId)) else {})
      ensures !ok ==> IndexPath(userId) !in dirs
      ensures files == old(files) - {pdfPath, OcrSibling(pdfPath)}
      ensures ok ==> LoadVectorStore(userId, false) == Some(FaissStore(run.chunks))
      ensures !ok ==> forall loadRaises :: LoadVectorStore(userId, loadRaises).None?
      ensures forall v, loadRaises | '/' !in userId && '/' !in v && v != userId ::
                LoadVectorStore(v, loadRaises) == old(LoadVectorStore(v, loadRaises))
    {
      var indexPath := IndexPath(userId);
      ghost var dirs0, indexes0 := dirs, indexes;
      // Clear any old index for this user.
      RemoveIfExists(indexPath);
      ghost var dirs1, indexes1 := dirs, indexes;
      var ocrPath := OcrSibling(pdfPath);
      var raised := RunIngest(indexPath, ocrPath, run);
      if raised {
        ghost var dirs2, indexes2 := dirs, indexes;
        // Clean up failed artifacts.
        RemoveIfExists(indexPath);
        PruneTwice(dirs0, indexes0, indexPath);
        if run == SaveRaises(true) {
          PruneAfterMkdir(dirs1, indexPath);
          PruneEntriesAfterWrite(indexes1, indexPath, Damaged);
        }
        assert indexes == PruneEntries(indexes0, indexPath);
        assert indexPath !in dirs;
        ok := false;
      } else {
        assert indexPath == indexPath[..|indexPath|];
        assert indexPath in dirs;
        ok := true;
      }
      RemoveTemporaryFiles(pdfPath, ocrPath);
      forall v, loadRaises | '/' !in userId && '/' !in v && v != userId
        ensures LoadVectorStore(v, loadRaises) == old(LoadVectorStore(v, loadRaises))
      {
        FaissPathsApart(indexRoot, userId, v);
        var q := IndexPath(v);
        assert q != indexPath && !Within(indexPath, q);
        assert q in indexes <==> q in indexes0;
        assert q in indexes ==> indexes[q] == indexes0[q];
        LoadFromSameEntry(dirs, indexes, dirs0, indexes0, q, loadRaises);
      }
    }

    /** The `try` body of create_vector_store: OCR, load, split, embed, save. It
        writes the OCR output (unless ocrmypdf raises before writing it) and, when
        saving is reached, what save_local writes at `indexPath`. */
    method RunIngest(indexPath: Path, ocrPath: Path, run: IngestRun) returns (raised: bool)
      requires Valid() && |indexPath| > 0
      modifies this
      ensures Valid()
      ensures raised <==> !run.Completes?
      ensures files == old(files) + (if run == OcrRaises(false) then {} else {ocrPath})
      ensures run.Completes? ==>
                dirs == old(dirs) + Prefixes(indexPath) && indexes == old(indexes)[indexPath := Saved(run.chunks)]
      ensures run == SaveRaises(true) ==>
                dirs == old(dirs) + Prefixes(indexPath) && indexes == old(indexes)[indexPath := Damaged]
      ensures !run.Completes? && run != SaveRaises(true) ==> dirs == old(dirs) && indexes == old(indexes)
    {
      // 1. OCR, which writes the searchable copy next to the upload.
      if run != OcrRaises(false) {
        files := files + {ocrPath};
      }
      raised := run.OcrRaises?;
      // 2. load, 3. split, 4. embed.
      if !raised {
        raised := run.LoadRaises? || run.SplitRaises? || run.EmbedRaises?;
      }
      // 5. save.
      if !raised {
        if run.SaveRaises? {
          if run.wroteDirectory {
            SaveLocal(indexPath, Damaged);
          }
          raised := true;
        } else {
          SaveLocal(indexPath, Saved(run.chunks));
        }
      }
    }

    /** The `finally` block of create_vector_store: each temporary file is unlinked if it exists. */
    method RemoveTemporaryFiles(pdfPath: Path, ocrPath: Path)
      modifies this
      ensures files == old(files) - {pdfPath, ocrPath}
      ensures dirs == old(dirs) && indexes == old(indexes)
    {
      if pdfPath in files {
        Unlink(pdfPath);
      }
      if ocrPath in files {
        Unlink(ocrPath);
      }
    }

    /** `delete_vector_store(user_id)`: true exactly when the user's directory
        existed and was removed; false, with nothing changed, when it did not exist;
        false when removing it raised part-way. */
    method DeleteVectorStore(userId: string, removal: Removal) returns (deleted: bool)
      requires Valid()
      modifies this
      ensures Valid()
      ensures deleted <==> IndexPath(userId) in old(dirs) && removal.Removes?
      ensures IndexPath(userId) !in old(dirs) ==> dirs == old(dirs) && indexes == old(indexes)
      ensures IndexPath(userId) in old(dirs) && removal.Removes? ==>
                dirs == Prune(old(dirs), IndexPath(userId)) && indexes == PruneEntries(old(indexes), IndexPath(userId))
      ensures IndexPath(userId) in old(dirs) && removal.RaisesAfterRemoving? ==>
                IndexPath(userId) in dirs &&
                dirs == old(dirs) - RemovedBelow(old(dirs), IndexPath(userId), removal.gone) &&
                indexes == AfterFailedRemoval(old(indexes), old(dirs), IndexPath(userId), removal.gone, removal.emptied)
      ensures removal.RaisesAfterRemoving? && IndexPath(userId) in removal.emptied ==>
                forall loadRaises :: LoadVectorStore(userId, loadRaises).None?
      ensures removal.RaisesAfterRemoving? && IndexPath(userId) !in removal.emptied ==>
                forall loadRaises :: LoadVectorStore(userId, loadRaises) == old(LoadVectorStore(userId, loadRaises))
      ensures deleted ==> IndexPath(userId) !in dirs && forall loadRaises :: LoadVectorStore(userId, loadRaises).None?
      ensures files == old(files)
      ensures forall v, loadRaises | '/' !in userId && '/' !in v && v != userId ::
                LoadVectorStore(v, loadRaises) == old(LoadVectorStore(v, loadRaises))
    {
      var indexPath := IndexPath(userId);
      forall v | '/' !in userId && '/' !in v && v != userId
        ensures !Within(indexPath, IndexPath(v))
      {
        FaissPathsApart(indexRoot, userId, v);
      }
      if indexPath in dirs {
        match removal
        case Removes =>
          RemoveTree(indexPath);
          return true;
        case RaisesAfterRemoving(gone, emptied) =>
          RemoveTreeRaising(indexPath, gone, emptied);
          return false;
      }
      // Nothing to delete.
      return false;
    }

    /** `load_vector_store(user_id)`: nothing when the user's directory does not
        exist, nothing when `load_local` cannot read it (a damaged index, a
        directory without index files, or `loadRaises`), otherwise the store saved there. */
    function LoadVectorStore(userId: string, loadRaises: bool): (r: Option<FaissStore>)
      requires Valid()
      reads this
      ensures IndexPath(userId) !in dirs ==> r.None?
      ensures loadRaises ==> r.None?
      ensures r.Some? <==> !loadRaises && IndexPath(userId) in indexes && indexes[IndexPath(userId)].Saved?
      ensures r.Some? ==> r.value.docstore == indexes[IndexPath(userId)].docstore
    {
      LoadFrom(dirs, indexes, IndexPath(userId), loadRaises)
    }

    /** `get_retriever(user_id)`: a retriever over the loaded store, or nothing exactly when loading gives nothing. */
    function GetRetriever(userId: string, loadRaises: bool): (r: Option<Retriever>)
      requires Valid()
      reads this
      ensures r.None? <==> LoadVectorStore(userId, loadRaises).None?
      ensures r.Some? ==> r.value.store == LoadVectorStore(userId, loadRaises).value
    {
      match LoadVectorStore(userId, loadRaises)
      case Some(store) => Some(Retriever(store))
      case None => None
    }
  }
}
