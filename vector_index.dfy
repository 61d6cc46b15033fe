/** The chunking step of `ensure_vectorstore`: the raw FAQ text is cut into
    blank-line separated chunks which are then embedded and stored.  The
    embedding and the store are outside the model; what is modelled is the
    guard on their availability and which chunks they would be given. */
module VectorIndex {
  import opened Wrappers
  import opened PyStr
  import opened FaqStore

  /** What a call of `ensure_vectorstore` comes to. */
  datatype Outcome =
    | Unavailable                     // returns False: the embedding or store library is missing
    | ReadFails                       // `open` raises: the FAQ file is missing
    | Indexed(chunks: seq<string>)    // returns True after storing these chunks

  /** `ensure_vectorstore`, given whether both libraries imported and the file
      (`None` when it is missing). */
  function EnsureVectorStore(backendPresent: bool, file: Option<string>): (r: Outcome)
    ensures r.Unavailable? <==> !backendPresent
    ensures r.ReadFails? <==> backendPresent && file.None?
    ensures r.Indexed? ==> file.Some? && r.chunks == SplitBlocks(file.value)
    ensures r.Indexed? ==> forall i :: 0 <= i < |r.chunks| ==> r.chunks[i] != [] && IsStripped(r.chunks[i])
  {
    if !backendPresent then Unavailable
    else match file
      case None => ReadFails
      case Some(raw) => Indexed(SplitBlocks(raw))  // `[t.strip() for t in raw.split('\n\n') if t.strip()]`
  }

  /** Without the libraries the outcome does not depend on the file at all:
      the guard comes before the read. */
  lemma UnavailableIgnoresFile(f: Option<string>, g: Option<string>)
    ensures EnsureVectorStore(false, f) == EnsureVectorStore(false, g) == Unavailable
  {
  }

  lemma BlockSeparatorIsSpace()
    ensures AllSpace(BlockSeparator)
  {
    assert IsSpace('\n');
  }

  /** The chunks are exactly the blocks `load_faqs` parses, although only
      `load_faqs` trims the whole text before splitting it. */
  lemma ChunksAreFaqBlocks(raw: string)
    ensures SplitBlocks(raw) == SplitBlocks(Strip(raw))
  {
    BlockSeparatorIsSpace();
    PiecesOfStripped(raw, BlockSeparator);
  }

  /** So the store receives one chunk per FAQ record: record `i` is parsed from
      chunk `i`. */
  lemma OneChunkPerRecord(raw: string, i: nat)
    ensures |SplitBlocks(raw)| == |Faqs(Some(raw))|
    ensures i < |SplitBlocks(raw)| ==> Faqs(Some(raw))[i] == ParseBlock(SplitBlocks(raw)[i])
  {
    ChunksAreFaqBlocks(raw);
    if i < |SplitBlocks(raw)| {
      ParseAllAt(SplitBlocks(Strip(raw)), i);
    }
  }
}
