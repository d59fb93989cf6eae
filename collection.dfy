/** The knowledge collection handed to Open WebUI: the chunks of every
    processed document, grouped by the document they came from.

    Chunks are grouped by their `source` in the order in which each source
    is first met. Every group becomes one document whose title is the
    source; every chunk of the group becomes one content chunk, numbered
    from zero within the group and told the size of the group. Every
    document and every content chunk gets a fresh identifier; identifiers
    are drawn from a supplied stream `ids` in the order the program draws
    them (the document first, then its chunks). */
module Collection {
  import opened Chunking

  datatype Option<T> = None | Some(value: T)

  /** One entry of a document's `content_chunks`. */
  datatype ContentChunk = ContentChunk(id: string, docId: string, content: string, metadata: ChunkMeta)

  datatype Document = Document(id: string, url: string, title: string, contentChunks: seq<ContentChunk>)

  datatype KnowledgeCollection = KnowledgeCollection(name: string, documents: seq<Document>)

  // ---------------------------------------------------------------------
  // Grouping by source

  /** The distinct sources of the chunks, in the order of first occurrence
      (the key order of the grouping dictionary). */
  function Sources(cs: seq<Chunk>): (srcs: seq<string>)
  {
    if cs == [] then []
    else
      var srcs := Sources(cs[..|cs| - 1]);
      var s := cs[|cs| - 1].metadata.source;
      if s in srcs then srcs else srcs + [s]
  }

  /** The chunks whose source is `src`, in their original order. */
  function Group(cs: seq<Chunk>, src: string): (g: seq<Chunk>)
  {
    if cs == [] then []
    else
      var g := Group(cs[..|cs| - 1], src);
      if cs[|cs| - 1].metadata.source == src then g + [cs[|cs| - 1]] else g
  }

  /** The number of chunks in the groups of `srcs`. */
  function GroupsSize(srcs: seq<string>, cs: seq<Chunk>): nat
  {
    if srcs == [] then 0 else GroupsSize(srcs[..|srcs| - 1], cs) + |Group(cs, srcs[|srcs| - 1])|
  }

  /** The number of identifiers the documents of `srcs` draw: one per
      document and one per content chunk. */
  function IdsUsed(srcs: seq<string>, cs: seq<Chunk>): nat
  {
    |srcs| + GroupsSize(srcs, cs)
  }

  // ---------------------------------------------------------------------
  // The collection as a function of its input

  /** The content chunks of one document, whose identifier is `ids[start]`
      and whose chunks draw the identifiers after it. */
  function ContentChunks(src: string, g: seq<Chunk>, ids: seq<string>, start: nat): (ccs: seq<ContentChunk>)
    requires start + 1 + |g| <= |ids|
  {
    seq(|g|, i requires 0 <= i < |g| =>
      ContentChunk(ids[start + 1 + i], ids[start], g[i].text, ChunkMeta(src, i, |g|)))
  }

  /** The document of one source. */
  function DocumentOf(src: string, cs: seq<Chunk>, ids: seq<string>, start: nat): (d: Document)
    requires start + 1 + |Group(cs, src)| <= |ids|
  {
    Document(ids[start], "", src, ContentChunks(src, Group(cs, src), ids, start))
  }

  /** The documents of `srcs`, in order, drawing identifiers from the front
      of `ids`. */
  function Documents(srcs: seq<string>, cs: seq<Chunk>, ids: seq<string>): (docs: seq<Document>)
    requires IdsUsed(srcs, cs) <= |ids|
  {
    if srcs == [] then []
    else
      var init := srcs[..|srcs| - 1];
      Documents(init, cs, ids) + [DocumentOf(srcs[|srcs| - 1], cs, ids, IdsUsed(init, cs))]
  }

  /** The collection built from `cs`, or nothing when there are no chunks. */
  function CollectionOf(name: string, cs: seq<Chunk>, ids: seq<string>): (r: Option<KnowledgeCollection>)
    requires |Sources(cs)| + |cs| <= |ids|
  {
    SourcesCoverChunks(cs);
    if cs == [] then None else Some(KnowledgeCollection(name, Documents(Sources(cs), cs, ids)))
  }

  // ---------------------------------------------------------------------
  // The assembly, as the program performs it

  /** The grouping loop: a dictionary from each source to its chunks, and
      the order in which its keys were inserted. */
  method GroupBySource(allChunks: seq<Chunk>) returns (docsBySource: map<string, seq<Chunk>>, order: seq<string>)
    ensures order == Sources(allChunks)
    ensures docsBySource.Keys == set s | s in order
    ensures forall s | s in docsBySource :: docsBySource[s] == Group(allChunks, s)
  {
    docsBySource := map[];
    order := [];
    for k := 0 to |allChunks|
      invariant order == Sources(allChunks[..k])
      invariant docsBySource.Keys == set s | s in order
      invariant forall s | s in docsBySource :: docsBySource[s] == Group(allChunks[..k], s)
    {
      GroupStep(allChunks, k);
      var source := allChunks[k].metadata.source;
      GroupMembers(allChunks[..k], source);
      if source !in docsBySource {
        docsBySource := docsBySource[source := []];
        order := order + [source];
      }
      docsBySource := docsBySource[source := docsBySource[source] + [allChunks[k]]];
    }
    assert allChunks[..|allChunks|] == allChunks;
  }

  /** One document: its identifier is `ids[start]`, then each chunk of the
      group draws the next identifier and becomes a content chunk numbered
      within the group. Returns the position of the next unused identifier. */
  method MakeDocument(source: string, docChunks: seq<Chunk>, ids: seq<string>, start: nat)
    returns (document: Document, next: nat)
    requires start + 1 + |docChunks| <= |ids|
    ensures document == Document(ids[start], "", source, ContentChunks(source, docChunks, ids, start))
    ensures next == start + 1 + |docChunks|
  {
    var docId := ids[start];
    next := start + 1;
    var contentChunks: seq<ContentChunk> := [];
    for i := 0 to |docChunks|
      invariant next == start + 1 + i
      invariant contentChunks == ContentChunks(source, docChunks, ids, start)[..i]
    {
      assert ContentChunks(source, docChunks, ids, start)[..i + 1]
          == ContentChunks(source, docChunks, ids, start)[..i] + [ContentChunks(source, docChunks, ids, start)[i]];
      contentChunks := contentChunks + [ContentChunk(ids[next], docId, docChunks[i].text, ChunkMeta(source, i, |docChunks|))];
      next := next + 1;
    }
    document := Document(docId, "", source, contentChunks);
  }

  /** The document loop: one document per source, in key order, each
      drawing its identifiers after those of the documents before it. */
  method MakeDocuments(order: seq<string>, docsBySource: map<string, seq<Chunk>>, allChunks: seq<Chunk>, ids: seq<string>)
    returns (documents: seq<Document>)
    requires IdsUsed(order, allChunks) <= |ids|
    requires forall s | s in order :: s in docsBySource && docsBySource[s] == Group(allChunks, s)
    ensures documents == Documents(order, allChunks, ids)
  {
    documents := [];
    var next := 0;
    for d := 0 to |order|
      invariant next == IdsUsed(order[..d], allChunks) <= |ids|
      invariant documents == Documents(order[..d], allChunks, ids)
    {
      DocumentsStep(order, allChunks, ids, d);
      var document;
      document, next := MakeDocument(order[d], docsBySource[order[d]], ids, next);
      documents := documents + [document];
    }
    assert order[..|order|] == order;
  }

  /** Groups the chunks by source, then emits one document per source, in
      the order the sources were first met. No chunks, no collection. */
  method AssembleCollection(allChunks: seq<Chunk>, name: string, ids: seq<string>)
    returns (r: Option<KnowledgeCollection>)
    requires |Sources(allChunks)| + |allChunks| <= |ids|
    ensures r == CollectionOf(name, allChunks, ids)
    ensures r.None? <==> allChunks == []
  {
    if allChunks == [] {
      return None;
    }
    var docsBySource, order := GroupBySource(allChunks);
    SourcesCoverChunks(allChunks);
    var documents := MakeDocuments(order, docsBySource, allChunks, ids);
    return Some(KnowledgeCollection(name, documents));
  }

  // ---------------------------------------------------------------------
  // Properties of the grouping

  /** One step of the grouping loop: what the next chunk does to the
      sources and to the groups. */
  lemma GroupStep(cs: seq<Chunk>, k: nat)
    requires k < |cs|
    ensures Sources(cs[..k + 1]) ==
              (if cs[k].metadata.source in Sources(cs[..k]) then Sources(cs[..k])
               else Sources(cs[..k]) + [cs[k].metadata.source])
    ensures forall s :: Group(cs[..k + 1], s) ==
              (if cs[k].metadata.source == s then Group(cs[..k], s) + [cs[k]] else Group(cs[..k], s))
  {
    assert cs[..k + 1][..k] == cs[..k];
  }

  /** A source is listed exactly when some chunk carries it. */
  lemma {:induction false} SourcesMembership(cs: seq<Chunk>, src: string)
    ensures src in Sources(cs) <==> exists c <- cs :: c.metadata.source == src
  {
    if cs != [] {
      var init := cs[..|cs| - 1];
      SourcesMembership(init, src);
      assert cs == init + [cs[|cs| - 1]];
    }
  }

  /** No source is listed twice. */
  lemma {:induction false} SourcesDistinct(cs: seq<Chunk>)
    ensures forall i, j | 0 <= i < j < |Sources(cs)| :: Sources(cs)[i] != Sources(cs)[j]
  {
    if cs != [] {
      SourcesDistinct(cs[..|cs| - 1]);
    }
  }

  /** First-seen order: the sources of a prefix of the chunks are a prefix
      of the sources of all of them. */
  lemma {:induction false} SourcesPrefix(cs: seq<Chunk>, k: nat)
    requires k <= |cs|
    ensures |Sources(cs[..k])| <= |Sources(cs)|
    ensures Sources(cs[..k]) == Sources(cs)[..|Sources(cs[..k])|]
    decreases |cs| - k
  {
    if k < |cs| {
      GroupStep(cs, k);
      SourcesPrefix(cs, k + 1);
      assert cs[..k + 1][..k] == cs[..k];
    } else {
      assert cs[..k] == cs;
    }
  }

  /** A group holds exactly the chunks of its source: every chunk in it has
      that source, every chunk with that source is in it, and it is empty
      for a source no chunk carries. */
  lemma {:induction false} GroupMembers(cs: seq<Chunk>, src: string)
    ensures forall c <- Group(cs, src) :: c in cs && c.metadata.source == src
    ensures forall c <- cs :: c.metadata.source == src ==> c in Group(cs, src)
    ensures Group(cs, src) == [] <==> src !in Sources(cs)
  {
    if cs != [] {
      var init := cs[..|cs| - 1];
      GroupMembers(init, src);
      SourcesMembership(init, src);
      SourcesMembership(cs, src);
      assert cs == init + [cs[|cs| - 1]];
    }
  }

  /** The group keeps input order: the group built from any prefix of the
      chunks is a prefix of the group built from all of them, so appending
      never reorders, repeats or drops an earlier chunk. */
  lemma {:induction false} GroupOrder(cs: seq<Chunk>, src: string, k: nat)
    requires k <= |cs|
    ensures Group(cs[..k], src) <= Group(cs, src)
    decreases |cs| - k
  {
    if k < |cs| {
      GroupStep(cs, k);
      GroupOrder(cs, src, k + 1);
    } else {
      assert cs[..k] == cs;
    }
  }

  /** One more chunk adds one to the groups of the (distinct) sources when
      its own source is among them, and nothing otherwise. */
  lemma {:induction false} GroupsSizeStep(srcs: seq<string>, cs: seq<Chunk>, c: Chunk)
    requires forall i, j | 0 <= i < j < |srcs| :: srcs[i] != srcs[j]
    ensures GroupsSize(srcs, cs + [c]) ==
              GroupsSize(srcs, cs) + (if c.metadata.source in srcs then 1 else 0)
  {
    assert (cs + [c])[..|cs|] == cs;
    if srcs != [] {
      var init := srcs[..|srcs| - 1];
      GroupsSizeStep(init, cs, c);
      assert srcs == init + [srcs[|srcs| - 1]];
    }
  }

  /** The groups together hold every chunk: their sizes add up to the
      number of chunks. */
  lemma {:induction false} SourcesCoverChunks(cs: seq<Chunk>)
    ensures GroupsSize(Sources(cs), cs) == |cs|
  {
    if cs != [] {
      var init, c := cs[..|cs| - 1], cs[|cs| - 1];
      assert cs == init + [c];
      SourcesCoverChunks(init);
      SourcesDistinct(init);
      SourcesDistinct(cs);
      GroupsSizeStep(Sources(init), init, c);
      if c.metadata.source !in Sources(init) {
        GroupMembers(init, c.metadata.source);
        GroupsSizeStep(Sources(cs), init, c);
      }
    }
  }

  /** One step of the document loop: the next source adds its document,
      which draws one identifier for itself and one per chunk. */
  lemma DocumentsStep(srcs: seq<string>, cs: seq<Chunk>, ids: seq<string>, d: nat)
    requires d < |srcs| && IdsUsed(srcs, cs) <= |ids|
    ensures IdsUsed(srcs[..d + 1], cs) == IdsUsed(srcs[..d], cs) + 1 + |Group(cs, srcs[d])| <= |ids|
    ensures Documents(srcs[..d + 1], cs, ids) ==
              Documents(srcs[..d], cs, ids) + [DocumentOf(srcs[d], cs, ids, IdsUsed(srcs[..d], cs))]
  {
    IdsUsedPrefix(srcs, cs, d + 1);
    assert srcs[..d + 1][..d] == srcs[..d];
  }

  lemma {:induction false} IdsUsedPrefix(srcs: seq<string>, cs: seq<Chunk>, k: nat)
    requires k <= |srcs|
    ensures IdsUsed(srcs[..k], cs) <= IdsUsed(srcs, cs)
    decreases |srcs| - k
  {
    if k < |srcs| {
      IdsUsedPrefix(srcs, cs, k + 1);
      assert srcs[..k + 1][..k] == srcs[..k];
    } else {
      assert srcs[..k] == srcs;
    }
  }

  // ---------------------------------------------------------------------
  // Properties of the collection

  lemma DocumentsLast(srcs: seq<string>, cs: seq<Chunk>, ids: seq<string>)
    requires IdsUsed(srcs, cs) <= |ids| && srcs != []
    ensures var init := srcs[..|srcs| - 1];
            var docs := Documents(srcs, cs, ids);
            IdsUsed(init, cs) + 1 + |Group(cs, srcs[|srcs| - 1])| == IdsUsed(srcs, cs) &&
            docs != [] &&
            docs[..|docs| - 1] == Documents(init, cs, ids) &&
            docs[|docs| - 1] == DocumentOf(srcs[|srcs| - 1], cs, ids, IdsUsed(init, cs))
  {
    var init := srcs[..|srcs| - 1];
    var docs := Documents(srcs, cs, ids);
    assert docs == Documents(init, cs, ids) + [DocumentOf(srcs[|srcs| - 1], cs, ids, IdsUsed(init, cs))];
  }

  /** The documents are indexed like their sources. */
  lemma {:induction false} DocumentsIndex(srcs: seq<string>, cs: seq<Chunk>, ids: seq<string>, d: nat)
    requires IdsUsed(srcs, cs) <= |ids| && d < |srcs|
    ensures |Documents(srcs, cs, ids)| == |srcs|
    ensures IdsUsed(srcs[..d], cs) + 1 + |Group(cs, srcs[d])| <= |ids|
    ensures Documents(srcs, cs, ids)[d] == DocumentOf(srcs[d], cs, ids, IdsUsed(srcs[..d], cs))
    decreases |srcs|
  {
    var init := srcs[..|srcs| - 1];
    IdsUsedPrefix(srcs, cs, |srcs| - 1);
    if d < |init| {
      DocumentsIndex(init, cs, ids, d);
      assert init[..d] == srcs[..d];
    } else {
      assert init == srcs[..d];
      if init != [] {
        DocumentsIndex(init, cs, ids, 0);
      }
    }
  }

  /** One document per source, in first-seen order: its title is the
      source, its url is empty, and its content chunks are the chunks of that
      source, in order, each carrying the document's identifier, the
      source, its position within the group and the size of the group. */
  lemma CollectionShape(name: string, cs: seq<Chunk>, ids: seq<string>, d: nat, i: nat)
    requires |Sources(cs)| + |cs| <= |ids|
    requires cs != []
    ensures CollectionOf(name, cs, ids).Some?
    ensures CollectionOf(name, cs, ids).value.name == name
    ensures |CollectionOf(name, cs, ids).value.documents| == |Sources(cs)|
    ensures d < |Sources(cs)| ==>
              var doc := CollectionOf(name, cs, ids).value.documents[d];
              var g := Group(cs, Sources(cs)[d]);
              doc.title == Sources(cs)[d] && doc.url == "" &&
              |doc.contentChunks| == |g| &&
              (i < |g| ==>
                 doc.contentChunks[i].docId == doc.id &&
                 doc.contentChunks[i].content == g[i].text &&
                 doc.contentChunks[i].metadata == ChunkMeta(Sources(cs)[d], i, |g|))
  {
    var srcs := Sources(cs);
    SourcesCoverChunks(cs);
    if srcs != [] {
      DocumentsIndex(srcs, cs, ids, if d < |srcs| then d else 0);
    }
  }

  /** The number of content chunks of the documents. */
  function ContentCount(docs: seq<Document>): nat
  {
    if docs == [] then 0 else ContentCount(docs[..|docs| - 1]) + |docs[|docs| - 1].contentChunks|
  }

  lemma {:induction false} DocumentsContentCount(srcs: seq<string>, cs: seq<Chunk>, ids: seq<string>)
    requires IdsUsed(srcs, cs) <= |ids|
    ensures ContentCount(Documents(srcs, cs, ids)) == GroupsSize(srcs, cs)
    decreases |srcs|
  {
    if srcs != [] {
      var init := srcs[..|srcs| - 1];
      var docs := Documents(srcs, cs, ids);
      DocumentsContentCount(init, cs, ids);
      assert docs[..|docs| - 1] == Documents(init, cs, ids);
    }
  }

  /** No chunk is lost or duplicated: the collection holds exactly as many
      content chunks as there were chunks. */
  lemma EveryChunkKept(name: string, cs: seq<Chunk>, ids: seq<string>)
    requires |Sources(cs)| + |cs| <= |ids|
    requires cs != []
    ensures CollectionOf(name, cs, ids).Some?
    ensures ContentCount(CollectionOf(name, cs, ids).value.documents) == |cs|
  {
    SourcesCoverChunks(cs);
    DocumentsContentCount(Sources(cs), cs, ids);
  }

  /** The identifiers of some content chunks, in order. */
  function ChunkIds(ccs: seq<ContentChunk>): (r: seq<string>)
  {
    seq(|ccs|, i requires 0 <= i < |ccs| => ccs[i].id)
  }

  /** Every identifier of the documents, in the order they were drawn: a
      document's own, then those of its content chunks. */
  function AllIds(docs: seq<Document>): seq<string>
  {
    if docs == [] then []
    else
      var doc := docs[|docs| - 1];
      AllIds(docs[..|docs| - 1]) + [doc.id] + ChunkIds(doc.contentChunks)
  }

  /** The content chunks of a document draw the identifiers right after
      the document's own. */
  lemma ContentChunkIds(src: string, g: seq<Chunk>, ids: seq<string>, start: nat)
    requires start + 1 + |g| <= |ids|
    ensures ChunkIds(ContentChunks(src, g, ids, start)) == ids[start + 1..start + 1 + |g|]
  {
  }

  lemma IdsSplit(ids: seq<string>, start: nat, end: nat)
    requires start < end <= |ids|
    ensures ids[..end] == ids[..start] + [ids[start]] + ids[start + 1..end]
  {
  }

  lemma {:induction false} DocumentsIds(srcs: seq<string>, cs: seq<Chunk>, ids: seq<string>)
    requires IdsUsed(srcs, cs) <= |ids|
    ensures AllIds(Documents(srcs, cs, ids)) == ids[..IdsUsed(srcs, cs)]
    decreases |srcs|
  {
    if srcs != [] {
      var init, last := srcs[..|srcs| - 1], srcs[|srcs| - 1];
      var start := IdsUsed(init, cs);
      var g := Group(cs, last);
      IdsUsedPrefix(srcs, cs, |srcs| - 1);
      DocumentsIds(init, cs, ids);
      var docs := Documents(srcs, cs, ids);
      var doc := DocumentOf(last, cs, ids, start);
      DocumentsLast(srcs, cs, ids);
      ContentChunkIds(last, g, ids, start);
      IdsSplit(ids, start, start + 1 + |g|);
    }
  }

  /** Identifiers are the ones drawn, each once, in order; so when the
      identifier stream never repeats itself, no two identifiers in the
      collection are equal. */
  lemma CollectionIds(name: string, cs: seq<Chunk>, ids: seq<string>)
    requires |Sources(cs)| + |cs| <= |ids|
    requires cs != []
    ensures CollectionOf(name, cs, ids).Some?
    ensures AllIds(CollectionOf(name, cs, ids).value.documents) == ids[..|Sources(cs)| + |cs|]
    ensures (forall i, j | 0 <= i < j < |ids| :: ids[i] != ids[j]) ==>
              var all := AllIds(CollectionOf(name, cs, ids).value.documents);
              forall i, j | 0 <= i < j < |all| :: all[i] != all[j]
  {
    SourcesCoverChunks(cs);
    DocumentsIds(Sources(cs), cs, ids);
    PrefixDistinct(ids, |Sources(cs)| + |cs|);
  }

  lemma PrefixDistinct(ids: seq<string>, n: nat)
    requires n <= |ids|
    ensures (forall i, j | 0 <= i < j < |ids| :: ids[i] != ids[j]) ==>
              forall i, j | 0 <= i < j < |ids[..n]| :: ids[..n][i] != ids[..n][j]
  {
  }
}
