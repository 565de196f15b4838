/** What the chunk rows of a document hold: the sections of its file with their chunks and vectors, all in place. */
module SectionRows {
  import opened Prelude
  import opened RagStore
  import opened RagInvariant
  import opened Lifecycle
  import opened LifecycleSafety
  import opened Chunking
  import Embedding

  /** How many children the first j sections have. */
  function Offset(sections: seq<ParentChildren>, j: nat): nat
    requires j <= |sections|
  {
    if j == 0 then 0 else Offset(sections, j - 1) + |sections[j - 1].children|
  }

  lemma {:induction false} OffsetOfPrefix(sections: seq<ParentChildren>, n: nat, j: nat)
    requires j <= n <= |sections|
    ensures Offset(sections[..n], j) == Offset(sections, j)
  {
    if j > 0 {
      OffsetOfPrefix(sections, n, j - 1);
    }
  }

  lemma {:induction false} ChildrenCount(sections: seq<ParentChildren>)
    ensures |ChildrenOf(sections)| == Offset(sections, |sections|)
  {
    var n := |sections|;
    if n > 0 {
      ChildrenCount(sections[..n - 1]);
      OffsetOfPrefix(sections, n - 1, n - 1);
    }
  }

  /** In the order of all children, those of section j come after those of the sections before it. */
  lemma {:induction false} ChildInOrder(sections: seq<ParentChildren>, j: nat, m: nat)
    requires j < |sections| && m < |sections[j].children|
    ensures Offset(sections, j) + m < |ChildrenOf(sections)| == Offset(sections, |sections|)
    ensures ChildrenOf(sections)[Offset(sections, j) + m] == Child(j, sections[j].children[m])
  {
    var n := |sections|;
    var front := sections[..n - 1];
    ChildrenCount(sections);
    ChildrenCount(front);
    OffsetOfPrefix(sections, n - 1, n - 1);
    OffsetOfPrefix(sections, n - 1, if j < n - 1 then j else n - 1);
    if j < n - 1 {
      ChildInOrder(front, j, m);
    }
  }

  /** The row of section j: numbered -(j + 1), with its text and its heading path, and without a vector. */
  ghost predicate IsSectionRow(db: Db, d: int, version: int, sections: seq<ParentChildren>, j: nat, id: int)
    requires d in db.documents && j < |sections|
  {
    IsChunkOf(db, d, id)
    && db.chunks[id] == Chunk(db.documents[d].knowledgeBaseId, d, -(j + 1), sections[j].parentContent, None, version,
                              None, true, sections[j].headingPath)
  }

  /** The row of child m of section j: numbered through over all sections, with its text, the vector of this number and
      the heading path of its section, and with the section's row as its parent. */
  ghost predicate IsChildRow(db: Db, d: int, version: int, sections: seq<ParentChildren>,
                             vectors: seq<Embedding.Vector>, j: nat, m: nat, id: int, parent: int)
    requires d in db.documents && j < |sections| && m < |sections[j].children|
    requires Offset(sections, j) + m < |vectors|
  {
    && IsChunkOf(db, d, id) && IsSectionRow(db, d, version, sections, j, parent)
    && db.chunks[id] == Chunk(db.documents[d].knowledgeBaseId, d, Offset(sections, j) + m, sections[j].children[m],
                              Some(vectors[Offset(sections, j) + m]), version, Some(parent), false,
                              sections[j].headingPath)
  }

  ghost predicate HasChildRow(db: Db, d: int, version: int, sections: seq<ParentChildren>,
                              vectors: seq<Embedding.Vector>, j: nat, m: nat)
    requires d in db.documents && j < |sections| && m < |sections[j].children|
  {
    Offset(sections, j) + m < |vectors|
    && exists id, parent :: IsChildRow(db, d, version, sections, vectors, j, m, id, parent)
  }

  ghost predicate HasSectionRow(db: Db, d: int, version: int, sections: seq<ParentChildren>, j: nat)
    requires d in db.documents && j < |sections|
  {
    exists id :: IsSectionRow(db, d, version, sections, j, id)
  }

  /** Exactly these sections with all their children, each with its own vector; no number stands twice. */
  ghost predicate HoldsSections(db: Db, d: int, version: int, sections: seq<ParentChildren>,
                                vectors: seq<Embedding.Vector>)
    requires d in db.documents
  {
    && |vectors| == Offset(sections, |sections|) == db.documents[d].chunkCount
    && IsSingleGeneration(db, d, version, |sections|)
    && (forall j :: 0 <= j < |sections| ==> HasSectionRow(db, d, version, sections, j))
    && forall j, m :: 0 <= j < |sections| && 0 <= m < |sections[j].children| ==>
         HasChildRow(db, d, version, sections, vectors, j, m)
  }

  lemma GenerationHoldsSections(db: Db, d: int, g: Generation)
    requires d in db.documents && IsGenerationOf(db, d, g)
    ensures HoldsSections(db, d, g.indexVersion, g.parents, g.vectors)
  {
    hide ChildrenOf, Rows, ChunksOf, IsSingleGeneration, HasSectionRow, HasChildRow;
    GenerationIsNumbered(db, d, g);
    ChildrenCount(g.parents);
    forall j | 0 <= j < |g.parents| ensures HasSectionRow(db, d, g.indexVersion, g.parents, j) {
      SectionRow(db, d, g, j);
    }
    forall j, m | 0 <= j < |g.parents| && 0 <= m < |g.parents[j].children|
      ensures HasChildRow(db, d, g.indexVersion, g.parents, g.vectors, j, m)
    {
      ChildRowOf(db, d, g, j, m);
    }
  }

  lemma RowOf(db: Db, d: int, g: Generation, id: int)
    requires d in db.documents && IsGenerationOf(db, d, g)
    requires g.base <= id < g.base + |g.parents| + |ChildrenOf(g.parents)|
    ensures IsChunkOf(db, d, id)
    ensures db.chunks[id]
        == if id < g.base + |g.parents| then ParentRow(g, id - g.base) else ChildRow(g, id - g.base - |g.parents|)
  {
    hide ChildrenOf, Rows;
    RowsAre(g, id);
    assert id in ChunksOf(db.chunks, d);
  }

  lemma SectionRow(db: Db, d: int, g: Generation, j: nat)
    requires d in db.documents && IsGenerationOf(db, d, g) && j < |g.parents|
    ensures IsSectionRow(db, d, g.indexVersion, g.parents, j, g.base + j)
    ensures HasSectionRow(db, d, g.indexVersion, g.parents, j)
  {
    hide ChildrenOf, Rows, ChunksOf;
    RowOf(db, d, g, g.base + j);
  }

  lemma ChildRowOf(db: Db, d: int, g: Generation, j: nat, m: nat)
    requires d in db.documents && IsGenerationOf(db, d, g) && j < |g.parents| && m < |g.parents[j].children|
    ensures HasChildRow(db, d, g.indexVersion, g.parents, g.vectors, j, m)
  {
    hide ChildrenOf, Rows, ChunksOf;
    ChildInOrder(g.parents, j, m);
    var id := g.base + |g.parents| + Offset(g.parents, j) + m;
    SectionRow(db, d, g, j);
    RowOf(db, d, g, id);
    assert IsChildRow(db, d, g.indexVersion, g.parents, g.vectors, j, m, id, g.base + j);
  }

  /** The sections of the document's file. */
  function SectionsOf(cfg: Settings, file: File): seq<ParentChildren>
    requires cfg.parse(file).Some?
  {
    ParentChildChunks(cfg.parse(file).value, cfg.chunkSize, cfg.chunkOverlap, cfg.classify)
  }

  /** A commit stores the parsed text and the sections of the file, with the provider's k-th vector at the
      k-th child. */
  lemma CommitStoresSections(cfg: Settings, s: System, a: Action, d: int, version: int)
    requires ValidSettings(cfg) && Inv(cfg, s.db) && Commits(cfg, s, a, d, version)
    ensures a.io.Embedded? && d in s.db.documents && cfg.parse(s.db.documents[d].storageKey.file).Some?
    ensures var t, before := Next(cfg, s, a), s.db.documents[d];
            var sections := SectionsOf(cfg, before.storageKey.file);
            && d in t.db.documents
            && t.db.documents[d]
               == before.(parsedContent := cfg.parse(before.storageKey.file), chunkCount := |a.io.vectors|,
                          status := READY, errorMessage := None, activity := s.now)
            && HoldsSections(t.db, d, version, sections, a.io.vectors)
  {
    hide ChildrenOf, ParentChildChunks, Rows, ChunksOf, WithoutChunksOf, HoldsSections, DocumentsSound;
    var text := cfg.parse(s.db.documents[d].storageKey.file).value;
    var g := NewGeneration(cfg, s.db, d, text, a.io.vectors);
    CommitIs(cfg, s, a, d, version);
    DocumentIsCovered(text, cfg.chunkSize, cfg.chunkOverlap, cfg.classify);
    assert g.parents[|g.parents| - 1] in g.parents;
    ParentsGiveChildren(g.parents);
    var t := Next(cfg, s, a);
    ReplacedChunks(s.db, d, g);
    assert IsGenerationOf(t.db, d, g);
    GenerationHoldsSections(t.db, d, g);
  }

  lemma CommitIs(cfg: Settings, s: System, a: Action, d: int, version: int)
    requires Commits(cfg, s, a, d, version)
    ensures a.io.Embedded? && d in s.db.documents && cfg.parse(s.db.documents[d].storageKey.file).Some?
    ensures s.db.documents[d].indexVersion == version && s.db.documents[d].status == PROCESSING
    ensures var text := cfg.parse(s.db.documents[d].storageKey.file).value;
            var g := NewGeneration(cfg, s.db, d, text, a.io.vectors);
            && g.parents != [] && |g.vectors| == |ChildrenOf(g.parents)|
            && Next(cfg, s, a).db == ReplaceChunks(s.db, d, text, g, s.now)
  {
    hide ChildrenOf, ParentChildChunks, ReplaceChunks;
  }
}
