/**
 * The ingestion script: every chunk produced by the text splitter gets an
 * identifier `source:page:counter`, and the embeddings and documents for the
 * upsert are built in step with the chunks.
 *
 * The identifier loop carries two variables across the chunks: the page of the
 * last chunk that reset the counter (`lastPid`, initially `None`) and the
 * counter itself (initially 0). A chunk whose page equals `lastPid` gets the
 * next counter; any other chunk resets the counter to 0 and becomes `lastPid`.
 */
module Ingest {
  import opened Wrappers
  import opened Render

  /**
   * A chunk: the `source` and `page` entries of its metadata (None when absent)
   * and its text. The loader's other metadata entries are not kept, so the
   * rendering `show` of a chunk cannot depend on them.
   */
  datatype Chunk = Chunk(source: Option<string>, page: Option<int>, text: string)

  /**
   * `str()` of a source value. A missing source and a source named `None`
   * render alike.
   */
  function SourceText(source: Option<string>): (t: string)
    ensures t == "None" <==> source == None || source == Some("None")
  {
    match source
    case None => "None"
    case Some(s) => s
  }

  /** `str()` of a page value; it never holds the separator. */
  function PageText(page: Option<int>): (t: string)
    ensures ':' !in t
  {
    match page
    case None => "None"
    case Some(n) => IntToString(n)
  }

  lemma PageTextInjective(p: Option<int>, q: Option<int>)
    requires PageText(p) == PageText(q)
    ensures p == q
  {
    if p.Some? && q.Some? {
      IntToStringInjective(p.value, q.value);
    }
  }

  /**
   * The identifier `f'{source}:{page}:{counter}'`: it starts with the rendered
   * source and a separator, and its last field, after the last separator, is
   * the counter.
   */
  function FormatId(source: Option<string>, page: Option<int>, counter: nat): (id: string)
    ensures |id| > |SourceText(source)| + |NatToString(counter)| + 1
    ensures id[..|SourceText(source)| + 1] == SourceText(source) + ":"
    ensures id[|id| - |NatToString(counter)| - 1..] == ":" + NatToString(counter)
    ensures ':' !in id[|id| - |NatToString(counter)|..]
  {
    var id := SourceText(source) + ":" + PageText(page) + ":" + NatToString(counter);
    assert id[|id| - |NatToString(counter)|..] == NatToString(counter);
    id
  }

  /** When the first separator of one side lies further right, the other side has a separator after its own. */
  lemma ColonInLongerTail(a: string, b: string, a': string, b': string)
    requires a + ":" + b == a' + ":" + b' && |a| < |a'|
    ensures ':' in b
  {
    var s := a + ":" + b;
    assert s[|a'|] == b[|a'| - |a| - 1];
  }

  /** Cutting a string at its last separator is unambiguous. */
  lemma SplitAtLastColon(a: string, b: string, a': string, b': string)
    requires a + ":" + b == a' + ":" + b'
    requires ':' !in b && ':' !in b'
    ensures a == a' && b == b'
  {
    var s := a + ":" + b;
    if |a| < |a'| {
      ColonInLongerTail(a, b, a', b');
      assert false;
    } else if |a| > |a'| {
      ColonInLongerTail(a', b', a, b);
      assert false;
    }
    assert a == s[..|a|] == a';
    assert b == s[|a| + 1..] == b';
  }

  /**
   * Two identifiers are equal exactly when they agree on the rendered source,
   * the page and the counter: page and counter are read back from the last two
   * fields.
   */
  lemma FormatIdInjective(s: Option<string>, p: Option<int>, c: nat, s': Option<string>, p': Option<int>, c': nat)
    ensures FormatId(s, p, c) == FormatId(s', p', c') <==> SourceText(s) == SourceText(s') && p == p' && c == c'
  {
    if FormatId(s, p, c) == FormatId(s', p', c') {
      var n, n' := NatToString(c), NatToString(c');
      SplitAtLastColon(SourceText(s) + ":" + PageText(p), n, SourceText(s') + ":" + PageText(p'), n');
      NatToStringInjective(c, c');
      SplitAtLastColon(SourceText(s), PageText(p), SourceText(s'), PageText(p'));
      PageTextInjective(p, p');
    }
  }

  /** The loop state: `last_pid` and `c_id`. */
  datatype AssignState = AssignState(lastPid: Option<int>, counter: nat)

  const Initial := AssignState(None, 0)

  /**
   * One iteration of the identifier loop, on the page of the current chunk.
   * Afterwards `last_pid` is that page in either branch; the counter is 0
   * exactly when the page differs from `last_pid`, and otherwise one more.
   */
  function Step(st: AssignState, page: Option<int>): (next: AssignState)
    ensures next.lastPid == page
    ensures next.counter == 0 <==> page != st.lastPid
    ensures page == st.lastPid ==> next.counter == st.counter + 1
  {
    if page == st.lastPid then AssignState(st.lastPid, st.counter + 1) else AssignState(page, 0)
  }

  /**
   * The loop state after the first `k` chunks: `last_pid` is the page of the
   * last chunk seen, and the counter never exceeds the number of chunks seen.
   */
  function StateAfter(chunks: seq<Chunk>, k: nat): (st: AssignState)
    requires k <= |chunks|
    ensures k == 0 ==> st == Initial
    ensures k > 0 ==> st.lastPid == chunks[k - 1].page
    ensures st.counter <= k
  {
    if k == 0 then Initial else Step(StateAfter(chunks, k - 1), chunks[k - 1].page)
  }

  /** The counter written into the identifier of chunk `i`. */
  function CounterAt(chunks: seq<Chunk>, i: nat): nat
    requires i < |chunks|
  {
    StateAfter(chunks, i + 1).counter
  }

  /** The identifier the loop emits for chunk `i`. */
  function ChunkId(chunks: seq<Chunk>, i: nat): string
    requires i < |chunks|
  {
    FormatId(chunks[i].source, chunks[i].page, CounterAt(chunks, i))
  }

  /** The identifier loop: one identifier per chunk, in chunk order. */
  method AssignChunkIds(chunks: seq<Chunk>) returns (chunkId: seq<string>)
    ensures |chunkId| == |chunks|
    ensures forall i :: 0 <= i < |chunks| ==>
      chunkId[i] == FormatId(chunks[i].source, chunks[i].page, CounterAt(chunks, i))
  {
    var lastPid: Option<int> := None;
    chunkId := [];
    var cId: nat := 0;
    for k := 0 to |chunks|
      invariant |chunkId| == k
      invariant AssignState(lastPid, cId) == StateAfter(chunks, k)
      invariant forall i :: 0 <= i < k ==> chunkId[i] == ChunkId(chunks, i)
    {
      var source := chunks[k].source;
      var page := chunks[k].page;
      if page == lastPid {
        cId := cId + 1;
        chunkId := chunkId + [FormatId(source, page, cId)];
      } else {
        cId := 0;
        chunkId := chunkId + [FormatId(source, page, cId)];
        lastPid := page;
      }
    }
  }

  /**
   * The counter rule in terms of the chunks alone: the first chunk gets 0,
   * or 1 when its page is None (which equals the initial `last_pid`); a later
   * chunk gets its predecessor's counter plus one when the two pages are
   * equal, and 0 otherwise.
   */
  lemma CounterRule(chunks: seq<Chunk>, i: nat)
    requires i < |chunks|
    ensures i == 0 ==> CounterAt(chunks, i) == if chunks[0].page == None then 1 else 0
    ensures i > 0 && chunks[i].page == chunks[i - 1].page ==> CounterAt(chunks, i) == CounterAt(chunks, i - 1) + 1
    ensures i > 0 && chunks[i].page != chunks[i - 1].page ==> CounterAt(chunks, i) == 0
  {
    if i > 0 {
      assert StateAfter(chunks, i).lastPid == chunks[i - 1].page;
    }
  }

  /** Along a stretch of chunks on one page, the counter goes up by one per chunk, whatever their sources. */
  lemma {:induction false} CounterAlongRun(chunks: seq<Chunk>, i: nat, j: nat)
    requires i <= j < |chunks|
    requires forall k :: i <= k <= j ==> chunks[k].page == chunks[i].page
    ensures CounterAt(chunks, j) == CounterAt(chunks, i) + (j - i)
    decreases j
  {
    if j > i {
      CounterAlongRun(chunks, i, j - 1);
      CounterRule(chunks, j);
    }
  }

  /** Chunk `s` starts a maximal run of equal pages. */
  predicate RunStart(chunks: seq<Chunk>, s: nat)
    requires s < |chunks|
  {
    s == 0 || chunks[s].page != chunks[s - 1].page
  }

  /**
   * Within a maximal run of equal pages the counters are 0, 1, 2, ... in
   * order; only a run of `None` pages at the very start is numbered from 1.
   */
  lemma RunNumbering(chunks: seq<Chunk>, s: nat, j: nat)
    requires s <= j < |chunks| && RunStart(chunks, s)
    requires forall k :: s <= k <= j ==> chunks[k].page == chunks[s].page
    ensures CounterAt(chunks, j) == (j - s) + if s == 0 && chunks[0].page == None then 1 else 0
  {
    CounterRule(chunks, s);
    CounterAlongRun(chunks, s, j);
  }

  /** Every page value occupies one contiguous stretch of the chunk list. */
  predicate PagesContiguous(chunks: seq<Chunk>) {
    forall i, j, k :: 0 <= i < j < k < |chunks| && chunks[i].page == chunks[k].page ==> chunks[j].page == chunks[i].page
  }

  /** When every page value occurs in a single run, all identifiers are pairwise distinct. */
  lemma IdsDistinctWhenPagesContiguous(chunks: seq<Chunk>)
    requires PagesContiguous(chunks)
    ensures forall i, j :: 0 <= i < j < |chunks| ==> ChunkId(chunks, i) != ChunkId(chunks, j)
  {
    forall i, j | 0 <= i < j < |chunks|
      ensures ChunkId(chunks, i) != ChunkId(chunks, j)
    {
      var ci, cj := chunks[i], chunks[j];
      FormatIdInjective(ci.source, ci.page, CounterAt(chunks, i), cj.source, cj.page, CounterAt(chunks, j));
      if ci.page == cj.page {
        CounterAlongRun(chunks, i, j);
      }
    }
  }

  /**
   * A page value that comes back after a different page restarts at 0, so two
   * run starts with the same source and page get the same identifier; the
   * earlier run may be the very first one, unless its page is `None`.
   */
  lemma ReappearingPageCollides(chunks: seq<Chunk>, i: nat, j: nat)
    requires i < j < |chunks| && RunStart(chunks, i) && RunStart(chunks, j)
    requires i == 0 ==> chunks[0].page.Some?
    requires chunks[i].source == chunks[j].source && chunks[i].page == chunks[j].page
    ensures ChunkId(chunks, i) == ChunkId(chunks, j)
  {
    CounterRule(chunks, i);
    CounterRule(chunks, j);
  }

  /** Three chunks of one page of `src.pdf` are numbered 0, 1, 2. */
  lemma OnePageThreeChunks(t0: string, t1: string, t2: string)
    ensures var chunks := [Chunk(Some("src.pdf"), Some(0), t0), Chunk(Some("src.pdf"), Some(0), t1), Chunk(Some("src.pdf"), Some(0), t2)];
      ChunkId(chunks, 0) == "src.pdf:0:0" && ChunkId(chunks, 1) == "src.pdf:0:1" && ChunkId(chunks, 2) == "src.pdf:0:2"
  {
    var chunks := [Chunk(Some("src.pdf"), Some(0), t0), Chunk(Some("src.pdf"), Some(0), t1), Chunk(Some("src.pdf"), Some(0), t2)];
    RunNumbering(chunks, 0, 1);
    RunNumbering(chunks, 0, 2);
    assert NatToString(0) == "0" && NatToString(1) == "1" && NatToString(2) == "2";
  }

  /** The count carries over a change of source when the page number stays the same. */
  lemma CountCarriesAcrossSources(t0: string, t1: string)
    ensures var chunks := [Chunk(Some("a.pdf"), Some(3), t0), Chunk(Some("b.pdf"), Some(3), t1)];
      ChunkId(chunks, 0) == "a.pdf:3:0" && ChunkId(chunks, 1) == "b.pdf:3:1"
  {
    var chunks := [Chunk(Some("a.pdf"), Some(3), t0), Chunk(Some("b.pdf"), Some(3), t1)];
    RunNumbering(chunks, 0, 1);
    assert NatToString(0) == "0" && NatToString(1) == "1" && IntToString(3) == "3";
  }

  /** A first chunk without a page equals the initial `last_pid` and is numbered 1. */
  lemma MissingFirstPageStartsAtOne(t0: string)
    ensures ChunkId([Chunk(Some("a.pdf"), None, t0)], 0) == "a.pdf:None:1"
  {
    CounterRule([Chunk(Some("a.pdf"), None, t0)], 0);
    assert NatToString(1) == "1";
  }

  /** Pages 1, 2, 1 of one file: the first and the last chunk share an identifier. */
  lemma DuplicateIdExample(t0: string, t1: string, t2: string)
    ensures var chunks := [Chunk(Some("a.pdf"), Some(1), t0), Chunk(Some("a.pdf"), Some(2), t1), Chunk(Some("a.pdf"), Some(1), t2)];
      ChunkId(chunks, 0) == ChunkId(chunks, 2) == "a.pdf:1:0"
  {
    var chunks := [Chunk(Some("a.pdf"), Some(1), t0), Chunk(Some("a.pdf"), Some(2), t1), Chunk(Some("a.pdf"), Some(1), t2)];
    CounterRule(chunks, 0);
    CounterRule(chunks, 2);
    assert NatToString(0) == "0" && IntToString(1) == "1";
  }

  /**
   * The second loop: for each chunk, the embedding of its rendering and the
   * chunk itself. `show` is Python's `str()` of a chunk and `embedding` the
   * embedding service, taken as a function of the text; both are opaque here.
   */
  method BuildEmbedDoc<E>(chunks: seq<Chunk>, show: Chunk -> string, embedding: string -> E)
    returns (embed: seq<E>, doc: seq<Chunk>)
    ensures |embed| == |doc| == |chunks|
    ensures forall i :: 0 <= i < |chunks| ==> doc[i] == chunks[i] && embed[i] == embedding(show(chunks[i]))
  {
    embed := [];
    doc := [];
    for k := 0 to |chunks|
      invariant |embed| == |doc| == k
      invariant forall i :: 0 <= i < k ==> doc[i] == chunks[i] && embed[i] == embedding(show(chunks[i]))
    {
      var res := embedding(show(chunks[k]));
      embed := embed + [res];
      doc := doc + [chunks[k]];
    }
  }

  /** The three aligned lists handed to the upsert. */
  datatype UpsertBatch<E> = UpsertBatch(ids: seq<string>, embeddings: seq<E>, documents: seq<string>)

  /**
   * The whole ingestion pass over a given chunk list: identifiers, embeddings
   * and the rendered documents, entry `i` of each describing chunk `i`.
   */
  method PrepareUpsert<E>(chunks: seq<Chunk>, show: Chunk -> string, embedding: string -> E)
    returns (batch: UpsertBatch<E>)
    ensures |batch.ids| == |batch.embeddings| == |batch.documents| == |chunks|
    ensures forall i :: 0 <= i < |chunks| ==>
      && batch.ids[i] == ChunkId(chunks, i)
      && batch.embeddings[i] == embedding(show(chunks[i]))
      && batch.documents[i] == show(chunks[i])
    ensures PagesContiguous(chunks) ==> forall i, j :: 0 <= i < j < |chunks| ==> batch.ids[i] != batch.ids[j]
  {
    var chunkId := AssignChunkIds(chunks);
    var embed, doc := BuildEmbedDoc(chunks, show, embedding);
    var documents := seq(|doc|, i requires 0 <= i < |doc| => show(doc[i]));
    batch := UpsertBatch(chunkId, embed, documents);
    if PagesContiguous(chunks) {
      IdsDistinctWhenPagesContiguous(chunks);
    }
  }

}
