# RAG PDF chatbot — a Dafny model of its own logic

The repository is two scripts around third-party services. `dbase.py` loads PDF
pages, splits them into chunks, gives every chunk an identifier
`source:page:counter`, embeds each chunk and upserts the identifiers, embeddings
and texts into a vector store. `query.py` is a chat page: it keeps a transcript
of role-tagged messages, asks the store for context, streams a generated answer,
accumulates it, and lists the user's questions in a sidebar.

This project models the logic the scripts do themselves:

- `render.dfy` (module `Render`): Python's `str()` of integers, used inside identifiers.
- `ingest.dfy` (module `Ingest`): the identifier loop, a state machine over
  `last_pid` and the counter `c_id`. `AssignChunkIds` is the loop itself,
  proved against the fold `StateAfter`/`CounterAt`. The lemmas state the reset and
  increment rules, the numbering of runs of one page, when identifiers are unique
  and how they collide. `BuildEmbedDoc` is the second loop, and `PrepareUpsert`
  assembles the three aligned upsert lists.
- `chat.dfy` (module `Chat`): `text.split('\n')` and its inverse `'\n'.join`,
  the `stream` generator as the sequence it yields, the `full_resp`
  accumulation loop, the sidebar filter, and the session transcript as a class
  whose `HandleInput` runs one pass of the script.
- `wrappers.dfy` (module `Wrappers`): `Option`, standing for Python's `None`.

External services are parameters. Python's `str()` of a chunk is the function
`show`, and the embedding service is the function `embedding`. The generated
fragments that the accumulation loop iterates over are a given sequence, or
`None` when the store query or the generation raises.

Two facts about the code shape the model:

- A chunk without a `source` or `page` entry does not raise. `metadata.get`
  returns `None`, and the identifier contains the text `None` (`SourceText`,
  `PageText`).
- `last_pid` is always the previous chunk's page (`StateAfter`). So a first
  chunk whose page is `None` equals the initial `last_pid` and gets counter 1.

`stream` (query.py:11-14) is defined but never called in query.py. It is
modelled as written.

## Model

| member | source | states |
|---|---|---|
| Render.NatToString | dbase.py:35 | the decimal rendering of a counter is non-empty, all digits, and one character long exactly for values below 10 |
| Render.IntToString | dbase.py:35 | `str()` of an integer consists of digits and a sign, and it starts with `-` exactly when the integer is negative |
| Render.NatToStringInjective | dbase.py:35 | distinct counters render to distinct strings |
| Render.IntToStringInjective | dbase.py:35 | distinct page numbers render to distinct strings |
| Ingest.PageText | dbase.py:31 | the rendered page value (`None` included) never contains the `:` separator |
| Ingest.PageTextInjective | dbase.py:31 | distinct page values (a number or `None`) render to distinct strings |
| Ingest.SourceText | dbase.py:30 | `str()` of the source gives `None` exactly for a missing source and for a source named `None`, so those two cannot be told apart |
| Ingest.FormatId | dbase.py:35-38 | the identifier starts with the rendered source and `:`, and its last `:`-separated field is the counter |
| Ingest.FormatIdInjective | dbase.py:35 | two identifiers are equal if and only if they agree on rendered source, page and counter |
| Ingest.AssignChunkIds | dbase.py:25-39 | the loop emits exactly one identifier per chunk, in chunk order, and identifier `i` is `source:page:counter` built from chunk `i`'s own metadata and its counter |
| Ingest.Step | dbase.py:33-39 | after one iteration `last_pid` is the chunk's page in both branches; the counter is 0 exactly when the page differs from the old `last_pid`, and the old counter + 1 otherwise |
| Ingest.StateAfter | dbase.py:25-39 | before any chunk the state is `last_pid = None`, `c_id = 0`; after `k` chunks `last_pid` is chunk `k-1`'s page and the counter is at most `k` |
| Ingest.CounterRule | dbase.py:25-39 | the first chunk gets 0, or 1 when its page is `None`; a later chunk gets its predecessor's counter + 1 when their pages are equal, and 0 otherwise |
| Ingest.CounterAlongRun | dbase.py:33-35 | along a stretch of chunks on one page the counter rises by one per chunk, whatever their sources |
| Ingest.RunNumbering | dbase.py:25-39 | within a maximal run of equal pages the counters are 0, 1, 2, … in order; only a leading run of `None` pages starts at 1 |
| Ingest.IdsDistinctWhenPagesContiguous | dbase.py:29-39 | if each page value occurs in a single contiguous run, all identifiers are pairwise distinct |
| Ingest.ReappearingPageCollides | dbase.py:25-39 | a page value that returns after a different page restarts at 0, so it repeats the identifier of its earlier run's first chunk when the source is the same; the earlier run may be the first one, unless its page is `None` |
| Ingest.DuplicateIdExample | dbase.py:33-39 | pages 1, 2, 1 of one file give the first and third chunks the same identifier `a.pdf:1:0` |
| Ingest.OnePageThreeChunks | dbase.py:29-39 | three chunks of page 0 of `src.pdf` get `src.pdf:0:0`, `src.pdf:0:1`, `src.pdf:0:2` |
| Ingest.CountCarriesAcrossSources | dbase.py:33 | page 3 of `a.pdf` then page 3 of `b.pdf` gives `a.pdf:3:0` then `b.pdf:3:1`: only the page is compared |
| Ingest.MissingFirstPageStartsAtOne | dbase.py:25-35 | a first chunk without a page matches the initial `last_pid = None` and gets counter 1 |
| Ingest.BuildEmbedDoc | dbase.py:50-57 | `embed` and `doc` have one entry per chunk; `doc[i]` is chunk `i`, and `embed[i]` is the embedding of chunk `i`'s rendering |
| Ingest.PrepareUpsert | dbase.py:25-65 | ids, embeddings and documents given to the upsert are aligned with the chunks entry by entry; with contiguous pages the ids are pairwise distinct |
| Chat.Split | query.py:12 | `text.split('\n')` always yields at least one segment |
| Chat.JoinSplit | query.py:12 | joining the segments with `'\n'` gives the text back |
| Chat.SplitJoin | query.py:12 | splitting newline-free segments joined by `'\n'` gives the segments back |
| Chat.SplitWithoutNewline | query.py:12 | a text without `'\n'` is a single segment |
| Chat.SplitAtFirstNewline | query.py:12 | the text before the first `'\n'` is the first segment, and the rest splits on its own |
| Chat.SplitSegments | query.py:12 | no segment contains `'\n'`, and there is one segment more than newlines |
| Chat.Stream | query.py:11-14 | `stream` yields one item more than the text has newlines; every item ends in a space and contains no `'\n'` |
| Chat.StreamYields | query.py:11-14 | `stream` yields one item per segment, in order; each item is its segment followed by exactly one space and contains no `'\n'`; the items with their spaces removed, joined by `'\n'`, give the text back |
| Chat.StreamWithoutNewline | query.py:11-14 | a text without a newline streams as the single item `text + " "` |
| Chat.StreamEmpty | query.py:11-14 | the empty string streams as the single item `" "` |
| Chat.Concat | query.py:63-66 | the accumulation of no fragments is `""`, and it is at least as long as any one fragment's response |
| Chat.AccumulateResponse | query.py:45-66 | `full_resp` starts from `""` and ends as the in-order concatenation of the fragments' `response` fields |
| Chat.ConcatAppend | query.py:63-66 | accumulating two batches of fragments gives the two accumulations one after the other |
| Chat.ConcatPlacement | query.py:63-66 | each fragment's response sits in `full_resp` right after the responses before it and right before those after it |
| Chat.UserContents | query.py:74-76 | the sidebar writes at most one text per transcript entry, and each is the content of some `'user'` entry |
| Chat.UserContentsAppend | query.py:73-76 | the sidebar of a transcript is the sidebar of its first part followed by that of the rest, so transcript order is kept |
| Chat.UserContentsMembers | query.py:73-76 | the sidebar shows a text if and only if some `'user'` entry of the transcript has it as content |
| Chat.PromptAddsToSidebar | query.py:36-76 | appending the user message adds exactly its prompt to the sidebar |
| Chat.AssistantLeavesSidebar | query.py:70-76 | appending the assistant message leaves the sidebar unchanged |
| Chat.TurnAddsPromptToSidebar | query.py:36-76 | after one turn's two appends, the sidebar is the old one followed by the new prompt |
| Chat.Session.constructor | query.py:25-26 | a session without a transcript starts with an empty one |
| Chat.Session.HandleInput | query.py:32-71 | a non-empty prompt appends `{"role":"user","content":prompt}` and then the assistant message with the accumulated response, leaving earlier entries unchanged; if the query, the generation or the fragment loop raises, only the user message stays appended; no input leaves the transcript as it was; in every case the user entries of the transcript gain exactly the submitted prompt; they are what the sidebar writes once a run reaches query.py:73 |

## Left out

- PDF loading and chunk splitting (dbase.py:10-23): library code. The model takes the chunk list as input.
- Python's `str()` of a chunk (dbase.py:55, 64): the `show` parameter. Only an opaque function is assumed.
- The embedding service (dbase.py:44-47, 55-56): the `embedding` parameter. The embedding is taken as a function of the text, so two chunks with the same rendering get equal vectors in the model; the service does not promise that, and no contract depends on it.
- The vector store (`PersistentClient`, `get_or_create_collection`, `get_collection`, `upsert`, `query` with 3 results; dbase.py:41, 59-65 and query.py:16-23, 37-41): external storage and similarity search. `PrepareUpsert` stops at the three lists handed to `upsert`, because how the store treats duplicate ids in one batch is not visible in this code.
- The generation call and the prompt text (query.py:47-55): a network call, and a prompt built from Python's `repr` of a list returned by the store. The fragments are a parameter.
- Rendering in the user interface (query.py:28-30, 33-34, 42-44, 57-61, 73 `st.sidebar`, 76 `st.write`): the model gives what the sidebar writes, not how it is shown. On a raise the script stops before query.py:73 and the sidebar is not written in that run; `UserContents` is what a run that reaches query.py:73 writes.
- Chat.AccumulateResponse: this does not claim that `full_resp` equals the streamed text. `st.write_stream` (query.py:61) drains the same one-shot generator first, so the loop may see no fragments at all. The model accumulates whatever fragments the loop sees.
- `time.sleep(delay)` in `stream` (query.py:14): timing only, with no effect on the items yielded.
- PrepareUpsert: the embedding service is assumed to return. If a call raises (dbase.py:55), the script stops before the upsert and no batch is produced; the model has no such path.
- Page values other than integers and `None`, and sources other than strings and `None`: the PDF loader produces only these.
