# RAG-Asker-Tennis: the text pipeline in Dafny

A model of the deterministic core of the Asker Tennis document assistant. It
turns knowledge-base files into overlapping text chunks with metadata, ranks
the chunks against a query, and answers from the best hits. The model covers:

- the two character-window chunkers, `_chunk` (retrieve.py) and
  `simple_chunks` (utils.py);
- the document heuristics of retrieve.py: `_strip_markdown_noise`,
  `_title_from_markdown` and `_infer_doc_type`;
- `_iter_kb_files` (sorted, duplicate-free file list) and `_load_corpus` (rows
  for `.md` and `.jsonl` files with `source#i` ids and consecutive indices);
- `read_markdown_files` with its `Tittel:` title rule (utils.py);
- `build_index` up to the embedding, and the batching of `_embed_texts`
  (ingest.py);
- the top-k ranking in `search`, with the similarity scores as an input
  sequence;
- `_extractive_answer`, the fallback of `_llm_answer` and `answer`
  (answer.py).

Files, reading errors, the JSON decoder, the clock, the embedder and the chat
model are all parameters of the model. A file is an entry that carries its
content and date. JSON lines arrive through a `parse` function, and scores
arrive as a `seq<real>`. The embedder and the chat model are plain functions.
Python exceptions the code lets escape become `Err` values of a `Result`.

Modules, one file each: `Wrappers` (Option/Result), `Text` (Python string
built-ins: `isspace`, `strip`, `find`, `rfind`, `lower`, `splitlines`),
`Chunking`, `Markdown`, `Paths`, `Records`, `Corpus`, `Retrieve`
(search.dfy), `Ingest` and `Answer`.

## Model

| member | source | states |
|---|---|---|
| Chunking.Chunk | src/retrieve.py:77-91 | `_chunk` returns no windows exactly when the text is empty or only whitespace; every window is non-empty and at most `size` long |
| Chunking.SimpleChunks | src/utils.py:43-56 | `simple_chunks` returns no windows exactly for the empty string; every window is non-empty and at most `chunk_size` long |
| Chunking.SpansFrom | src/retrieve.py:84-90 | the loop from position `i` yields a window exactly when `i < n`; each window lies in `[i, n)`, is non-empty and at most `size` long, and the first starts at `i`; it ends because `n - i` shrinks |
| Chunking.SpansFromChained | src/retrieve.py:85-90 | every window but the last is exactly `size` long, and the next starts at `max(end - overlap, 0)`; with `overlap >= 0` the last window ends at `len(text)` |
| Chunking.SpansStep | src/utils.py:52-56 | with `0 <= overlap < size`, window `k + 1` starts exactly `overlap` characters before the full window `k` ends and ends no earlier |
| Chunking.WindowsFromCut | src/retrieve.py:84-90 | the loop read as a recursion on the start position yields the same windows as cutting the text at the computed boundaries |
| Chunking.TailsFrom | src/utils.py:51-56 | the windows from `i` on, each without its first `overlap` characters, glue to `text[i + overlap:]` |
| Chunking.RejoinFrom | src/retrieve.py:84-90 | the windows from `i` on, with each overlap counted once, glue to `text[i:]` |
| Chunking.ChunkReconstructs | src/retrieve.py:77-91 | `chunks[0] + chunks[1][overlap:] + ...` is exactly the stripped text: nothing is lost or reordered |
| Chunking.SimpleChunksReconstruct | src/utils.py:47-56 | the same reconstruction for `simple_chunks` gives back the text itself |
| Chunking.WindowsShareAt | src/utils.py:51-56 | window `k` is full, and its last `overlap` characters are the first `overlap` characters of window `k + 1` |
| Chunking.WindowsShape | src/retrieve.py:84-90 | the first window is a prefix of the text and the last a suffix; no window is longer than `size`; every window but the last shares its tail with the next |
| Chunking.ChunkShape | src/retrieve.py:78-90 | the window shape above holds for `_chunk` relative to the stripped text |
| Chunking.SimpleChunksShape | src/utils.py:49-55 | the window shape above holds for `simple_chunks` relative to the text |
| Chunking.CountFrom | src/retrieve.py:84-90 | from position `i` the loop makes `0`, `1` or `1 + ceil((m - size) / (size - overlap))` windows, with `m = n - i` |
| Chunking.ChunkCount | src/retrieve.py:77-91 | the number of `_chunk` windows in closed form, over the stripped length |
| Chunking.SimpleChunksCount | src/utils.py:43-56 | the number of `simple_chunks` windows in closed form |
| Chunking.ChunkIsSimpleChunksOfStripped | src/retrieve.py:77-91 | `_chunk(text)` equals `simple_chunks(text.strip())` for the same parameters |
| Chunking.SimpleChunksKeepWhitespace | src/utils.py:47-48 | for whitespace-only text `_chunk` gives nothing, while `simple_chunks` gives non-empty all-whitespace windows |
| Chunking.DefaultsDiffer | src/retrieve.py:16-17 | with their default parameters (700/120 and 800/100) the two chunkers cut a 750-character text into 2 and 1 windows |
| Markdown.RemoveFences | src/retrieve.py:50 | after removing the code blocks no two non-overlapping fences remain |
| Markdown.SqueezeWords | src/retrieve.py:52 | `re.sub(r"\s+", " ", s)` keeps the words of `s` (its maximal runs of non-whitespace characters) and only replaces the whitespace between them |
| Markdown.StripMarkdownNoise | src/retrieve.py:49-53 | the cleaned text is the words of the fence-free text joined by single spaces: no whitespace at either end, no two whitespace characters in a row |
| Markdown.HeadingText | src/retrieve.py:56-58 | the heading title is exactly `strip()` of what follows the `#`: its non-whitespace characters, with no whitespace at either end; it is empty exactly when only whitespace follows the `#` |
| Markdown.TitleFromMarkdown | src/retrieve.py:55-63 | the first heading line decides; without one, the first non-blank line, stripped and cut to 120 characters; without one, the fallback |
| Markdown.BlankHeadingGivesEmptyTitle | src/retrieve.py:56-58 | a `#` followed only by whitespace (at least two characters), with no `#` on an earlier line and only whitespace on later lines, still matches, and the title is the empty string |
| Markdown.TitleOfBlankText | src/retrieve.py:59-63 | whitespace-only text has its fallback as title |
| Markdown.TitleLength | src/retrieve.py:59-63 | without a heading the title is the fallback or has 1 to 120 characters |
| Markdown.InferDocType | src/retrieve.py:65-75 | each type is chosen exactly when its keyword group matches the lower-cased key and no group before it does, in the order regel, pris, booking, håndbok |
| Markdown.DocTypeLabels | src/retrieve.py:65-75 | the label is one of `regel`, `pris`, `booking`, `håndbok`, `annet` |
| Markdown.NameKeywordDecides | src/retrieve.py:66-68 | a `regel` keyword in the lower-cased file name gives `regel` whatever the text says |
| Markdown.TextBeyond400Ignored | src/retrieve.py:66 | characters of the text after the first 400 do not change the type |
| Paths.StemSuffix | src/retrieve.py:115-118 | a name is its stem followed by its suffix; a suffix is empty or a dot and at least one character with no further dot |
| Paths.HiddenNameHasNoSuffix | src/retrieve.py:115 | a name like `.md` has no suffix, so it is neither a `.md` nor a `.jsonl` file |
| Paths.NameOfString | src/retrieve.py:147 | `Path(s).name` is empty or a single component other than `.`; a string that is one such component is its own name |
| Paths.NameOfJoin | src/retrieve.py:147 | `Path(dir + "/" + name).name` is `name`: the last component, whatever comes before it |
| Paths.PathLessOrder | src/retrieve.py:104 | the path order `sorted` uses is irreflexive, transitive and total |
| Paths.Insert | src/retrieve.py:100 | adding a path gives exactly the old paths plus the new one |
| Paths.InsertSorted | src/retrieve.py:104 | adding into a strictly ascending list keeps it strictly ascending, so a path already there is not added twice |
| Paths.SortUnique | src/retrieve.py:104 | `sorted(set(xs))` is strictly ascending and holds exactly the elements of `xs` |
| Paths.SortedUnique | src/retrieve.py:104 | two strictly ascending lists with the same elements are equal, so the walk order does not matter |
| Paths.SortedDistinct | src/retrieve.py:104-105 | a strictly ascending list yields no path twice |
| Paths.Files | src/retrieve.py:98-103 | the paths kept from one glob are exactly the matches that are regular files |
| Paths.WalkFinds | src/retrieve.py:95-103 | a path is added to `seen` exactly when some present directory's `*.md` or `*.jsonl` glob matched it as a regular file |
| Paths.IterKbFiles | src/retrieve.py:93-105 | `_iter_kb_files` yields paths in strictly ascending order |
| Paths.IterKbFilesSpec | src/retrieve.py:93-105 | it yields exactly the regular files the walk matched, and any other strictly ascending listing of them is the same list |
| Records.MakeId | src/retrieve.py:130 | the id starts with the source followed by `#` |
| Records.SplitMakeId | src/retrieve.py:130 | the source and the index can be read back from `f"{source}#{i}"`, even when the source contains `#` |
| Records.MakeIdInjective | src/retrieve.py:159 | different (source, index) pairs give different ids |
| Corpus.MdRows | src/retrieve.py:115-131 | a `.md` file gives one row per chunk of its cleaned text, in order; row `j` has `chunk_idx == j`, the file's `source`, id `source#j`, the file's title and type, and no date or page |
| Corpus.MdRowsReconstruct | src/retrieve.py:117-123 | the row texts of a `.md` file, glued with each overlap counted once, are its cleaned text |
| Corpus.MdRowIds | src/retrieve.py:121-130 | within a `.md` file no two rows share an id, and every id reads back as the file's source and the row's index |
| Corpus.JsonlTitle | src/retrieve.py:147 | a truthy `title` is used as is; otherwise the title is `_title_from_markdown(txt, stem)` with the stem of the name of `source` (or of the file's stem); a `source` that is not a string raises, and nothing else does |
| Corpus.JsonlTitleFromSourceName | src/retrieve.py:147 | without a title, a source `dir/name` lends the stem of `name` as fallback: only its last component counts |
| Corpus.JsonlDocType | src/retrieve.py:148 | a truthy `doc_type` is used as is; otherwise the type is `_infer_doc_type(title, txt)`; it raises exactly when `doc_type` is falsy and the title is not a string |
| Corpus.JsonlSource | src/retrieve.py:149 | a truthy string `source` with each backslash turned into `/`; without a truthy `source` the file's own path; it raises exactly when `source` is truthy but not a string; the result has no backslash |
| Corpus.MakePending | src/retrieve.py:145-156 | the record has the cleaned text, the title, type and source the three rules give, and the metadata's `version_date` and `page`; it raises exactly when one of the rules does, and a title error comes first |
| Corpus.LineRecordSpec | src/retrieve.py:134-150 | blank and unparsable lines are skipped; a value that is not an object raises; a `text` that is not a string raises; missing or blank text is skipped; then a `metadata` that is not an object raises, and otherwise the line gives the record (or the error) `MakePending` gives, never a skip |
| Corpus.Finish | src/retrieve.py:151-160 | the row keeps the record's text, source, title, type, date and page, and gets index `ci` and id `source#ci` |
| Corpus.FinishId | src/retrieve.py:159 | the row's id reads back as its source and index |
| Corpus.Number | src/retrieve.py:133-161 | the lines of a file load without error exactly when no line raises, and otherwise the error is that of a line |
| Corpus.NumberSpec | src/retrieve.py:133-161 | the `j`-th kept line gets index `ci + j`, whatever was skipped before it |
| Corpus.SkippedLineKeepsIndex | src/retrieve.py:136-145 | a skipped line does not use up an index: the rows are as if it were absent |
| Corpus.JsonlRows | src/retrieve.py:132-161 | the rows of a `.jsonl` file are numbered `0, 1, 2, ...` and named `source#i` |
| Corpus.FileRows | src/retrieve.py:115-161 | the branch on the lower-cased suffix: `.md` rows, `.jsonl` rows, nothing for another suffix; rows are numbered from 0 within their file |
| Corpus.Concat | src/retrieve.py:112-162 | the joined rows load without error exactly when every file does, and every row is named `source#chunk_idx` |
| Corpus.LoadCorpus | src/retrieve.py:107-162 | `_load_corpus` succeeds exactly when every file loads, and every row is named after its source and index |
| Corpus.FileResultsAppend | src/retrieve.py:113 | the per-file results of two runs of files are those of each, in order |
| Corpus.LoadCorpusAppend | src/retrieve.py:113-162 | loading two runs of files is loading each and concatenating in file order; the first exception wins |
| Corpus.LoadKbCorpus | src/retrieve.py:107-162 | every row of the whole corpus is named after its source and index |
| Corpus.KbFilesOrder | src/retrieve.py:104-105 | the files are read in strictly ascending path order and are exactly the regular files the walk matched |
| Retrieve.Argsort | src/retrieve.py:228 | `argsort(-sims)` lists every index once, by non-increasing score |
| Retrieve.TopIndices | src/retrieve.py:228 | the first `k` indices are distinct, in range and by non-increasing score |
| Retrieve.TopIndicesAreTopK | src/retrieve.py:228 | no index left out scores above the last one taken |
| Retrieve.Search | src/retrieve.py:225-234 | `search` succeeds exactly when every selected index has a row; hit `j` is a copy of row `top[j]` with score `sims[top[j]]` |
| Retrieve.Hits | src/retrieve.py:229-233 | each hit copies its row and attaches the score; a missing row raises |
| Retrieve.SearchSpec | src/retrieve.py:203-234 | with one score per row, `search` succeeds with `min(k, n)` hits for `k >= 0`; scores do not increase; the hits come from a true top selection |
| Retrieve.SearchPrefix | src/retrieve.py:228 | for `0 <= k1 <= k2` the hits for `k1` are a prefix of those for `k2` |
| Ingest.TitleLineShape | src/utils.py:28 | a line whose lower-cased form starts with `tittel:` has its first colon at position 6 |
| Ingest.TitleFrom | src/utils.py:29 | the title is the stripped text after the first colon, or the stem when that is empty |
| Ingest.FindTitleLine | src/utils.py:27-30 | the search returns a title line and passes over none |
| Ingest.TitleRuleWithoutTitleLine | src/utils.py:25-30 | without a `tittel:` line the title is the file stem |
| Ingest.TitleRuleFirstLineWins | src/utils.py:25-30 | with one, the first such line gives the title (its text after the colon, stripped, or the stem when that is empty); later lines do not matter |
| Ingest.DocOf | src/utils.py:25-40 | the record's text is the stripped content, its source the resolved path, its date the file's date; its title is the stem without a `tittel:` line, and with one the first such line's text after the colon, stripped, or the stem when that is empty |
| Ingest.ReadMarkdownFiles | src/utils.py:6-41 | every accepted entry gives a record, and every record comes from an accepted entry |
| Ingest.ReadMarkdownFilesAppend | src/utils.py:14-41 | the records keep the walk order: two runs of entries give their records concatenated |
| Ingest.KeptWindowsSpec | src/ingest.py:40-43 | each kept chunk is a non-blank window, stripped, paired with its position among all windows; positions strictly increase |
| Ingest.KeptWindowsComplete | src/ingest.py:40-43 | every window that is not blank is kept |
| Ingest.AddDoc | src/ingest.py:38-51 | the loop over one document appends exactly its rows, and the chunk list stays the rows' texts |
| Ingest.BuildIndex | src/ingest.py:28-53 | no documents raises the first error; documents without a surviving chunk raise the second; otherwise `metas` are the rows of all documents in order, non-empty, and `chunks[j] == metas[j].text` |
| Ingest.RowsOfIdsDistinct | src/ingest.py:46 | rows built from strictly increasing positions carry distinct ids |
| Ingest.DocRowsSpec | src/ingest.py:37-51 | a document's rows: ids from window positions, strictly increasing with gaps where blank windows were dropped, copied fields, no two equal ids |
| Ingest.KeptChunkStripped | src/ingest.py:41-44 | every stored chunk is already stripped |
| Ingest.Batches | src/ingest.py:21-23 | batches have 1 to 128 texts, and all but the last have exactly 128 |
| Ingest.BatchesFlatten | src/ingest.py:22-25 | the batches, concatenated, are the input |
| Ingest.EmbedTextsPreservesOrder | src/ingest.py:18-26 | with an embedder that answers one vector per input, `_embed_texts` returns one vector per text, in input order |
| Ingest.Ingest | src/ingest.py:28-56 | `build_index` raises exactly when there are no documents or no chunks, before anything is embedded; otherwise the vectors are the embedding of the chunk texts |
| Answer.ExtractiveAnswer | src/answer.py:35-39 | no hits give `"Jeg vet ikke."`; otherwise the answer has the first hit's non-whitespace characters and no whitespace at either end |
| Answer.ExtractiveUsesFirstHit | src/answer.py:38-39 | hits with the same first text give the same answer |
| Answer.LlmAnswer | src/answer.py:24-33 | without a client the extractive answer; with one, the reply stripped |
| Answer.NoClientFallsBack | src/answer.py:25-26 | asking for the chat model without a client answers exactly as the extractive path |
| Answer.AnswerQuery | src/answer.py:41-47 | `answer` fails exactly when `search` does, returns the same hits, and answers from `hits[:k]` |
| Answer.ContextIsAllHits | src/answer.py:43-46 | for `k >= 0` the second cut `hits[:k]` keeps every hit |
| Answer.FirstHitIsBest | src/retrieve.py:228-233 | with one score per row and `k > 0`, the first hit is a copy of a row that scores highest of all |
| Answer.ExtractiveAnswerQuotesBestRow | src/answer.py:41-47 | without a chat model the answer is the stripped text of a highest-scoring row, or `"Jeg vet ikke."` when there are no rows or `k == 0` |
| Text.StripSpec | src/retrieve.py:78 | `strip()` removes exactly the leading and trailing whitespace |
| Text.StripUnique | src/retrieve.py:78 | any slice that removes only surrounding whitespace and keeps non-whitespace ends is the stripped string |
| Text.StripEmptyIff | src/retrieve.py:78-80 | the stripped text is empty exactly when the text is all whitespace |
| Text.StripNonSpace | src/answer.py:39 | stripping keeps every non-whitespace character in order |
| Text.ReplaceChar | src/retrieve.py:114 | `replace` on one character changes exactly the occurrences of that character |
| Text.LowerAppend | src/retrieve.py:66 | the modelled lower-casing works character by character, so it distributes over concatenation |
| Text.SplitLinesNoBreak | src/retrieve.py:59 | no line of `splitlines()` holds a break character |
| Text.SplitLinesUnsplit | src/retrieve.py:59 | `splitlines()` cuts the text at its breaks: putting each break back after its line gives the text, and the last line was closed by a break exactly when the text ends with one |
| Text.SplitLinesAppend | src/retrieve.py:134 | text that ends with a break splits independently of what follows |

## Left out

- File walking, reading and modification times. The entries, their contents
  (or a failed read) and their dates are inputs. `_read_text_file` turning a
  read error into `""` is the caller's choice of content.
- JSON decoding is the `parse` input. The model only sees its result: not
  JSON, or a value.
- TF-IDF fitting and `linear_kernel` (sklearn), OpenAI embeddings and chat, L2
  normalisation and FAISS are foreign code over floats. Scores are a
  `seq<real>`, and the embedder and chat model are functions.
- The chat prompt text and the model call are left out. `LlmAnswer` only
  strips the reply.
- The module-level caches (`_VEC`, `_MTX`, `_META`, `_EMB`, `_META_OAI`), the
  `_ensure_index_*` loaders, writing the index files and the final `print`.
  This is process state and I/O. Metadata and scores are passed explicitly,
  and a pure function cannot mutate the stored metadata.
- The order among equal scores. `np.argsort` is not stable, so no contract
  says which of two equal-scoring rows comes first.
- `_ensure_index_tfidf` on an empty corpus fits the vectorizer on `[""]`.
  That is sklearn behaviour and is left out.
- Chunking.Chunk, Chunking.SimpleChunks: require `0 < size` and
  `overlap < size`, which the defaults (700/120 and 800/100) meet. The Python
  loop runs forever only when `size - overlap <= 0` and the text (stripped,
  for `_chunk`) is longer than `size`. A shorter text gives one window, so
  `_chunk("abc", 10, 20)` is `["abc"]`. A `size <= 0` with `overlap < size`
  ends too, with empty windows or, for a negative `size`, slices that Python
  counts from the end. These parameters are outside the configuration and
  are left out. A negative overlap is allowed: it leaves gaps but terminates.
- Chunking.SpansFromChained: the last window ends at `len(text)` only for
  `overlap >= 0`. With a negative overlap the next start can jump past the
  end, so this part is stated for `overlap >= 0` only.
- Paths are POSIX paths: `/` is the only separator and the order `sorted`
  uses compares components case-sensitively. On Windows `pathlib` also
  splits at `\` and case-folds when comparing, so `Path(s).name` and the
  file order can differ there.
- Markdown.TitleFromMarkdown: the heading is found line by line, split at
  `\n`. A match in which `\s*` or `\s+` of `^\s*#\s+(.+)$` runs across a line
  break (`"#\nText"`) is not modelled.
- Markdown.RemoveFences: stated by what it leaves behind (no complete fence
  pair), not by the exact text of the regular-expression substitution.
- Lower-casing covers ASCII, Latin-1 and the few further characters whose
  lower-case form contains a keyword letter: U+0130, the Kelvin sign and the
  Ångström sign. Other characters are left unchanged.
- `str.splitlines` treats `\r\n` as one break. The model splits at each break
  character, so this only adds an empty line, which neither title rule can
  pick.
- Answer.ExtractiveAnswer, Answer.LlmAnswer: these contracts state what the
  stripped text keeps rather than naming `strip`.
  `Answer.ExtractiveAnswerQuotesBestRow` gives the exact value.
- Answer.AnswerQuery: for `useOpenai` the answer is only related to the
  chat reply through `LlmAnswer`. For a negative `k` the double cut
  `hits[:k][:k]` is modelled but not characterised; `ContextIsAllHits` covers
  `k >= 0`.
- Ingest.Ingest: `faiss.normalize_L2`, the index build and the writes after
  the embedding are left out. The method returns the rows and the vectors.
- src/index.py and app.py are not part of this model.
