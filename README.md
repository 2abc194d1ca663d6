# NEXUS / Room: a verified model of the document assistant's core

This project models the logic at the centre of the NEXUS document assistant:

- the RoomRAG engine (`backend/room_rag/engine.py`):
  - `clean_text` and `chunk_text`, which turn an uploaded document into word-preserving chunks of bounded length (only a single over-long word can exceed the bound);
  - `find_relevant_chunks`, which scores chunks against a query and ranks them;
  - the document store that `process_document`, `clear_documents`, `get_document_count` and `get_document_info` maintain;
  - `_fallback_response` and `get_response`, which build the reply.
- the basic translator (`backend/room_translate/translator.py`);
- the chat panel's state machine (`frontend/src/components/Chat.js`);
- the command classifier of the demo script's interactive mode (`demo.py`).

The files are:

- `text.dfy` (module `PyText`): the Python string operations the core relies on, with their contracts. These are `str.split()`, `' '.join`, `strip`, `lower`, `find`, prefix slicing and integer formatting.
- `rag_chunking.dfy` (`RagChunking`): `clean_text` and `chunk_text`.
  - `chunk_text` is a loop-and-invariant method. It is proved against a declarative description of greedy packing.
  - That description has a unique solution. Word preservation, the no-empty-chunk property and the size bound are proved about it.
- `rag_ranking.dfy` (`RagRanking`): query words, the relevance score in exact rational arithmetic, and the scoring loop.
  - The stable descending sort is proved to give a ranked permutation.
- `rag_engine.dfy` (`RagEngine`): the class `RoomRag`, whose fields `documents` and `textChunks` are updated in place.
  - Its invariant is that `textChunks` is the concatenation of the stored documents' chunks, and that every stored document holds at least 50 characters of text shaped as `clean_text` leaves it (no whitespace at either end, only plain spaces inside) together with the chunking of that text, at least one chunk.
- `translator.dfy` (`Translator`): the pure translator.
- `chat.dfy` (`Chat`): the class `ChatSession`, with the send handler split at its network call into `BeginSend` and `CompleteSend`.
- `demo_commands.dfy` (`DemoCommands`): `Classify`/`ParseCommand` and the interactive loop over a finite script of lines.

Everything outside the process is a parameter:

- PDF extraction and UTF-8 decoding are functions from bytes to text passed to `ProcessDocument`.
- The language-model call is a `Completion` value: no client, a completed message, or a raised error.
- The chat request's outcome is a `FetchResult`.
- Clock readings are integer arguments.

## Model

| member | source | states |
|---|---|---|
| PyText.Split | backend/room_rag/engine.py:100 | every piece `str.split()` yields is a non-empty run of non-whitespace characters; which runs, in which order, is pinned down by `PyText.SplitJoin` and `RagChunking.SplitJoinConverse` |
| PyText.SplitJoin | backend/room_rag/engine.py:107 | joining whitespace-free words with single spaces and splitting again gives back exactly those words |
| PyText.SplitWordsOccur | backend/room_rag/engine.py:180-189 | every word of `s.split()` occurs in `s` as a substring |
| PyText.Strip | backend/room_rag/engine.py:95 | the stripped text is a slice `s[a:b]` of the input with only whitespace outside it, and it has no whitespace at either end |
| PyText.SplitStrip | backend/room_rag/engine.py:95-100 | stripping a text does not change its words |
| PyText.JoinSplitSingleSpaced | backend/room_rag/engine.py:107 | a text whose only whitespace is single plain spaces between non-whitespace characters is the single-space join of its words |
| PyText.Find | backend/room_rag/engine.py:196 | `find` returns -1 or the position of an occurrence, and no occurrence starts earlier |
| PyText.Take | backend/room_rag/engine.py:174 | a Python prefix slice `s[:k]` is a prefix of `s` of length `min(k, len(s))`, and for negative `k` it drops `-k` elements from the end |
| PyText.LowerIsLowerCase | backend/room_rag/engine.py:166 | the lower-cased query contains no upper-case ASCII letter |
| PyText.NatToStringRoundTrip | backend/room_rag/engine.py:159 | the decimal rendering of a count reads back as that count |
| RagChunking.CollapseSpace | backend/room_rag/engine.py:90 | after replacing whitespace runs by one space, the only whitespace left is the plain space, no two whitespace characters are neighbours, no new character other than the space appears, and the result is empty, or starts with whitespace, exactly when the input is or does |
| RagChunking.CollapseSpaceEnd | backend/room_rag/engine.py:90 | a non-empty collapsed text ends in whitespace exactly when the input does |
| RagChunking.CollapseSpaceKeepsWords | backend/room_rag/engine.py:90 | collapsing the whitespace runs keeps the text's words, in order |
| RagChunking.SplitJoinConverse | backend/room_rag/engine.py:90-107 | joining a text's words with single spaces gives the text with each whitespace run collapsed to one space and both ends stripped |
| RagChunking.RemoveSpans | backend/room_rag/engine.py:92-93 | removing the non-greedy `open…close` spans introduces no character that was not in the input |
| RagChunking.CleanText | backend/room_rag/engine.py:87-96 | the cleaned text has no leading or trailing whitespace, and any whitespace inside it is a plain space |
| RagChunking.CleanTextHasWord | backend/room_rag/engine.py:140-145 | non-empty cleaned text contains at least one word, so an accepted document yields at least one chunk |
| RagChunking.ChunkText | backend/room_rag/engine.py:98-117 | the loop's chunks are the greedy packing of the text's words: consecutive groups covering the words in order, the first group counted one character longer than its joined text, each further group started exactly when the next word would overflow |
| RagChunking.ChunkingPreservesWords | backend/room_rag/engine.py:100-117 | splitting every chunk and concatenating the pieces gives exactly `text.split()` |
| RagChunking.ChunkingNonEmpty | backend/room_rag/engine.py:105-117 | no chunk is empty, and there are no chunks exactly when the text has no words |
| RagChunking.ChunkingSizeBound | backend/room_rag/engine.py:103-112 | a chunk of two or more words is at most `chunk_size` long and a first such chunk at most `chunk_size - 1`, so only a single over-long word can exceed the limit |
| RagChunking.GreedyUnique | backend/room_rag/engine.py:105-112 | the greedy packing of a word list is unique |
| RagChunking.ChunkingUnique | backend/room_rag/engine.py:98-117 | a text has exactly one chunking for a given size, so `chunk_text` is fully determined by its description |
| RagRanking.QueryWords | backend/room_rag/engine.py:166-171 | every query word is a non-empty whitespace-free word and no stop word |
| RagRanking.Score | backend/room_rag/engine.py:182-201 | the total score of a chunk is never negative; `RagRanking.ScorePositiveIff` states when it is positive |
| RagRanking.OverlapBounds | backend/room_rag/engine.py:183-184 | the overlap score is non-negative and zero when the query and the chunk share no word |
| RagRanking.ScorePositiveIff | backend/room_rag/engine.py:182-203 | a chunk's total score is positive exactly when some query word occurs in its lower-cased text |
| RagRanking.CollectExact | backend/room_rag/engine.py:177-204 | the scoring loop's list holds each positively scored chunk once, with its score and position, in stored order, and nothing else |
| RagRanking.SortByScore | backend/room_rag/engine.py:207 | the sorted list is a permutation of the scored entries |
| RagRanking.InsertRanked | backend/room_rag/engine.py:207 | inserting an entry that comes before every other in stored order keeps the list ranked |
| RagRanking.SortByScoreRanked | backend/room_rag/engine.py:207 | the stable descending sort returns a permutation ordered by non-increasing score, equal scores in stored order |
| RagRanking.RelevantChunks | backend/room_rag/engine.py:164-208 | retrieval never returns more chunks than are stored; `RagRanking.RelevantChunksBounds` and `RagRanking.RelevantChunksMatch` state the rest |
| RagRanking.FindRelevantChunks | backend/room_rag/engine.py:164-208 | the scoring loop followed by the sort returns what the retrieval description gives for the stored chunks |
| RagRanking.RankingExact | backend/room_rag/engine.py:177-207 | the sorted candidates are ranked and hold exactly the positively scored chunks with their scores and positions |
| RagRanking.RelevantChunksBounds | backend/room_rag/engine.py:166-174 | at most `top_k` chunks come back, each one a stored chunk; with no usable query word the result is `text_chunks[:top_k]` |
| RagRanking.RelevantChunksMatch | backend/room_rag/engine.py:178-208 | in the scoring branch the result is the top `top_k` of the ranking, and each returned chunk contains a query word in its lower-cased text |
| RagEngine.Truncated | backend/room_rag/engine.py:266-267 | a text longer than the limit becomes exactly `limit + 3` characters: its first `limit` characters followed by "..."; a text within the limit is kept whole |
| RagEngine.AcceptedIsStored | backend/room_rag/engine.py:140-157 | a document built from at least 50 characters of cleaned text and its chunking is one the store may hold: its content has no whitespace at either end and only plain spaces inside, and it has at least one chunk |
| RagEngine.StoredAppend | backend/room_rag/engine.py:156-157 | appending an accepted document keeps every document valid and extends the chunk list by exactly its chunks |
| RagEngine.AllChunksEmpty | backend/room_rag/engine.py:303-305 | with every stored document holding a chunk, the chunk list is empty exactly when there are no documents |
| RagEngine.FallbackReply | backend/room_rag/engine.py:255-271 | both forms of the fallback reply quote the query between single quotes |
| RagEngine.FallbackItemAt | backend/room_rag/engine.py:264-268 | the numbered list holds entry `i+1` for the `i`-th relevant chunk |
| RagEngine.FallbackListsEveryChunk | backend/room_rag/engine.py:262-270 | the fallback reply contains, for each relevant chunk, the entry numbered by its rank with the chunk cut to 300 characters |
| RagEngine.RoomRag.constructor | backend/room_rag/engine.py:23-24 | the engine starts with no documents and no chunks, and its invariant holds |
| RagEngine.RoomRag.ProcessDocument | backend/room_rag/engine.py:119-159 | an empty PDF extraction gives the error message and no change; cleaned text under 50 characters gives the warning and no change; otherwise exactly one document is appended, holding the name, the cleaned text, the byte size and its chunking, and its chunks extend the chunk list. The invariant is kept. |
| RagEngine.RoomRag.Store | backend/room_rag/engine.py:156-157 | appending an accepted document adds it at the end of the documents and its chunks at the end of the chunk list, nothing else changes, and the invariant is kept |
| RagEngine.RoomRag.ClearDocuments | backend/room_rag/engine.py:319-323 | both lists become empty, the invariant holds and the fixed confirmation is returned |
| RagEngine.RoomRag.DocumentCount | backend/room_rag/engine.py:303-305 | the count is the number of documents, and it is zero exactly when there are no chunks to search |
| RagEngine.RoomRag.DocumentInfos | backend/room_rag/engine.py:307-317 | one entry per stored document, in order, with its name, size, chunk count and the content cut to 100 characters |
| RagEngine.RoomRag.FallbackResponse | backend/room_rag/engine.py:255-271 | the accumulating loop builds the not-found reply listing the file names when nothing is relevant, otherwise the introduction, the numbered entries and the closing line |
| RagEngine.RoomRag.GetResponse | backend/room_rag/engine.py:273-301 | with no documents the fixed reply; otherwise the stripped model answer when the model answered and some chunk is relevant, and the fallback reply over the top five chunks in every other case |
| Translator.FirstMatch | backend/room_translate/translator.py:54-57 | the result is the position of a table phrase occurring in the text with no earlier phrase occurring, it is that position whenever such a phrase exists, and it is absent exactly when no phrase occurs |
| Translator.EnglishToHindi | backend/room_translate/translator.py:50-60 | the output is the input followed by " (", the Hindi of the first table phrase, in table order, that occurs in the lower-cased input, and ")"; when no phrase occurs it is the input followed by the "Hindi translation coming soon" note |
| Translator.HindiToEnglish | backend/room_translate/translator.py:62-65 | the output begins with the unchanged input and is strictly longer |
| Translator.Translate | backend/room_translate/translator.py:39-45 | ("en", "hi") is handed to the English-to-Hindi translator and ("hi", "en") to the Hindi-to-English one, so for these two pairs the input is a strict prefix of the output; every other pair gets the "not yet supported" message |
| Translator.SupportedLanguages | backend/room_translate/translator.py:67-72 | the supported languages are exactly "en" and "hi", which cover both languages of every pair `translate` handles |
| Translator.HasDevanagari | backend/room_translate/translator.py:77 | true exactly when some character lies in U+0900..U+097F |
| Translator.DetectLanguage | backend/room_translate/translator.py:74-80 | "hi" exactly when some character is Devanagari, "en" exactly when none is |
| Translator.DetectedIsSupported | backend/room_translate/translator.py:67-80 | every detected language is a key of the supported-languages map |
| Translator.PhrasesAreDevanagari | backend/room_translate/translator.py:11-23 | every Hindi entry of the table starts with a Devanagari character |
| Translator.MatchedTranslationIsHindi | backend/room_translate/translator.py:50-57 | when a table phrase matches, the English-to-Hindi output is detected as Hindi |
| Translator.HelloHowAreYou | backend/room_translate/translator.py:11-22 | "Hello, how are you?" contains both "hello" and "how are you", and table order makes it "Hello, how are you? (नमस्ते)" |
| Translator.DetectsEnglishExample | backend/tests/test_translate.py:12-13 | "Hello, how are you?" is detected as English |
| Translator.DetectsHindiExample | backend/tests/test_translate.py:16-17 | "नमस्ते, आप कैसे हैं?" is detected as Hindi |
| Chat.ChatSession.constructor | frontend/src/components/Chat.js:96-99 | the history and the input start empty, no request is in flight and the language is "en" |
| Chat.ChatSession.SetInput | frontend/src/components/Chat.js:265 | typing replaces the input and nothing else |
| Chat.ChatSession.BeginSend | frontend/src/components/Chat.js:123-148 | a blank input or a send in flight changes nothing and issues no request; otherwise the input is appended as a user message, cleared, the flag is raised, and the request carries the untrimmed input, "en" and `use_voice` false |
| Chat.ChatSession.CompleteSend | frontend/src/components/Chat.js:150-171 | exactly one non-user message is appended, carrying the response or the fixed apology, and the flag is lowered either way |
| Chat.ChatSession.HandleSend | frontend/src/components/Chat.js:123-172 | an accepted send grows the history by exactly two, the user message then the reply, leaving the earlier history untouched; a refused one changes nothing |
| Chat.ChatSession.FilesChanged | frontend/src/components/Chat.js:110-121 | a non-empty file list replaces the history with one non-user welcome message stating the file count; an empty one leaves it alone |
| Chat.ChatSession.KeyPress | frontend/src/components/Chat.js:174-179 | Enter without Shift performs the send step; any other key changes nothing |
| Chat.NoSendWhileLoading | frontend/src/components/Chat.js:124 | with a request in flight the send step issues nothing and changes nothing |
| Chat.AcceptedSendKeepsInput | frontend/src/components/Chat.js:124-135 | an accepted send had a non-blank input and no request in flight, and it posts and records the untrimmed input |
| DemoCommands.Normalize | demo.py:180 | the normalised line is lower-case with no whitespace at either end |
| DemoCommands.SplitAtSpace | demo.py:195 | `split(' ', n)` yields at most `n+1` pieces that join back with single spaces into the input; every piece but the last is space-free, and so is the last when fewer than `n+1` come back |
| DemoCommands.ParseCommand | demo.py:180-209 | a line is stripped and lower-cased before classification, so every argument a command carries is lower-case, and a question or an upload's content is never empty and never ends in whitespace |
| DemoCommands.Classify | demo.py:182-209 | each of "quit", "help" and "health" is the result exactly when the line is that keyword; an upload exactly when the line starts with "upload " and a space follows later, the usage message exactly when it starts with "upload " and none does; a line starting with "ask " or "voice " is a question made of the rest of the line, and a question comes only from such a line; unknown exactly when the line is no keyword and starts with no command prefix |
| DemoCommands.SplitOnceParts | demo.py:195 | one cut at a space gives two parts exactly when there is a space, and they are the text before the first space and all of the text after it |
| DemoCommands.ClassifyUpload | demo.py:194-201 | `split(' ', 2)` gives three parts exactly when a space follows the keyword's; the line is then "upload ", the space-free filename, a space and the content, inner spaces kept; otherwise the usage message |
| DemoCommands.UploadSlices | demo.py:194-198 | a recognised upload's filename is the line from position 7 up to the next space, and its content is everything after that space |
| DemoCommands.BareKeywordsUnknown | demo.py:194-209 | a bare "upload", "ask" or "voice" is an unknown command |
| DemoCommands.Interact | demo.py:178-215 | the loop handles exactly the commands of the script's lines up to and including the first "quit" |
| DemoCommands.UpToQuitStops | demo.py:178-183 | the handled commands are a prefix of the lines' commands, none of them "quit" except possibly the last, and the prefix stops short only right after a "quit" |

## Left out

- PyText.Lower: Python's `str.lower()` folds all of Unicode, and the model folds only A-Z. The results differ for inputs such as these:
  - U+212A KELVIN SIGN lower-cases to 'k' in Python. So "thanK you" (with that sign) matches the phrase "thank you" in `_english_to_hindi`, and "asK x" is an ask command in the demo loop. The model gives the "coming soon" note and an unknown command.
  - U+0130 (capital I with dot) lower-cases to two characters in Python. This lengthens the text, which shifts `command[4:]`, the upload split and the `find` positions used for the position bonus.
  - Non-ASCII capitals in a query or a chunk are not folded, so such words match in Python but not in the model.
- JavaScript's `trim()` and Python's `isspace()` treat slightly different characters as whitespace. Each is modelled separately (`Chat.IsJsSpace`, `PyText.IsSpace`).
- Scores are IEEE doubles in the source and exact rationals here. A tie or an order that rounding would change is not captured.
- RagChunking.RemoveSpans: the contract states only that no new character appears. The exact span removal is its definition, and idempotence of `clean_text` is not claimed.
- PDF text extraction (PyPDF2, including its "Page n:" labels) and the lenient UTF-8 decoding are caller-supplied functions.
- The language-model client is not modelled: its setup, `set_openai_api_key`, the prompts, the model name and the re-initialisation attempt in `get_response`. Only its outcome, a `Completion` argument, is modelled.
- Exceptions are not modelled:
  - a filename attribute that is present but `None`;
  - the re-raise in `process_document`;
  - the catch-all reply of `get_response`;
  - the `try` in `translate`.
  No modelled operation can raise. A missing filename attribute is `None` in the model and becomes "unknown.txt".
- `list.sort` is modelled as a functional insertion sort with the same stability, not as an in-place sort.
- The storage directory, console output and the `async` file read are not modelled.
- In the chat panel, the following are not modelled:
  - scrolling and rendering;
  - the `disabled` attributes of the text field and the send button;
  - a response body without a `response` field.
- The chat panel's message ids and timestamps are clock arguments.
- The files-changed effect is an explicit call rather than a React dependency.
- DemoCommands.Interact: the commands' network effects are not modelled. These are uploading, asking, the health check and printing the help text.
- DemoCommands.Interact: Ctrl-C and the end of input are not modelled. When input runs out, the source's `input()` raises `EOFError`, which the generic handler catches, so the loop never ends; the model instead stops at the end of its finite script.
- The upload panel takes one file at a time (`multiple: false` at frontend/src/components/FileUpload.js:37, and only `acceptedFiles[0]` is sent at :17); it has no queue of uploads, and it is not part of this model.
- Not part of this model:
  - `backend/main.py` (HTTP routing). Its `/upload` reports success even when `process_document` returned a warning or an error.
  - the voice placeholder module;
  - the presentation components;
  - the health-check and start scripts;
  - `config.py`;
  - the tests that exercise APIs absent from the code.
