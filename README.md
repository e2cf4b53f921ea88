# ai-translator: the translation cache, the request handler and the batch translator

This project models the core of the ai-translator web service. Its request
handler `translate_texts` takes a list of Chinese texts, each tagged with its
source language. The handler returns a list with one record per distinct text,
holding the text's translation into seven target languages: zh-TW, tr, th, ja,
ko, en and my. Translations come from a language
model and are cached in an SQLite table. Three parts are modelled:

- **The cache table** (`app/crud.py`, module `Crud`). The table is a map from
  the triple (source text, source language, target language) to the translated
  value. The schema declares that triple UNIQUE. `GetCachedTranslations` is the
  filtered batch lookup. It keys the rows by source text and uses the first
  item's language for every item. `TranslationStore.BulkSaveTranslations` is the
  batch `INSERT OR IGNORE`, written as a method that updates the table row by
  row. A row already present is never overwritten, so the first write wins, and
  saving the same batch twice changes nothing.
- **The request handler** `translate_texts` (`app/main.py`, modules
  `LanguageSteps` and `Service`). For each target language the handler does
  four things:
  - it looks the request up in the cache;
  - it collects the items the lookup missed;
  - it sends only those to the translator and saves the answers;
  - it merges the cached and fresh values by text, fresh values winning.

  It then writes each record's field for that language. `RunStep` and
  `TranslateTexts` are the imperative code, and `MergeFields` is the inner loop
  over the records. They are proved against the functions `LanguageStep` and
  `Respond`. The lemmas about those functions state the following:
  - the response shape: one record per distinct text, in first-occurrence
    order, with a field for exactly the seven languages;
  - where each value comes from;
  - that no stored row is lost or changed;
  - that a request succeeds exactly when each language's step succeeds on the
    table as it was before the request;
  - that in a successful response no field is None.
- **The translator** (`app/translator.py`, modules `Translator` and `Text`).
  It covers:
  - the numbered text `"1. a\n2. b"` sent to each language chain;
  - `_parse_output`, which drops blank lines and cuts every other line after
    its first `". "`: the `"N. "` number of a numbered line, but just as well
    the `"Dr. "` of `"Dr. Who"`, which parses to `"Who"`;
  - `translate_batch`, which assembles the records by position and raises
    IndexError when an answer is short;
  - `translate_large_batch`, which handles consecutive slices of `batch_size`
    items (50 by default).

  The parse of the numbered text gives back the contents exactly, empty ones
  included, when no content holds a newline (`NumberedRoundTrip`).

The language model and the translator are parameters. A language chain is
`ParseOutput(llm(lang, text))`. The handler's translator is a function from the
missed items to `Some(values)`, or to `None` when the call raises. In the
service it is `translate_batch` over that language model. Translated values have
a type parameter `V`, because the handler stores and returns them without
looking inside them. The code passes `TranslationResult` objects where the cache
declares text. An exception that ends a request is a `None` response.

The cache write is an insert that ignores rows already present. Nothing is
validated before a save. The handler pairs answers with items by position and
merges cached and fresh values by text. The table holds one value per text,
source language and target language.

## Model

| member | source | states |
|---|---|---|
| Crud.GetCachedTranslations | app/crud.py:4-23 | an empty item list gives an empty map; every returned text is a requested content whose row, under the first item's language and the target language, holds the returned value; and every such stored row is returned |
| Crud.LookupReadsOnlyItsTarget | app/crud.py:16-22 | two tables with the same rows for a target language give the same lookup result for it |
| Crud.LookupIgnoresOtherSource | app/crud.py:11-22 | rows added under a source language other than the first item's leave the lookup's result unchanged |
| Crud.LookupFindsAll | app/crud.py:9-23 | when the table holds a row under the first item's language for every requested text, the lookup returns every requested text |
| Crud.RowsForOtherTarget | app/crud.py:18-22 | rows added for target languages other than l leave the rows for l unchanged |
| Crud.SaveRows | app/crud.py:30-33 | one row per item, item i paired with translation i, every row under the first item's source language |
| Crud.InsertOrIgnore | app/crud.py:36-43 | the keys afterwards are the old keys plus the batch's keys; every existing row keeps its value; a new key gets the value of its first row in the batch |
| Crud.BulkSaved | app/crud.py:25-44 | an empty batch changes nothing; afterwards every item's key (content, first item's language, target) is present; old rows are unchanged; every added row belongs to the batch |
| Crud.InsertPresentIsNoOp | app/crud.py:38 | inserting or ignoring rows whose keys are all present leaves the table unchanged |
| Crud.BulkSaveIdempotent | app/crud.py:25-44 | saving the same batch a second time leaves the table as the first save did |
| Crud.FirstInBatchWins | app/crud.py:30-43 | a key absent before the save gets the translation of the first item with that content |
| Crud.SavedThenCached | app/crud.py:4-44 | after a save, the same lookup finds exactly the batch's contents: the value already stored under each key, or else the first such item's translation |
| Crud.TranslationStore.constructor | app/database.py:17-30 | a new table has no rows; this stands for `init_db`, which none of app/main.py, app/dependencies.py and start.py calls |
| Crud.TranslationStore.BulkSaveTranslations | app/crud.py:25-44 | succeeds exactly when the batch is empty or has enough translations (otherwise IndexError and no change); the new table is the old one with the batch inserted or ignored row by row |
| Text.SplitLines | app/translator.py:93 | `split("\n")` gives at least one piece, no piece holds a newline, and joining the pieces with newlines gives back the string |
| Text.SplitNoNewline | app/translator.py:93 | a string without a newline splits into itself alone |
| Text.SplitAtNewline | app/translator.py:93 | splitting `a + "\n" + b` gives `a` followed by the pieces of `b` when `a` has no newline |
| Text.SplitJoin | app/translator.py:93-100 | splitting the newline-join of a non-empty list of lines without newlines gives back the list |
| Text.IsSpace | app/translator.py:94 | space, tab, newline and carriage return are whitespace for `strip()`; digits and `.` are not |
| Text.IsBlank | app/translator.py:94 | an empty line is blank; a line starting with a digit is not |
| Text.JoinLines | app/translator.py:100 | joining no lines gives the empty string; the first line opens the result and is followed by a newline when more lines follow |
| Text.Decimal | app/translator.py:101 | the f-string of a number is a non-empty run of decimal digits whose value is the number, with no leading zero unless the number is 0 |
| Translator.SepIndex | app/translator.py:92 | finds the first `". "` of a line, or reports that there is none |
| Translator.StripNumber | app/translator.py:92 | a line without `". "` is returned unchanged; otherwise the text after its first `". "` |
| Translator.NonBlankLines | app/translator.py:94 | keeps only non-blank lines of the input and every one of them, never more lines than the input; a list with no blank line is kept whole; a single line is kept exactly when it is not blank |
| Translator.NonBlankLinesAppend | app/translator.py:93-94 | the filter works line by line: the kept lines of a concatenation are those of the first part followed by those of the second, so order and multiplicity are kept |
| Translator.ParseLines | app/translator.py:91-95 | one result per non-blank line, in order, each the line with its number stripped |
| Translator.ParseOutput | app/translator.py:89-95 | the parsed answer has one entry per non-blank line of `content.split("\n")`, in order, each the line cut after its first `". "` |
| Translator.NumberedLine | app/translator.py:101 | `f"{n}. {content}"` is never blank and holds no newline when the content holds none |
| Translator.NumberedText | app/translator.py:100-103 | no contents give the empty text; for contents without newlines, splitting the text gives one line per content, line i being `f"{i+1}. {content}"` |
| Translator.StripNumberedLine | app/translator.py:92-101 | stripping the number from `f"{n}. {content}"` gives back `content` |
| Translator.NumberedRoundTrip | app/translator.py:91-103 | parsing the numbered text of contents without newlines gives back exactly the contents, empty ones included |
| Translator.ParseKeepsEmptyText | app/translator.py:92-94 | the answer line `"1. "` parses to an empty string: the blank test runs before the number is stripped |
| Translator.Chain | app/translator.py:106-110 | a chain whose model echoes the numbered text answers each batch with the batch's contents, in order |
| Translator.Answers | app/translator.py:106-110 | one parsed answer per target language, answer l being the chain of language l on the whole batch |
| Translator.RecordAt | app/translator.py:114-123 | record idx has the item's content as key and zh, a field for exactly the seven languages, and for each language entry idx of that language's answer |
| Translator.ResultAt | app/translator.py:106-123 | the record of item idx holds, for each language, entry idx of that language's chain on the batch, with key and zh the item's content |
| Translator.EchoedBatch | app/translator.py:91-123 | with a model that echoes its input, every answer has enough entries and entry idx is item idx's content |
| Translator.TranslateBatch | app/translator.py:97-125 | succeeds exactly when every language's answer has an entry per item (otherwise IndexError); record idx is the record built from entry idx of each answer |
| Translator.ChunkStart | app/translator.py:130 | the slice start of item j is at most j, and j lies before the next start |
| Translator.NextChunk | app/translator.py:130 | when the slices start at i, they also start at i + batch_size |
| Translator.SliceAt | app/translator.py:130-131 | the slice that starts at a step position i is `items[i:i+batch_size]`, cut at the end of the input |
| Translator.Chunk | app/translator.py:131 | the slice holding item j is non-empty, at most batch_size long, and holds item j at its offset |
| Translator.AppendSlice | app/translator.py:130-132 | appending the records of the slice at i keeps every record equal to the one its own slice produces |
| Translator.TranslateLargeBatch | app/translator.py:127-133 | a step of zero raises ValueError; a negative step gives no records; otherwise (50 by default) the call succeeds exactly when every slice fits, and then record j is the one its slice gives for it |
| LanguageSteps.Uncached | app/main.py:61-64 | `to_translate` holds every item whose text the lookup missed and no other item; a single item is kept exactly when its text was missed |
| LanguageSteps.UncachedCons | app/main.py:61-64 | the misses of a list are its first item, when missed, followed by the misses of the rest |
| LanguageSteps.UncachedAppend | app/main.py:61-64 | the misses of a concatenation are the misses of the first part followed by those of the second: the filter keeps request order and duplicates |
| LanguageSteps.ZipPrefix | app/main.py:79-82 | `dict(zip(keys, vals))` has an entry for each of the first n keys and no other; keys past the shorter list get none |
| LanguageSteps.ZipLastWins | app/main.py:79-82 | a key whose occurrence j is its last gets value j |
| LanguageSteps.ZipMap | app/main.py:79-82 | `dict(zip(keys, vals))` has an entry for each key with a paired value and for no other text |
| LanguageSteps.MergedValues | app/main.py:79-82 | `translations_map` holds only cached or missed texts; a cached text that was not missed keeps its cached value; with an answer per miss, every missed text has a value |
| LanguageSteps.LanguageStep | app/main.py:54-82 | a step succeeds exactly when nothing was missed or the translator answers with at least one value per miss; a failed step leaves the table unchanged with no values; a step that changes the table succeeded |
| LanguageSteps.StepKeepsRows | app/main.py:72-76 | a step keeps every stored row and adds rows only for its own target language |
| LanguageSteps.MergeWithoutMisses | app/main.py:79-82 | with no misses the merged values are the cached values |
| LanguageSteps.FullyCachedStep | app/main.py:54-82 | when every text is cached, the table is unchanged and the cached values are the step's values, whatever the translator would answer |
| LanguageSteps.StepCoversItem | app/main.py:54-82 | after a successful step every item's text has a value |
| LanguageSteps.StepCoversRequest | app/main.py:54-82 | the same for all items at once |
| LanguageSteps.StepKeepsCached | app/main.py:79-82 | a cached text keeps its cached value, because no missed item has that text |
| LanguageSteps.FreshValueWins | app/main.py:79-82 | in the merge a missed text gets the answer paired with its last occurrence among the missed items |
| LanguageSteps.StepFreshLastWins | app/main.py:61-82 | after a successful step with misses the translator answered, and a missed text gets the answer at its last occurrence among the misses |
| LanguageSteps.StepCachesEveryText | app/main.py:54-76 | when all items share one language, after a successful step the same lookup finds every text of the request |
| LanguageSteps.MissesSavedCoverRequest | app/main.py:61-76 | for a single-language request, a table that keeps the old rows and holds every miss under the first miss's language holds every requested text under the request's language |
| LanguageSteps.MixedLanguagesMissAgain | app/main.py:54-76 | when the first missed item's language differs from the first item's, a successful step's saved rows are invisible to the same lookup, which finds exactly what it found before |
| LanguageSteps.MixedLanguagesExample | app/main.py:54-76 | a witness: the request ["a" in zh, "b" in en] with "a" cached succeeds for en, yet the lookup afterwards still misses "b" |
| LanguageSteps.StepReadsOnlyItsLanguage | app/main.py:54-82 | a step's success and values depend only on the rows for its own target language |
| LanguageSteps.StepLeavesOtherLanguage | app/main.py:72-76 | a step leaves the rows of every other target language unchanged |
| LanguageSteps.StepsAreLocal | app/main.py:52-82 | a request's steps keep rows, write only their own language and read only their own language |
| LanguageSteps.RunStep | app/main.py:53-82 | one pass of the loop body on the store has the outcome `LanguageStep` gives on the table before it |
| Service.DistinctContents | app/main.py:49 | the records' texts are distinct, each is a requested content, and every requested content is among them |
| Service.FirstOccurrenceOrder | app/main.py:49 | a later record's text never occurs in the request before the first occurrence of an earlier record's text |
| Service.Merged | app/main.py:84-85 | every record gains the field for the language, holding the merged value of its text or None, and keeps its other fields |
| Service.Handled | app/main.py:52-85 | the loop keeps the set of records; it fails only at some language; on success each record has a field for every language it had or the loop visited |
| Service.HandledKeepsRows | app/main.py:52-76 | the loop keeps every stored row, even when a step fails, and adds rows only for languages it visits |
| Service.HandledField | app/main.py:84-85 | on success a record has a field for each language it had or the loop visited, and its other fields are unchanged |
| Service.HandledFollowsSteps | app/main.py:52-76 | the loop succeeds exactly when every language's step succeeds on the table before the loop |
| Service.HandledFirstValue | app/main.py:79-85 | on success the field for the first language visited holds that step's merged value for the text |
| Service.HandledValue | app/main.py:52-85 | on success the field for each visited language holds the value its step merges on the table before the loop |
| Service.InitialFields | app/main.py:49 | one record per text of the order, with no language fields yet |
| Service.Records | app/main.py:87 | the response lists one record per text, in order, with key and zh equal to the text and the text's fields as its language fields |
| Service.Respond | app/main.py:37-38 | an empty request gives an empty response and leaves the table unchanged |
| Service.RespondKeepsRows | app/main.py:52-76 | a request never removes or changes a stored row and adds rows only for the seven languages |
| Service.RespondSucceedsIffEveryStepDoes | app/main.py:52-76 | a non-empty request succeeds exactly when every language's step succeeds on the table before the request |
| Service.ResponseShape | app/main.py:41-87 | a successful response has one record per distinct text in first-occurrence order, key and zh equal to the text, and a field for exactly the seven languages |
| Service.FieldsForEveryLanguage | app/main.py:49-85 | starting from empty fields, a loop over the seven languages that does not fail leaves every record a field for exactly the seven languages |
| Service.RecordValue | app/main.py:79-87 | record k's field for a visited language holds that language's merged value for its text |
| Service.ResponseValues | app/main.py:52-87 | in a successful response, record k's field for language l is the value l's step merges, on the table before the request, for the record's text |
| Service.ResponseComplete | app/main.py:61-85 | in a successful response of the handler no language field is None |
| Service.MergeFields | app/main.py:84-85 | the inner loop over the records sets the language field of each record from the merged values |
| Service.TranslateTexts | app/main.py:25-87 | the response and the final table are those `Respond` gives for the request's steps on the table before the request |

## Left out

- The language-model clients, the proxy settings, the prompts and the chain wiring (app/translator.py:12-87) are foreign library calls. Each chain is `ParseOutput(llm(lang, text))` for a function parameter `llm`.
- The model's answers are not deterministic in reality. Here `llm` gives the same answer for the same prompt.
- `asyncio.gather` runs the seven chains concurrently. Here they are computed one language after another, since they do not share state.
- Opening and closing the SQLite connection, `init_db`, the search index, and the `id` and `created_at` columns are I/O or clock details. The table starts empty (`TranslationStore.constructor`, standing for `init_db`, which none of app/main.py, app/dependencies.py and start.py calls), and the only schema fact used is the UNIQUE triple.
- SQLite's TEXT column type and the driver's parameter binding are not modelled. The model stores any value type `V`. The code as written cannot run that way: `translate_batch` returns pydantic `TranslationResult` objects, and the handler passes them to `bulk_save_translations` as the translated text (app/main.py:72-76). Python's `sqlite3` has no adapter for such an object, so `executemany` (app/crud.py:36) raises on the first row. A request therefore fails at the first language whose lookup misses some text. On a table filled only by the handler that is zh-TW, but on a table filled some other way it can be a later language. The handler never adds a row to the cache.
- LanguageSteps.StepCachesEveryText: the successful step with misses it speaks of assumes a driver that stores any value. With the `sqlite3` driver such a step raises instead (see the line above).
- Service.ResponseComplete: a successful response on a table that does not already hold every text assumes a driver that stores any value. With the `sqlite3` driver only a fully cached request succeeds.
- A request is modelled as running alone. The handler is `async`, and at `await translator.translate_batch` (app/main.py:69) other requests on the same event loop can run and save rows. A later language's lookup can then see rows that the table before the request did not have.
- Service.TranslateTexts: the response and final table equal `Respond` on the table before the request only when no other request saves rows while this one waits.
- Service.RespondSucceedsIffEveryStepDoes: holds for a request that runs alone (see the line on concurrency above).
- Service.ResponseValues: holds for a request that runs alone (see the line on concurrency above).
- The FastAPI app, CORS, `custom_openapi`, `app/dependencies.py` and `start.py` are web and start-up plumbing.
- The response validation against `response_model=TranslationResponse` (app/main.py:25) is not modelled, and no client ever receives the list the model describes. `TranslationResponse` is an object with `code`, `message` and `data` (app/models.py:23-26), but the handler returns a plain list (app/main.py:38 and :87). FastAPI checks the returned value against the response model, so every response, `[]` included, fails that check and the client gets a server error. By then the request has already saved whatever rows it saved. The model describes the value the handler returns.
- Crud.GetCachedTranslations: the lookup always succeeds here. The source binds one parameter per item plus two more (app/crud.py:9 and :22). SQLite refuses a statement with more parameters than its limit (999 before SQLite 3.32, 32766 from then on), so a request with more items than that limit minus two fails at its first lookup. This limit is not modelled.
- Translator.TranslateBatch: a chain call is modelled as never raising, because `llm` is a total function. In the source a chain that raises, such as an API error after `max_retries=2`, makes `asyncio.gather` and so `translate_batch` raise. The only error this method returns is the IndexError of a short answer.
- Translator.TranslateLargeBatch: for the same reason its only errors are the ValueError of a zero step and the IndexError of a short answer in some slice; a raising chain is not modelled.
- Pydantic validation and aliases, the optional `de` field, and `TranslationResult`'s optional fields are not modelled. The record is a key, a zh, and a map from language code to value.
- The handler's loop variable `is_traditional` (app/main.py:52) is never used. The prompt's traditional-Chinese flag is the argument passed at app/translator.py:61, part of the prompts left out above.
- An exception ends a request with no response. Here that is a `None` response together with the table as written up to the failure. The HTTP error itself is not modelled.
- Service.TranslateTexts: the handler's `translate` is a parameter. The model does not instantiate it with `Translator.TranslateBatch`, whose contract describes that function (an IndexError there is a `None` here).
- LanguageSteps.ZipPrefix: the truncation by `zip`, which gives no entry to the misses past the end of a short answer, cannot happen in the handler. The save raises IndexError on a short answer before the merge runs.
- The handler's empty-request shortcut returns `[]` before the loop. A non-empty request whose texts are all cached still visits every language, with no translator call and no save.
