# sql-agent: a verified model of its text and catalogue logic

sql-agent is a small Flask application. It turns natural-language questions
about SQLite databases into SQL with the Gemini language model, explains
schemas and suggests questions. This project models the parts of it that
take decisions. Each module below states the behaviour in its contracts, and
the lemmas beside them prove the behaviour:

- `QueryGenerator` (`utils/query_generator.py`). It builds the translation
  prompt and parses the model's reply. Parsing takes the first
  `<reasoning>…</reasoning>` and `<sql>…</sql>` spans, strips them and falls
  back to fixed placeholders. It also shapes the result of executing a
  statement into a success or a failure record.
- `SchemaAnalyzer` (`utils/schema_analyzer.py`). It builds the schema
  snapshot (table names, `schema_text`, `table_info` with at most three
  sample rows) from the catalog. It also builds the analysis and suggestion
  prompts, and parses the model's enumerated list into at most five
  suggested questions.
- `HtmlEscape` (`static/js/main.js`, `escapeHtml`). The five-character HTML
  escape, with a decoder that proves it injective.
- `Config` (`config.py`, `load_databases`). The database catalogue built from
  a directory listing and the `metadata.json` map. This covers the key
  rule, the file path and the default name, description and icon.
- `App` (`app.py`).
  - The validation in `add_db` and its updates to the database directory
    and the metadata map.
  - The lookup in `delete_db`, the file it removes and the metadata entry it
    drops.
  - The unknown-database guards of `analyze_schema` and `suggest_queries`.
  - The empty-input guards of `generate_sql` and `execute_sql_api`.
  - The directory and `metadata.json` are the fields of a `Server` object,
    and the two handlers are its methods.
- `Text` holds the string operations the code relies on: `str.strip`, `isdigit`,
  `isalnum`, `split`, `replace`, `lstrip` and the substring search of `re`.
  `Engine` holds the data SQLite hands over (values, columns, catalog tables,
  the outcome of a statement).

The outside world enters as parameters:

- the language model is a function `ask` from prompt to reply;
- the SQLite catalog of a file is a function `catalogOf` from path to tables;
- statement execution is a function `engine` from path and SQL to an outcome;
- the database directory is the sequence of its file names, apart from
  `metadata.json`, which lives there too but never ends in `.db`;
- `metadata.json` is an optional map (absent while the file does not exist).

`Text` restricts Python's string predicates to ASCII:

- whitespace for `strip` is space, `\t`–`\r` and `\x1c`–`\x1f`;
- `isdigit` means `0`–`9`;
- `isalnum` means ASCII letters and digits;
- `title` changes only ASCII letters.

All Korean literal strings are copied exactly.

Behaviour worth knowing:

- A reply holding neither `<reasoning>` nor `<sql>`, such as the client's
  `"Error: ..."` text, gives both placeholders, whatever else it holds
  (`QueryGenerator.UntaggedReply`).
- An sql span holding only whitespace gives the empty string
  (`QueryGenerator.BlankSqlSpan`). The placeholder `-- SQL 생성 실패` appears
  only when there is no `<sql>…</sql>` pair at all.
- A qualifying suggestion line that holds a `.` anywhere gives the text
  after its first `.`, so the line `- revenue in 2023 vs. 2022` gives `2022`
  (`SchemaAnalyzer.EnumeratorCases`).
- A catalogue key is the file name with every `.db` removed (`a.db.db` has
  key `a`). Several files can therefore share a key, and the last one in the
  listing wins (`Config.CatalogueEntry`).

## Model

| member | source | states |
|---|---|---|
| QueryGenerator.TranslationPrompt | utils/query_generator.py:23-47 | the prompt holds the fixed instructions, then the schema text verbatim, then the question verbatim (after the schema), then the answer-format instructions, and nothing else |
| QueryGenerator.SearchSpec | utils/query_generator.py:52-53 | a non-greedy DOTALL match starts at the first opening tag, and its group ends at the first closing tag at or after that tag's end |
| QueryGenerator.SearchFindsPair | utils/query_generator.py:52-53 | the search matches exactly when some opening tag is followed, at or after its end, by a closing tag |
| QueryGenerator.ParseTranslation | utils/query_generator.py:52-56 | with no reasoning pair the reasoning is exactly `분석 중...`; with no sql pair the sql is exactly `-- SQL 생성 실패` |
| QueryGenerator.ReasoningIsFirstSpan | utils/query_generator.py:52-55 | the reasoning is the stripped text between the first `<reasoning>` and the first `</reasoning>` after it, newlines included |
| QueryGenerator.SqlHasNoCloseTag | utils/query_generator.py:53-56 | the extracted sql never contains `</sql>`, placeholder included |
| QueryGenerator.ReasoningOfLayout | utils/query_generator.py:52-55 | a reply that opens with a reasoning span free of `</reasoning>` yields that span stripped |
| QueryGenerator.SqlOfLayout | utils/query_generator.py:53-56 | a reply ending in an sql span free of `</sql>`, with no `<sql>` before it, yields that span stripped |
| QueryGenerator.SqlOpenNotInReasoning | utils/query_generator.py:52-53 | a reasoning span and the text after it hold no `<sql>` when neither part does |
| QueryGenerator.RoundTrip | utils/query_generator.py:52-56 | a reply laid out as `<reasoning>r</reasoning>x<sql>s</sql>` parses to (strip r, strip s) when r has no `</reasoning>`, s no `</sql>`, and r and x no `<sql>` |
| QueryGenerator.ReasoningIgnoresSuffix | utils/query_generator.py:52-55 | text appended after a complete reasoning span never changes the reasoning |
| QueryGenerator.SqlIgnoresSuffix | utils/query_generator.py:53-56 | text appended after a complete sql span never changes the sql |
| QueryGenerator.SqlIgnoresReasoning | utils/query_generator.py:52-56 | removing a reasoning span and any text before it, when neither holds `<sql>`, never changes the sql |
| QueryGenerator.ReasoningIgnoresSql | utils/query_generator.py:52-55 | removing an sql span and any text before it, when neither holds `<reasoning>`, never changes the reasoning |
| QueryGenerator.UntaggedReply | utils/query_generator.py:49-56 | a reply holding neither `<reasoning>` nor `<sql>` (such as the client's `Error: ...` text, `<` characters of an exception repr included) parses to both placeholders |
| QueryGenerator.BlankSqlSpan | utils/query_generator.py:53-56 | an sql span of whitespace only yields the empty string |
| QueryGenerator.GenerateSqlOfLayout | utils/query_generator.py:21-61 | when the model answers the translation prompt of the catalog's schema text and the question with `<reasoning>r</reasoning>x<sql>s</sql>` (r no `</reasoning>`, s no `</sql>`, r and x no `<sql>`), the question translates to (strip r, strip s) |
| QueryGenerator.GenerateSqlOfUntaggedReply | utils/query_generator.py:21-61 | when the model's answer to that prompt holds neither `<reasoning>` nor `<sql>`, as the client's `Error: ...` text normally does, the question translates to both placeholders |
| QueryGenerator.ShapeExecution | utils/query_generator.py:84-101 | success exactly when the engine ran; then the rows are the fetched rows and the columns are the description's names, or empty with no description; on failure the error is the engine's message |
| QueryGenerator.ExecuteSql | utils/query_generator.py:77-101 | failure exactly when the engine failed on that path and statement; on success the rows are the engine's rows |
| SchemaAnalyzer.TableNames | utils/schema_analyzer.py:21-22 | one name per catalog table, in catalog order |
| SchemaAnalyzer.Sample | utils/schema_analyzer.py:39-40 | the sample is a prefix of the rows of length min(3, number of rows) |
| SchemaAnalyzer.GetDatabaseSchema | utils/schema_analyzer.py:6-53 | the loop builds the snapshot of the catalog: names in catalog order, the schema text, and table_info with at most 3 sample rows per table |
| SchemaAnalyzer.SchemaTextAppend | utils/schema_analyzer.py:28-32 | schema_text of two runs of tables is the concatenation of their schema texts |
| SchemaAnalyzer.StatementInPlace | utils/schema_analyzer.py:28-32 | table i's create statement followed by `;\n\n` sits in schema_text right after the statements of tables 0..i-1 |
| SchemaAnalyzer.TableInfoKeys | utils/schema_analyzer.py:42-45 | every key of table_info is the name of a catalog table |
| SchemaAnalyzer.TableInfoEntries | utils/schema_analyzer.py:34-45 | every table (names being unique) has its entry, holding its columns and its sample |
| SchemaAnalyzer.TableInfoSize | utils/schema_analyzer.py:42-45 | table_info has exactly one entry per table |
| SchemaAnalyzer.AnalysisPrompt | utils/schema_analyzer.py:64-76 | the schema text appears verbatim between the fixed introduction and instructions |
| SchemaAnalyzer.SuggestionPrompt | utils/schema_analyzer.py:90-109 | the schema text appears verbatim between the fixed introduction and the numbered-list instructions |
| SchemaAnalyzer.AnalyzeSchemaWithLlm | utils/schema_analyzer.py:62-79 | the analysis is the model's reply to the analysis prompt of the catalog's schema text |
| SchemaAnalyzer.Kept | utils/schema_analyzer.py:117-121 | a line contributes at most one item, and one exactly when its stripped form is non-empty and starts with a digit or `-` |
| SchemaAnalyzer.Take | utils/schema_analyzer.py:123 | the result is a prefix of at most n items, exactly n when there are that many |
| SchemaAnalyzer.ParseSuggestions | utils/schema_analyzer.py:113-123 | the loop returns the suggestion list of the reply, at most 5 items |
| SchemaAnalyzer.SuggestQueriesWithLlm | utils/schema_analyzer.py:88-123 | the questions are the parsed reply to the suggestion prompt, at most 5 |
| SchemaAnalyzer.QualifyingIndices | utils/schema_analyzer.py:116-118 | the increasing list of exactly the positions whose stripped line qualifies |
| SchemaAnalyzer.CollectedSpec | utils/schema_analyzer.py:116-121 | item k comes from the k-th qualifying line with its enumerator removed: only qualifying lines count, each once, in order |
| SchemaAnalyzer.FirstFive | utils/schema_analyzer.py:123 | with five or more qualifying lines the list is exactly the items of the first five |
| SchemaAnalyzer.EnumeratorCases | utils/schema_analyzer.py:120 | a line with a `.` gives the stripped text after its first `.`; otherwise the stripped text after its leading `-` run |
| Text.StripSpec | utils/query_generator.py:55-56 | `strip()` returns the slice between leading and trailing whitespace; it is empty exactly when the text is all whitespace, else it starts and ends with non-whitespace |
| Text.Split | utils/schema_analyzer.py:114 | `split('\n')` gives parts that join back to the text and hold no separator |
| HtmlEscape.EscapeChar | static/js/main.js:79-86 | the five special characters map to `&...;` references free of `<`, `>`, `"` and `'`; every other character maps to itself |
| HtmlEscape.EscapeConcat | static/js/main.js:86 | escaping distributes over concatenation |
| HtmlEscape.EscapeIsSafe | static/js/main.js:86 | the output never holds `<`, `>`, `"` or `'` |
| HtmlEscape.EscapeLength | static/js/main.js:79-86 | the output is never shorter; it has the same length exactly when none of the five occurs, and then it is the input |
| HtmlEscape.UnescapeChar | static/js/main.js:79-85 | the decoder reads every escaped character back |
| HtmlEscape.UnescapeEscape | static/js/main.js:78-87 | decoding the escaped text gives the text back |
| HtmlEscape.EscapeInjective | static/js/main.js:78-87 | two texts with the same escape are equal |
| Config.Title | config.py:41 | `title()`: each letter is upper-case after a non-letter or at the start and lower-case after a letter; other characters are unchanged; the length is kept |
| Config.DefaultName | config.py:41 | `_` becomes a space and the rest is title-cased, an underscore counting as a word break |
| Config.LoadDatabases | config.py:11-47 | the loop over the listing builds the catalogue of that listing, and a missing metadata file acts as an empty map |
| Config.CatalogueKeys | config.py:25-27 | a key is in the catalogue exactly when some `.db` file of the listing derives it by removing every `.db` |
| Config.CatalogueEntry | config.py:28-45 | the entry for a key comes from the last `.db` file deriving it: file is the directory joined with that name; name, description and icon come from the metadata, or are the title-cased key, `No description` and `📁` |
| Config.DeriveKeyOfDbFile | config.py:27 | a key without `.` is derived back from its file name `key.db` |
| App.KeyAllowedSpec | app.py:70-71 | a key passes exactly when every character is a letter, digit or `_` and at least one is not `_` (`___` fails) |
| App.PlanAdd | app.py:59-96 | the checks run in order (key and name, then characters, then existing file) with their messages; an accepted add carries the stripped key, name, description and icon, the icon defaulting to `📁` |
| App.AcceptedKeyIsFileName | app.py:70-73 | an accepted key holds no `.` or `/`, and the catalogue derives it back from `key.db` |
| App.AllowedKeyIsFileName | app.py:70-73 | a key that passes the character check holds no `.` or `/` and is derived back from `key.db` |
| App.CatalogueAfterAdd | app.py:82-96 | after the new file and its metadata entry, the catalogue maps the key to that metadata and file |
| App.CatalogueAfterAddOther | app.py:82-96 | after the new file and its metadata entry, every other key keeps its catalogue entry |
| App.CatalogueOtherMetadata | app.py:92-96 | setting one key's metadata leaves the catalogue entries of all other keys unchanged |
| App.LastDbIndex | app.py:37 | the position of the last `.db` file deriving the key, or none when no file derives it |
| App.CatalogueFile | app.py:32-37 | a name is in the catalogue exactly when some file derives it, and its file is the directory joined with the last such file name |
| App.MetadataAfterDelete | app.py:42-50 | the name's entry is gone, every other entry is unchanged, and a missing file stays missing |
| App.AnalyzeSchemaReply | app.py:106-118 | an unknown database gives 404; otherwise the reply carries the model's answer to the analysis prompt of that database's schema text |
| App.SuggestQueriesReply | app.py:120-132 | an unknown database gives 404; otherwise the reply carries the suggestion list, at most 5 questions, of the model's answer to the suggestion prompt of that database's schema text |
| App.GenerateSqlReply | app.py:139-156 | an unknown database gives 404, then a blank question gives 400; otherwise the reply holds the translation of the stripped question on that database's file |
| App.ExecuteSqlReply | app.py:163-176 | an unknown database gives 404, then blank SQL gives 400; otherwise the reply is the execution result of the stripped SQL on that database's file |
| App.BlankQuestionIgnoresModel | app.py:143-147 | a refused question never reaches the model: the reply is the same whatever the model answers |
| App.BlankSqlIgnoresEngine | app.py:167-171 | refused SQL never reaches the engine: the reply is the same whatever the engine does |
| App.Server.AddDb | app.py:59-101 | a refused add returns 400 with its message and changes nothing; an accepted add creates `key.db`, writes the metadata entry and returns 200; the catalogue then lists the key with that metadata and file while every other key keeps its entry |
| App.Server.DeleteDb | app.py:30-52 | an unknown name returns 404 and changes nothing; otherwise the last `.db` file deriving the name, the one the catalogue lists, is the directory entry removed, the metadata entry is dropped, and the reply is `<name> deleted` |

## Left out

- The Gemini client (`utils/gemini_client.py`) is not part of this model. The model is the parameter `ask`, and whatever it returns, error text included, is treated as an ordinary reply.
- SchemaAnalyzer.GetDatabaseSchema: returns a snapshot for every catalog. The code puts each table name into its SQL unquoted (utils/schema_analyzer.py:30, 35 and 39), so a table named `order`, `order items` or `o'x` makes `get_database_schema` raise, and `analyze_schema`, `suggest_queries` and `generate_sql` then answer 500. That failure is not modelled.
- Real SQLite execution and the catalog queries are abstract; `engine` and `catalogOf` stand for them. A missing file is created empty by `sqlite3.connect` and reads as a catalog with no tables (`catalogOf` may return `[]`); the file it creates does not enter the listing. A file that is not an SQLite database raises at its first query, and that is not modelled.
- App.ExecuteSqlReply: a result holding a BLOB cell comes back from sqlite3 as `bytes`, which `jsonify` cannot encode, so the source answers 500 where the model answers `Executed` with `Blob` values. That failure is not modelled.
- App.Server.AddDb and App.Server.DeleteDb: `metadata.json` is not part of `listing`. Writing it for the first time adds a directory entry that the model leaves out; it never ends in `.db`, so the catalogue is the same either way.
- File-system I/O is reduced to its effect on the state. Reading and writing `metadata.json`, `sqlite3.connect` creating a file, `os.remove` and JSON encoding all change the listing and the metadata map and nothing else.
- The `500` replies of `add_db` and `delete_db`, which catch exceptions from that I/O, are not modelled.
- A `metadata.json` entry without `name`, `description` or `icon` raises `KeyError` in `load_databases`. The model's metadata values always have all three.
- Request bodies that are not JSON objects, and request values that are not strings, are not modelled.
- App.Server.AddDb: the new file is placed last in the listing. `os.listdir` order is unspecified, and when another file already derives the same key (`key.db.db`, say) the entry the catalogue shows for the key depends on that order.
- The existence check of `add_db` is modelled as `key.db` being among the directory's names. A directory of that name counts as well, as it does for `os.path.exists`.
- Non-ASCII behaviour of `strip`, `isdigit`, `isalnum` and `title` is not modelled. Python also accepts Unicode letters and digits in a key, which App.KeyAllowed refuses, and Unicode whitespace is not stripped.
- The order of keys in Python dictionaries (the JSON output order) is not modelled. Maps are unordered here.
- `Real` values are Dafny reals, not IEEE doubles.
- The routes `home` and `dashboard` only render a template and are not modelled.
- The query history (`save_to_history`, `get_history`, `toggle_bookmark`), `database/init_dbs.py`, `database/init_history.py`, `static/js/dashboard.js` and the rest of `static/js/main.js` are not modelled. They are storage I/O and user-interface code.
- Concurrent requests racing on `metadata.json` are not modelled.
