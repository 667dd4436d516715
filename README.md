# Patent and paper trend search: a Dafny model of its core

The system indexes patents and research papers in a vector database. It then
answers semantic searches with the matching documents, labels each document
with a sub-topic, counts documents per sub-topic and publication date, and
reports year-over-year publication velocity. This project models the
sequential logic between the external services, in three parts:

- **Search post-processing** (`backend/app/main.py`):
  - building the filter expression from the optional query fields;
  - the failure and empty-result responses;
  - turning hits into documents;
  - naming clusters (`generate_subtopic_names`) and assigning sub-topics;
  - the trends table and the per-sub-topic velocity lists.
- **Ingestion normalisers** (`backend/app/data_ingestion.py`):
  - the ordered `FIELD_STANDARDIZATION` table and `standardize_field`;
  - `convert_date`, over a model of `strptime("%d-%m-%Y")`;
  - the ingestion pipeline: positional paper ids, repair of blank ids and the embedding text.
- **OpenAlex harvesting** (`backend/app/fetch_openalex.py`):
  - rebuilding an abstract from its inverted index;
  - the per-work defaults;
  - the cursor-paging loop bounded by `limit`.

The Python code changes lists, dictionaries and data-frame columns step by
step. Each such step is a Dafny `method` with loops. Its `ensures` ties the
result to a specification function, and the promised properties are proved
about that function as lemmas.

Modules and files:

- `wrappers.dfy`: `Option`, `Result`.
- `strings.dfy`: the Python string behaviour used throughout:
  - `join`, `in` on strings, ASCII `lower` and `isdigit`;
  - `int`/`str` of numbers;
  - code-point order and `sorted` on strings.
- `sums.dfy`: sums over maps.
- `search_filter.dfy`, `subtopics.dfy`, `trends.dfy`, `velocity.dfy`, `search.dfy`: `main.py`.
- `field_standardization.dfy`, `dates.dfy`, `ingestion.dfy`: `data_ingestion.py`.
- `openalex_abstract.dfy`, `openalex_fetch.dfy`: `fetch_openalex.py`.

External services are parameters of the model:

| Service | Modelled as |
|---|---|
| Encoding plus vector search | a function `retrieve` from the query text and filter to a `Result` of hits |
| KMeans | a function from vectors to labels, with its output contract stated (`KMeansContract`) |
| TF-IDF naming | a function from a cluster's abstracts to an optional vocabulary |
| `np.isfinite` | a predicate on vectors |
| The OpenAlex server | the sequence of pages it answers |

## Model

| member | source | states |
|---|---|---|
| SearchFilter.BuildFilter | backend/app/main.py:79-100 | The expression is `None` exactly when no predicate applies. Otherwise it is the applicable predicates rendered and joined by `" and "`. |
| SearchFilter.ClausesMembers | backend/app/main.py:81-99 | A predicate is emitted exactly when its condition holds, and it carries the query's own values. |
| SearchFilter.DocTypeClausePresent | backend/app/main.py:81-82 | A `doc_type` predicate appears exactly when `doc_type` is non-empty and not `"both"`, with that value. |
| SearchFilter.DateRangeClausePresent | backend/app/main.py:83-90 | A date-range predicate appears exactly when the range is a list of two non-empty strings, with those bounds. |
| SearchFilter.CitationClausePresent | backend/app/main.py:91-97 | A citation predicate appears exactly when `citation_min` is given and positive, with that minimum. |
| SearchFilter.FieldClausePresent | backend/app/main.py:98-99 | A `like` predicate on the field appears exactly when the field is non-empty, with that value. |
| SearchFilter.ClausesOrdered | backend/app/main.py:79-99 | There are at most four predicates, in the fixed order doc_type, date range, citation, field. |
| SearchFilter.NonPositiveCitationIgnored | backend/app/main.py:91-95 | A zero or negative `citation_min` gives the same filter as none. |
| SearchFilter.NoneExactlyWhenUnfiltered | backend/app/main.py:100 | The filter is `None` exactly when no predicate applies. |
| SearchFilter.DocTypeAndCitation | backend/app/main.py:81-100 | A document type with a positive citation minimum and no other filter gives `doc_type == '<type>' and citation_count >= <minimum>`. |
| Search.CollectHits | backend/app/main.py:120-138 | There is one document per hit, in hit order. There is one vector per hit, with a zero vector where the hit has none. |
| Search.Search | backend/app/main.py:74-187 | A failing retrieval answers only its message. No hit answers only the fixed advice. Otherwise every hit becomes a labelled document, the trends are the document tally, and each sub-topic's velocity list is the velocity of its trend row. |
| Search.TrendsCountDocuments | backend/app/main.py:163-165 | Every trend cell counts the documents of that sub-topic and date. All cells add up to the number of documents. |
| Search.VelocityCountsDocuments | backend/app/main.py:163-185 | Each velocity count is the number of documents of that sub-topic and year. The counts add up to the sub-topic's documents with a digit year. |
| SubTopics.ToDocument | backend/app/main.py:124-132 | A document's title is never empty (a missing title is "Untitled"), and it has no sub-topic before labelling. |
| SubTopics.NumClusters | backend/app/main.py:151 | The number of clusters is `min(5, n)`. |
| SubTopics.Clusterable | backend/app/main.py:150 | Defines when clustering runs: more than one vector, all of them finite. |
| SubTopics.ClusterEmptyIff | backend/app/main.py:50-55 | A cluster is empty exactly when no document has its label. Its abstracts are all empty exactly when every document with its label has an empty abstract. |
| SubTopics.ClusterOf | backend/app/main.py:50-52 | Defines a cluster as the abstracts of the documents with its label, in document order. `ClusterEmptyIff` states when it is empty. |
| SubTopics.ClusterName | backend/app/main.py:54-63 | Defines a cluster's name: "Miscellaneous" for no documents, only empty abstracts or a failed fit, otherwise the first two vocabulary terms joined by a space. |
| SubTopics.SubTopicOf | backend/app/main.py:155-161 | Defines the label of document `i`: its cluster's name when clustered, otherwise "Miscellaneous". |
| SubTopics.GenerateSubtopicNames | backend/app/main.py:48-64 | There are exactly `n_clusters` names; name `c` belongs to cluster `c`'s abstracts. A cluster without documents, or with only empty abstracts, is "Miscellaneous". |
| SubTopics.AssignSubTopics | backend/app/main.py:149-161 | Each document gets the name of its label's cluster, and nothing else about it changes. With fewer than two vectors or a non-finite one, every document is "Miscellaneous". |
| Trends.ComputeTrends | backend/app/main.py:163-165 | The table is the tally of the documents: every present cell is the positive count of its sub-topic and date. |
| Trends.TallyCount | backend/app/main.py:163-165 | A cell is present exactly when some document has that sub-topic and date, and then it holds their number. |
| Trends.TallyTopics | backend/app/main.py:163-165 | A sub-topic's row is present exactly when some document has that sub-topic. |
| Trends.TallyTotal | backend/app/main.py:163-165 | All cells add up to the number of documents. |
| Trends.TallyRestricted | backend/app/main.py:163-165 | The cells of a row whose dates satisfy a condition add up to the number of documents of that sub-topic with such a date. |
| Velocity.CountYears | backend/app/main.py:172-179 | The year counts have exactly the all-digit first four characters of the row's dates as keys. Each holds the sum of its dates' counts, and together they hold all dated counts. |
| Velocity.Year | backend/app/main.py:175 | Defines `str(date_str)[:4]`: the first four characters, or the whole text when shorter. |
| Velocity.PrevYear | backend/app/main.py:182 | Defines `str(int(year) - 1)` for a digit year. |
| Velocity.YearEntries | backend/app/main.py:180-184 | There is one entry per year in the given order, with its count and its change from the previous year (a missing previous year counting 0). |
| Velocity.EntriesYears | backend/app/main.py:176-180 | A year is listed exactly when it is a digit string and some date of the row has it as its year: its first four characters, or the whole date when it is shorter. |
| Velocity.EntriesCounts | backend/app/main.py:181-184 | Each entry's count is its year's total, and its delta is that total minus the previous year's total. |
| Velocity.EntriesSum | backend/app/main.py:180-184 | The counts of the entries add up to the dated entries of the row. |
| Velocity.EntriesAreVelocity | backend/app/main.py:172-185 | The entries are the velocity of the row: strictly ascending years, the listed years exactly, and the right counts, deltas and total. |
| Velocity.IsVelocity | backend/app/main.py:172-185 | Defines the velocity list independently of the loops: strictly ascending digit years, exactly those that occur, each with its total and its change from the year before, the counts adding up to all dated entries. |
| Strings.SortStrings | backend/app/main.py:180 | `sorted` of the year keys: strictly ascending, and exactly the keys. |
| Velocity.TopicVelocity | backend/app/main.py:170-185 | The list of one sub-topic is the velocity of its trend row. |
| Velocity.ComputeVelocity | backend/app/main.py:168-185 | The sub-topics with a velocity list are the trend table's, and every list is the velocity of its row. |
| FieldStandardization.StandardizeField | backend/app/data_ingestion.py:24-26 | A value that is not a string (NaN, a number) becomes "Unknown". |
| FieldStandardization.Lookup | backend/app/data_ingestion.py:28-31 | Defines the dict-order search: the category of the first entry whose keyword occurs in the text, or nothing. Its properties are the `Lookup*` lemmas. |
| FieldStandardization.LookupFirst | backend/app/data_ingestion.py:28-30 | The first entry whose keyword occurs decides the category. |
| FieldStandardization.LookupNone | backend/app/data_ingestion.py:28-31 | When no keyword occurs, nothing is found. |
| FieldStandardization.LookupFound | backend/app/data_ingestion.py:28-31 | What is found is the category of the first entry whose keyword occurs. Something is found exactly when some keyword occurs. |
| FieldStandardization.LookupAppend | backend/app/data_ingestion.py:28-30 | Searching a table that is two tables one after the other: the first gives its result when it has one, and otherwise the second is searched. |
| FieldStandardization.StandardizeFirstMatch | backend/app/data_ingestion.py:8-30 | A text gives the category of the first keyword, in table order, that occurs in it in any case. |
| FieldStandardization.StandardizeNoMatch | backend/app/data_ingestion.py:27-31 | A text containing no keyword, in any case, is returned unchanged. |
| FieldStandardization.StandardizeKept | backend/app/data_ingestion.py:27-31 | A text is returned unchanged exactly when it contains no keyword, or the decided category is the text itself. |
| FieldStandardization.CategoriesHaveNoKeyword | backend/app/data_ingestion.py:8-20 | No category name, nor "Unknown", contains any keyword in any case. |
| FieldStandardization.StandardizeIdempotent | backend/app/data_ingestion.py:8-31 | Standardising a standardised value changes nothing. |
| FieldStandardization.AdvancedNeuralNetworkShadowed | backend/app/data_ingestion.py:8-22 | The "advanced neural network" entry never decides. The table without it gives the same result on every text, because "neural network" comes first. |
| Dates.MatchDayMonthYear | backend/app/data_ingestion.py:36 | A matched text has a day of 1-31, a month of 1-12 and a four-digit year, and is at least 8 characters long. |
| Dates.MatchFields | backend/app/data_ingestion.py:36 | A day, month and year token joined by dashes are read as the day, month and year they spell. |
| Dates.Strptime | backend/app/data_ingestion.py:36 | Parsing succeeds exactly when the text matches `%d-%m-%Y` and names an existing date of year 1 or later, and the date is the one matched. |
| Dates.Iso | backend/app/data_ingestion.py:36 | The ISO text is ten characters long, with dashes at positions 4 and 7. |
| Dates.ConvertDate | backend/app/data_ingestion.py:33-44 | A text that is neither a date nor four digits comes back unchanged. |
| Dates.ConvertCell | backend/app/data_ingestion.py:36-42 | Defines the conversion of a cell as `convert_date` of the cell's `str()`. |
| Dates.IsoFields | backend/app/data_ingestion.py:36 | The ISO text holds the date's year, month and day, zero-padded, and they read back as the same numbers. |
| Dates.ConvertDayMonthYear | backend/app/data_ingestion.py:36 | A valid date written `DD-MM-YYYY` becomes `YYYY-MM-DD` of the same date. |
| Dates.ConvertDayMonthYearText | backend/app/data_ingestion.py:36 | Every spelling of an existing date that `%d-%m-%Y` accepts, padded or not, becomes `YYYY-MM-DD` of that date. |
| Dates.ConvertYear | backend/app/data_ingestion.py:40-41 | Four digits `Y` become `Y-01-01`. |
| Dates.ConvertNonexistentDate | backend/app/data_ingestion.py:37-42 | A text in the date shape that names no real date (31 April, 29 February of a common year) is returned unchanged. |
| Dates.ConvertYearFirst | backend/app/data_ingestion.py:37-42 | A text longer than four characters with its first `-` at position 4 is returned unchanged. |
| Dates.ConvertIdempotent | backend/app/data_ingestion.py:33-44 | Converting a converted value changes nothing. |
| Dates.ConvertMissing | backend/app/data_ingestion.py:36-42 | A missing value is converted to the text "nan". |
| Dates.GarbagePassesThrough | backend/app/data_ingestion.py:37-42 | "garbage" comes back as "garbage". |
| Ingestion.PaperId | backend/app/data_ingestion.py:115 | The id of paper `j` is `paper_` followed by a digit string that reads back as `j`. |
| Ingestion.RepairedId | backend/app/data_ingestion.py:129-131 | A blank id becomes `doc_` and the row index; any other id is kept as its text. |
| Ingestion.EmbeddingText | backend/app/data_ingestion.py:135 | The embedding text is the title, then `". "`, then the abstract. |
| Ingestion.Ingested | backend/app/data_ingestion.py:99-135 | The ingested table has one record per patent and then per paper. Each record is its source row prepared, converted and completed. |
| Ingestion.Apply | backend/app/data_ingestion.py:104-105 | Applying a function to a column gives its value on every cell, in order. |
| Ingestion.PreparePatents | backend/app/data_ingestion.py:100-113 | Each patent row becomes a record of type "patent" carrying the date given for it; `Concatenate` gives it the converted one. |
| Ingestion.PreparePapers | backend/app/data_ingestion.py:101-117 | Paper row `j` becomes a record of type "paper" with id `paper_j` and the date given for it; `Concatenate` gives it the converted one. |
| Ingestion.Concatenate | backend/app/data_ingestion.py:103-119 | The prepared patents come first, then the prepared papers. |
| Ingestion.FinishRows | backend/app/data_ingestion.py:120-135 | Every row gets its missing values filled in, its standardised field, a repaired id and an embedding text. |
| Ingestion.Preprocess | backend/app/data_ingestion.py:99-135 | The pipeline, with the fields standardised column-wise, gives the ingested table. |
| Ingestion.IdsNonEmpty | backend/app/data_ingestion.py:128-131 | No ingested id is empty. |
| Ingestion.PaperIds | backend/app/data_ingestion.py:115 | Paper `j` gets id `paper_j` and type "paper". |
| Ingestion.PaperIdsDistinct | backend/app/data_ingestion.py:115 | Different papers get different ids. |
| Ingestion.PatentIdsKept | backend/app/data_ingestion.py:108-113 | A patent's id is its own id, repaired only when blank. |
| Ingestion.DuplicateIdsKept | backend/app/data_ingestion.py:128-131 | Two patents with the same non-blank id keep that shared id. |
| Ingestion.PatentIdsDistinct | backend/app/data_ingestion.py:129-131 | Two patent rows get different ids when their own ids differ and none looks like a generated one. |
| Ingestion.PatentPaperIdsDistinct | backend/app/data_ingestion.py:115 | A patent id that does not look generated never equals a paper id. |
| Ingestion.IdsUnique | backend/app/data_ingestion.py:115 | All ingested ids are distinct when the non-blank patent ids are distinct and none looks generated. |
| Ingestion.DocIdsDistinct | backend/app/data_ingestion.py:130 | Different rows get different `doc_` ids. |
| Ingestion.MissingFieldUnknown | backend/app/data_ingestion.py:120-126 | A missing or numeric field becomes "Unknown". |
| Ingestion.EmbeddingTextOf | backend/app/data_ingestion.py:135 | Each record's embedding text is its title, `". "` and its abstract. The title and the abstract are the row's own, with a missing one as `""`, for patents and papers alike. |
| Ingestion.MissingDateIsNan | backend/app/data_ingestion.py:104 | A missing patent date becomes the text "nan", not the "1970-01-01" filler. |
| OpenAlexAbstract.WordPositions | backend/app/fetch_openalex.py:28-31 | The pairs are (position, word) for every listed position, item by item. |
| OpenAlexAbstract.InsertPair | backend/app/fetch_openalex.py:33 | Inserting keeps a list sorted and adds exactly the one pair. |
| OpenAlexAbstract.Sort | backend/app/fetch_openalex.py:33 | The sorted list is ordered by (position, word) and is a permutation of the pairs. |
| OpenAlexAbstract.SortPairs | backend/app/fetch_openalex.py:33 | Sorting gives a sorted permutation of the pairs. |
| OpenAlexAbstract.Reconstruct | backend/app/fetch_openalex.py:24-35 | The loops compute the abstract text of the index. |
| OpenAlexAbstract.AbstractText | backend/app/fetch_openalex.py:24-35 | Defines the abstract: `""` for a missing, null or empty index, otherwise the words of the sorted (position, word) pairs joined by single spaces. |
| OpenAlexAbstract.NoIndexNoAbstract | backend/app/fetch_openalex.py:24-35 | A missing, null or empty index gives the abstract `""`. |
| OpenAlexAbstract.PairsCount | backend/app/fetch_openalex.py:28-31 | There are as many pairs as positions listed. |
| OpenAlexAbstract.SortedWords | backend/app/fetch_openalex.py:28-33 | The joined words are ordered by ascending (position, word), ties on position broken by the word. There is one word per listed position. |
| OpenAlexAbstract.SortWords | backend/app/fetch_openalex.py:33 | Sorting keeps every word with its number of occurrences. |
| OpenAlexAbstract.PairsWords | backend/app/fetch_openalex.py:29-31 | A word occurs among the pairs as often as the index lists positions for it. |
| OpenAlexAbstract.WordMultiplicity | backend/app/fetch_openalex.py:28-33 | A word occurs in the abstract's word sequence exactly as many times as it has listed positions. |
| OpenAlexAbstract.SortedUnique | backend/app/fetch_openalex.py:33 | Two sorted lists of the same pairs are equal, so the result of `sorted` is determined. |
| OpenAlexAbstract.IndexPairs | backend/app/fetch_openalex.py:26-31 | The inverted index of a word sequence lists exactly the (position, word) pairs of the sequence. |
| OpenAlexAbstract.RoundTrip | backend/app/fetch_openalex.py:26-33 | Rebuilding the inverted index of a word sequence gives the words joined by spaces. |
| OpenAlexFetch.Get | backend/app/fetch_openalex.py:39-42 | `work.get(key, default)` is the default for an absent member, `None` for a null one, and the value otherwise. |
| OpenAlexFetch.FieldOfResearch | backend/app/fetch_openalex.py:37 | Defines the field: the topic's `display_name`, "Unknown" when the topic or the name is absent, and `None` for a null name. |
| OpenAlexFetch.PublicationDate | backend/app/fetch_openalex.py:41 | Defines the date text: "1970" for an absent year, "None" for a null one, otherwise the year's `str()`. |
| OpenAlexFetch.PaperOf | backend/app/fetch_openalex.py:23-44 | Defines the paper a work becomes, from `Get`, `AbstractText`, `PublicationDate` and `FieldOfResearch`. `PaperDefaults` states its defaults. |
| OpenAlexFetch.Served | backend/app/fetch_openalex.py:14-22 | Defines the works read: pages in order while they answer 200, each page's results taken whole, and the next page read only after a truthy cursor. |
| OpenAlexFetch.AppendPapers | backend/app/fetch_openalex.py:20-45 | One page adds the papers of its first works, up to the limit. |
| OpenAlexFetch.FetchPapers | backend/app/fetch_openalex.py:5-49 | The collected papers are the first `limit` papers of the works read, never more than `limit`. |
| OpenAlexFetch.ServedFromReadPages | backend/app/fetch_openalex.py:14-22 | Every collected work comes from a page that answered 200. Every page before it answered 200 and gave a cursor. |
| OpenAlexFetch.ServedStops | backend/app/fetch_openalex.py:14-48 | Reading stops at the first page that fails or has an empty or absent cursor. A failing page adds nothing; a page without a cursor adds its own results. |
| OpenAlexFetch.LimitPrefix | backend/app/fetch_openalex.py:14-22 | A smaller limit collects a prefix of what a larger one collects. |
| OpenAlexFetch.PaperDefaults | backend/app/fetch_openalex.py:37-43 | The defaults for each absent or null member: title, year, citations and field (including "Unknown" for an absent or null topic). |
| OpenAlexFetch.FetchedAbstract | backend/app/fetch_openalex.py:23-35 | A missing, null or empty index gives `""`. The index of a word sequence gives the words back. |
| OpenAlexFetch.FetchedDateConverted | backend/app/fetch_openalex.py:41 | `convert_date` applied to the publication-date text a work gives: a four-digit or defaulted year becomes January 1st of that year, and a null year's "None" stays "None". |

## Where the code and its intent differ

The model follows the code in each case.

- **No id deduplication.** The comment at `data_ingestion.py:128` says ids are made "non-empty and unique", but only blank ids are replaced. Two patents with the same id keep it (`Ingestion.DuplicateIdsKept`). A patent id such as `paper_0` collides with a paper. Uniqueness is proved only under those two hypotheses (`Ingestion.IdsUnique`).
- **Unparseable dates pass through.** `convert_date` returns them unchanged (`Dates.GarbagePassesThrough`). The `"1970-01-01"` fallback cannot be reached for a string.
- **The `"1970-01-01"` filler never applies.** A missing date reaches `fillna` only after conversion, which has already made it the text "nan" (`Ingestion.MissingDateIsNan`).
- **Filter values are not escaped.** They are interpolated into the expression as they are, and the model renders them the same way.

## Left out

- The vector database is left out: connection, collection creation, schema, index, insert and search. These are foreign calls, so the search's hits are an input (`retrieve`).
- The sentence-embedding model is left out. It is an external model, and vectors are opaque values of a type parameter.
- KMeans and TF-IDF internals are left out. They are library code: KMeans is a function whose labels are assumed to be below `min(5, n)`, and TF-IDF naming of a non-empty cluster is an uninterpreted function that may fail.
- `np.isfinite` and floating-point vectors are left out. Float semantics are out of scope, so finiteness is a predicate parameter.
- The FastAPI app, CORS, `/list_collections` and the debugging prints are left out; they are HTTP plumbing.
- pandas I/O is left out: CSV reading, adding missing columns with defaults, `to_csv` and the directory creation. Rows are records whose columns are all present.
- Float and numeric text columns are left out. Text columns are strings or absent, citation counts are integers, and a date or id cell is text, an integer or missing.
- `requests.get` and the network are left out. The server is the sequence of pages it answers, in request order. A page's `results` and `meta` are taken as present.
- OpenAlexFetch.FetchedDateConverted: the CSV round trip between the two scripts is not modelled. `to_csv` and `read_csv` may read the text "None" back as NaN, which then makes the whole year column float, so a year such as `2020` could reach `convert_date` as `2020.0` and pass through unconverted. The lemma states `convert_date` of the text as fetched.
- OpenAlexFetch.Served: an exhausted page sequence ends the reading. The real loop would keep asking a server that always answers.
- Strings.IsDigit, Strings.LowerChar: `str.isdigit` and `str.lower` are modelled on ASCII. Python also accepts other Unicode digits and folds other letters.
- Dates.Strptime: the `\d` of CPython's `%d` and `%Y` patterns is modelled as ASCII digits.
- Dates.Iso: the year is zero-padded to four digits. The C library on some platforms prints years below 1000 without padding.
- Dates.ConvertDate: the final `except` branch returning `"1970-01-01"` is not modelled. `str()` of a value of the modelled types cannot raise, so that branch cannot be reached.
- OpenAlexAbstract.AbstractText: positions are integers, and JSON object order is the order of the items.
