# Item aggregation service, modelled in Dafny

The service groups catalogue items ("STE" rows) into cards. Each card stands for one real-world product.

**Backend re-aggregation (`backend/app/ml_insert.py`)**
- Load the selected items.
- Embed their titles and cluster them with HDBSCAN.
- Merge the labels onto the items as card ids.
- Diff against the stored card ids.
- Write only the changed rows, in batches of 500.

**Backend endpoints (`backend/app/main.py`)**
- Spreadsheet import: the characteristics parser and the upsert counts.
- Page arithmetic of the searches and admin lists.
- The category list.
- Ratings.
- Card creation and deletion.
- The two re-aggregation endpoints.

**Backend fuzzy search (`backend/app/fuzzy_search.py`)**
- Matches a query against items and maps the matches back to item ids.

**Frontend**
- `frontend/src/lib/api/ste.ts`: file-type check, item-list query, fetch-everything loop.
- `frontend/src/lib/api/search.ts`: search query string.
- `frontend/src/lib/stores/auth.ts`: the auth store.

## Modelling choices

- **Data.** Tables are sequences of records. A nullable column is an `Option`. A failure (an HTTP error, a raised exception) is a `Result` value, so every error path is visible to the contracts.
- **Oracles.** These outside calls become parameters:
  - the sentence-embedding model and HDBSCAN, together a `Labeler` from titles to either labels or the message of a `RuntimeError`;
  - the model constructor (`attempt`);
  - the rapidfuzz scorer (`Scorer`);
  - JWT decoding (`Decoder`);
  - the clock (`now`);
  - the browser's storage.
- **The `run_ml_pipeline` model** takes the table, the model cache and these oracles. It returns the new table, the new cache and the summary dictionary.
- **Python and JavaScript semantics** are written out where they matter:
  - floor division and negative slice bounds;
  - `dict.get` returning `None` for a missing key;
  - JavaScript truthiness, `lastIndexOf` returning -1, and `slice` with a negative start;
  - `URLSearchParams.append`, `set` and `get`.
- **Card ids are modelled as the code writes them.**
  - The raw cluster label is stored as the card id (`ml_insert.py:119`), and label 0 is stored as "no card" (`ml_insert.py:116`, `:143`). Both are listed under Findings. `Allocation` holds the corrected reconciliation.
  - The diff compares against card ids re-read just before it (`ml_insert.py:132-137`).

## Model

| member | source | states |
|---|---|---|
| ModelCache.GetEmbeddingModel | backend/app/ml_insert.py:23-43 | A cached model is returned without loading. A successful load is cached. A failed load leaves the cache empty and fails with "Failed to load embedding model '<name>': <reason>". A model is returned iff the cache then holds it. |
| ModelCache.PreloadModel | backend/app/ml_insert.py:46-53 | Reports true iff a model is cached afterwards. False only when nothing was cached and the load failed. A cached model is never dropped. |
| ModelCache.LoadedModelIsSticky | backend/app/ml_insert.py:28-38 | Once a call in a series returns a model, every later call returns that same model, whatever the constructor would do. |
| ModelCache.CachedAnswersAll | backend/app/ml_insert.py:28-29 | With a model cached, every call of a series answers with it. |
| ModelCache.FailureDoesNotPoison | backend/app/ml_insert.py:27-43 | After a failed load the next call loads again and caches the model once the constructor succeeds. |
| Reaggregate.LoadRow | backend/app/ml_insert.py:76-78 | A null card becomes 0 and null features become `{}`. Id and title are kept. |
| Reaggregate.Load | backend/app/ml_insert.py:56-80 | Every loaded row has a selected id, and every selected table row is loaded as `LoadRow` reads it. An empty id list loads every row, in table order. Never more rows than the table. |
| Reaggregate.LoadIsFilter | backend/app/ml_insert.py:56-80 | Loading is a filter: the rows of a concatenated table load as the two parts' loads concatenated, and one row loads as its `LoadRow` iff the filter selects it, else not at all. |
| Reaggregate.LoadedRowsComeFromTable | backend/app/ml_insert.py:59-70 | Loaded ids are selected ids of the table. Unique ids in the table give unique loaded ids. |
| Reaggregate.RunClustering | backend/app/ml_insert.py:83-100 | An empty input gives no rows and never touches the model. Otherwise the model is fetched through the cache. The call fails iff nothing is cached and the load fails (the load's message), or the clustering raises (its message). On success there is one labelled row per loaded row, in order, carrying that row's label. |
| Reaggregate.LabelOf | backend/app/ml_insert.py:109-113 | The left join finds a label iff some clustered row has the id, and then it is that row's label. |
| Reaggregate.MergedCard | backend/app/ml_insert.py:116-119 | No label keeps the old card. Noise gives 0. Any other label becomes the card id. |
| Reaggregate.Merge | backend/app/ml_insert.py:103-123 | An empty clustering returns the loaded rows unchanged. Otherwise the rows are the same, in the same order, and only the card changes, as `MergedCard` says. |
| Reaggregate.Persisted | backend/app/ml_insert.py:143 | Card 0 is stored as null. Any other card is stored as itself. |
| Reaggregate.Proposals | backend/app/ml_insert.py:141-143 | One proposal per merged row, with the same id and the persisted card. Unique row ids give unique proposal ids. |
| Reaggregate.CurrentMap | backend/app/ml_insert.py:132-137 | The current map's keys are exactly the ids the filter selects. |
| Reaggregate.CurrentMapValue | backend/app/ml_insert.py:137 | For unique ids, the map holds each selected row's stored card. |
| Reaggregate.Diff | backend/app/ml_insert.py:140-146 | The updates are exactly the proposals whose card differs from the stored one, in both directions, and never more than the proposals. |
| Reaggregate.DiffIsFilter | backend/app/ml_insert.py:140-146 | The diff is a filter over the proposals: it distributes over concatenation, and one proposal is kept iff its card differs from the stored one. |
| Reaggregate.ApplyOne | backend/app/ml_insert.py:155-158 | Only rows with the update's id change, and only their card. |
| Reaggregate.ApplyAllLastWriteWins | backend/app/ml_insert.py:152-158 | After a list of updates, each row holds the card of the last update naming it. A row no update names is untouched. |
| Reaggregate.WriteSettlesProposal | backend/app/ml_insert.py:140-158 | After the diff is written, every selected proposal's id stores the proposed card. |
| Reaggregate.WrittenRowHolds | backend/app/ml_insert.py:140-158 | In a table with unique ids, after the diff of unique-id proposals is written, each selected row holds exactly the card its proposal names, whether or not the diff had to update it. |
| Reaggregate.DiffAfterWriteIsEmpty | backend/app/ml_insert.py:137-158 | Diffing the same proposals against the written table yields no update, so the write is idempotent. |
| Reaggregate.Changeset | backend/app/ml_insert.py:126-146 | The updates are exactly the proposals of the merged rows whose card differs from the card stored for that id in the re-read map, in both directions. |
| Reaggregate.ApplyAll | backend/app/ml_insert.py:152-158 | Writing updates keeps the table's length and every row's id, title and features; only card ids change. |
| Pipeline.WriteBatch | backend/app/ml_insert.py:154-158 | The inner loop applies one batch's updates in order. |
| Pipeline.WriteInBatches | backend/app/ml_insert.py:152-158 | The batches concatenate to the update list. Each batch holds 1 to 500 updates and all but the last hold exactly 500. The table ends as if all updates were applied in order. |
| Pipeline.UpdateStesInDb | backend/app/ml_insert.py:126-161 | The returned count is the changeset's size and at most the number of merged rows. The table is the changeset applied in 500-row batches. An empty changeset writes nothing. |
| Pipeline.RunMlPipeline | backend/app/ml_insert.py:164-190 | `no_data` iff nothing loads, with the table and cache untouched. `success` iff rows load, a model is cached or loads, and the clustering does not raise. `error` otherwise, with the table untouched, the loaded count, 0 updates and either the load message (nothing cached, load failed) or the clustering's message. A cached model stays cached. In every case `updated <= total`, only card ids change, and rows outside the filter never change. |
| Pipeline.NothingOutsideFilterChanges | backend/app/ml_insert.py:132-146 | The changeset names only loaded rows, so rows outside the filter keep their card. |
| Pipeline.SuccessStoresRawLabels | backend/app/ml_insert.py:116-146 | After a successful run each loaded row stores its raw label as card id. Noise and cluster 0 are both stored as null. |
| Pipeline.RunSuccessShape | backend/app/ml_insert.py:175-190 | When rows load, a model is cached or loads and the clustering succeeds, the run writes exactly the changeset of the merged rows, keeps the fetched model and reports the loaded count and the changeset's size. |
| Pipeline.MergedForIgnoresCards | backend/app/ml_insert.py:88-119 | Changing only card ids does not change what a run merges: titles drive the labels and every loaded row takes its label. |
| Pipeline.ChangesetSettles | backend/app/ml_insert.py:137-158 | The changeset of a run's merged rows is empty against the table that run wrote. |
| Pipeline.SecondRunChangesNothing | backend/app/ml_insert.py:164-190 | Running again right after a success, with the same clustering, succeeds with 0 updates and leaves table and cache as they were. |
| Pipeline.ReaggregateStes | backend/app/main.py:697-700 | An empty id list is refused with 400 "ste_ids cannot be empty". Otherwise the run touches only the listed ids and `updated <= total <= rows`. |
| Pipeline.ReaggregateAllStes | backend/app/main.py:715 | The unfiltered run counts every row of the table, and reports `no_data` iff the table is empty. |
| Pipeline.ClusterZeroIsStoredAsNoCard | backend/app/ml_insert.py:116-143 | As written: two bolts in HDBSCAN cluster 0 end up with no card, exactly like the noise item. |
| Pipeline.RawLabelJoinsUnrelatedCard | backend/app/ml_insert.py:119 | As written: bolts labelled 1 are filed under card 1, which already holds an unrelated hammer. |
| Allocation.FirstSeen | backend/app/ml_insert.py:116-119 | The run's distinct non-noise labels: each listed label occurs in the run and is not noise, every such label is listed, and none twice. |
| Allocation.FirstSeenInOrder | backend/app/ml_insert.py:116-119 | The labels are listed in first-seen order: of two listed labels, the earlier one first appears earlier in the run. |
| Allocation.LabelCards | backend/app/ml_insert.py:116-119 | Corrected mapping: exactly the non-noise labels get cards. The cards are distinct per label and all lie in the fresh range from `nextId`. |
| Allocation.Reconcile | backend/app/ml_insert.py:141-146 | Corrected proposals: ids kept in order, and noise gets no card. Every cluster gets a fresh card. Two rows share a card iff they share a label. |
| Allocation.RenamingKeepsCards | backend/app/ml_insert.py:94-95 | Renumbering the clusters, as a rerun of HDBSCAN may, yields the same proposals. |
| Allocation.AllocatingRun | backend/app/ml_insert.py:164-190 | The corrected run keeps the original's status, error messages, count, cache and filter guarantees: success iff rows load, a model is available and the clustering succeeds. New cards are only ones at or above `nextId`, and existing cards are kept. |
| Allocation.AllocatingRunKeepsCardsReal | backend/app/ml_insert.py:119 | Provided every card a row pointed at existed before and every existing card lies below `nextId`, after a corrected run every row's card exists in the run's card set, new cards included. |
| Allocation.AllocatingRunStores | backend/app/ml_insert.py:116-146 | After a corrected success each loaded row stores its cluster's fresh card, or null for noise. |
| Allocation.AllocatingRunSettles | backend/app/ml_insert.py:137-158 | The corrected changeset is empty against the table it wrote. |
| Allocation.ClusterZeroGetsACard | backend/app/ml_insert.py:116 | Corrected: the two bolts of cluster 0 share a card and the noise item gets none. |
| Allocation.BoltsGetTheirOwnCard | backend/app/ml_insert.py:119 | Corrected: the hammer keeps card 1 and the bolts share a new card other than 1. |
| Characteristics.ParseSegment | backend/app/main.py:113-115 | A segment parses iff it contains ':'. The key has no ':', and key and value come out stripped. |
| Characteristics.ParseAtFirstColon | backend/app/main.py:113-115 | A segment whose first ':' is at position i parses as the stripped text before i and the stripped text after it. |
| Characteristics.Parsed | backend/app/main.py:111-115 | Only segments with ':' yield pairs, in order. With no ':' anywhere there are none. |
| Characteristics.ParsedIsFilter | backend/app/main.py:111-115 | Parsing the segments is a filter: it distributes over concatenation, and one segment yields its parsed pair iff it has a ':', else nothing. |
| Characteristics.PairsMapKeys | backend/app/main.py:112-115 | The dictionary's keys are exactly the pairs' keys. |
| Characteristics.PairsMapLastWins | backend/app/main.py:115 | A key holds the value of the last pair that names it. |
| Characteristics.ParseCharacteristics | backend/app/main.py:105-117 | A non-string cell gives `{}`. A string without ':' gives `{}`. All keys and values come out stripped and keys hold no ':'. |
| Characteristics.RenderParse | backend/app/main.py:108-115 | Round trip: parsing "k1: v1; k2: v2" built from stripped keys and values free of ':' and ';' gives the dictionary of those pairs, later duplicates winning. |
| Characteristics.ParseJoined | backend/app/main.py:108-115 | A string made by joining segments free of ';' with ';' parses as the dictionary of those segments' pairs, later keys winning. |
| Characteristics.JunkSegmentSkipped | backend/app/main.py:111-115 | A segment without ':' between two rendered pairs, as in "a: 1;junk; b: 2", is skipped: the result is the dictionary of the two pairs. |
| SteImport.ModelName | backend/app/main.py:128-130 | An empty cell stays null. A text cell becomes its stripped text, and a number becomes its decimal, which is already stripped. |
| SteImport.ToSteData | backend/app/main.py:132-142 | The record written carries the row's external id, parsed characteristics and model text. |
| SteImport.Step | backend/app/main.py:144-157 | A row without an external id (null or 0) is skipped. A known id is overwritten and counted as updated. A new id is inserted and counted as created. |
| SteImport.ImportRows | backend/app/main.py:103-157 | `created + updated` equals the number of rows with an id. The keys become the old keys plus the file's ids, and `created` is exactly how many keys are new. Other items are unchanged. Each id holds its last row's data. |
| Pagination.FloorDiv | backend/app/main.py:583 | Python's `//`: the quotient rounded down, for either sign of divisor. |
| Pagination.PySlice | backend/app/main.py:564 | Python's `s[a:b]`: for non-negative bounds the clamped slice, and empty when `b <= a`. |
| Pagination.KeepLoaded | backend/app/main.py:567-568 | Keeps exactly the ids that loaded, in order. |
| Pagination.SearchPageIds | backend/app/main.py:562-568 | A page holds only ranked ids that loaded, never more than the ranking. |
| Pagination.TotalPages | backend/app/main.py:583 | 1 when there are no results. `ZeroDivisionError` iff there are results and `per_page` is 0. For positive `per_page` the ceiling of `total / per_page`. For negative `per_page` Python's floor of `(total + per_page - 1) / per_page`, e.g. -1 for 5 results and `per_page` -2. |
| Pagination.AllPagesShowEveryMatch | backend/app/main.py:562-583 | Pages 1 to `total_pages` laid end to end show every loaded match exactly once, in rank order. |
| Pagination.AdminPage | backend/app/main.py:290-292 | `[skip:skip + limit]` is the clamped window and never longer than `limit`. |
| Pagination.NegativePageShowsMiddleOfRanking | backend/app/main.py:563-564 | As written: page -1 with 10 per page over 25 ids shows ids ranked 5 to 14, although that page's window is empty. |
| Pagination.CheckedSearchPageIds | backend/app/main.py:563-568 | Corrected: a page below 1 is empty, and every page shows the loaded ids of its own window. From page 1 on it agrees with the code. |
| Categories.Dedup | backend/app/main.py:614 | `DISTINCT`: no repeated pair, and the same pairs as the table. |
| Categories.DisplayName | backend/app/main.py:619 | A non-empty name is kept. A missing or empty name falls back to the id's decimal, which reads back as the id. |
| Categories.CategoryList | backend/app/main.py:615-620 | Pairs with a null id are skipped. Every other pair is listed with its display name. |
| Categories.CategoryListIsFilter | backend/app/main.py:615-620 | The listing is a filter-map: it distributes over concatenation, and one pair is listed as its id with its display name iff its id is not null. |
| Categories.GetCategories | backend/app/main.py:605-620 | Every listed category has an id and name-derived display name of some table pair, and every table pair with an id is listed with its display name. Never more categories than table rows. |
| Categories.SameIdListedTwice | backend/app/main.py:614-619 | For every id, a table holding it once without a name and once named by its own decimal lists that category twice, identically. |
| Rating.FindVote | backend/app/main.py:648-652 | Finds a vote of that user on that pair iff one exists. |
| Rating.RateAggregation | backend/app/main.py:625-672 | 404 "Card or STE not found" first, then 400 "Score must be 0 or 1". Otherwise the returned vote is in the table with the given pair, user and score. |
| Rating.RatingKeepsOneVotePerVoter | backend/app/main.py:646-672 | At most one vote per (card, item, user) is kept. Re-voting adds no row, a first vote adds one, and all other votes stay. |
| Rating.LastVoteCounts | backend/app/main.py:654-659 | Voting twice leaves one vote holding the second score. |
| CardMembership.CreateCard | backend/app/main.py:436-459 | The new card exists and exactly the listed existing items point at it. Other items are untouched. |
| CardMembership.DeleteCard | backend/app/main.py:494-510 | 404 "Card not found" iff the card is unknown. Otherwise the card goes, its items lose their card first, and other items are untouched. |
| CardMembership.MembershipKeepsCardsReal | backend/app/main.py:452-508 | Creating and deleting cards never leaves an item pointing at a missing card. |
| CardMembership.CreateThenDelete | backend/app/main.py:436-510 | Deleting a card just created restores the card set and leaves its items without a card. |
| FuzzySearch.Scored | backend/app/fuzzy_search.py:27-33 | Scores are rapidfuzz's floats (`real`), compared with the cutoff as numbers. Exactly the candidates scoring at least the cutoff, with their score and index, in candidate order. |
| FuzzySearch.Rank | backend/app/fuzzy_search.py:27-33 | The sort inside `process.extract` is a permutation of its input. |
| FuzzySearch.RankRanked | backend/app/fuzzy_search.py:27-33 | The sorted list is ordered by score, highest first, with ties in candidate order. |
| FuzzySearch.FuzzyMatch | backend/app/fuzzy_search.py:10-35 | Empty query or no candidates gives `[]`. Otherwise at most `limit` ranked matches, each naming its candidate, its score and an index in range. |
| FuzzySearch.FuzzyMatchComplete | backend/app/fuzzy_search.py:27-33 | With `limit >= len(candidates)` every candidate at or above the cutoff is returned. |
| FuzzySearch.MatchesAreDistinct | backend/app/fuzzy_search.py:27-35 | No candidate is returned twice. |
| FuzzySearch.Combined | backend/app/fuzzy_search.py:63-68 | The search string is name, model and manufacturer (missing ones as empty), with the empty ones dropped and the rest joined by single spaces. |
| FuzzySearch.CombinedSplits | backend/app/fuzzy_search.py:63-68 | When no field holds a space, splitting the search string at spaces gives back exactly the non-empty fields, in order. |
| FuzzySearch.FuzzyMatchesForSte | backend/app/fuzzy_search.py:38-80 | Empty query or no items gives `[]`. Otherwise the k-th id is the id of the item at the k-th match's index, and there are at most as many ids as items. |
| FuzzySearch.MatchedItemsAreRanked | backend/app/fuzzy_search.py:72-80 | The ids are of distinct items scoring at or above the cutoff, best score first. |
| FuzzySearch.EveryMatchingItemIsListed | backend/app/fuzzy_search.py:73-80 | Every item whose search string reaches the cutoff has its id among the results. |
| FuzzySearch.CalculateSimilarity | backend/app/fuzzy_search.py:83-89 | 0 when either string is empty. Otherwise the score of the lower-cased strings. |
| FuzzySearch.SimilarityIgnoresCase | backend/app/fuzzy_search.py:89 | Lower-casing either argument first changes nothing. |
| SteApi.JsSliceFrom | frontend/src/lib/api/ste.ts:121 | JavaScript's `slice(start)`: a start within the string gives the suffix from it, one past the end gives "", and a negative one the last `-start` characters (all of them when `-start` exceeds the length). |
| SteApi.Extension | frontend/src/lib/api/ste.ts:120-121 | For a name with a dot, the extension starts at the last dot: it is a suffix of the lower-cased name, starts with '.' and holds no other dot. Without a dot, `lastIndexOf` gives -1 and the extension is the last character. |
| SteApi.IsValidFileType | frontend/src/lib/api/ste.ts:120-126 | A file passes iff its MIME type is allowed or its lower-cased name ends in an allowed extension. |
| SteApi.ExtensionAcceptedIffSuffix | frontend/src/lib/api/ste.ts:112-126 | The extension check accepts a name iff, ASCII case ignored, it ends in `.csv`, `.xlsx` or `.xls`. |
| SteApi.NoDotNeedsFileType | frontend/src/lib/api/ste.ts:121 | A name without a dot passes iff its MIME type is allowed. |
| SteApi.UploadSte | frontend/src/lib/api/ste.ts:128-144 | An invalid file fails with the format message before any request. A valid one is posted to `/api/admin/ste/upload`, with a bearer header iff a non-empty token is stored. |
| SteApi.SteListQuery | frontend/src/lib/api/ste.ts:40-58 | `q` only when the query is non-empty, only the first category id, and `limit` and `skip` always, defaulting to 100 and 0. No other name is sent. |
| SteApi.ServerReadsSteList | backend/app/main.py:253-258 | Round trip: `get_stes` reads back exactly the search text, first category, skip and limit the client sent. |
| SteApi.GetAllStes | frontend/src/lib/api/ste.ts:63-83 | Against a server that pages one list, it requests skip 0, 500, 1000 and so on, `len / 500 + 1` times. The result is the whole list in order. |
| SearchApi.SearchQuery | frontend/src/lib/api/search.ts:25-32 | `query` is always sent. `exact` only as "true" when set. `page` and `per_page` only when non-zero, as their decimals. `category_id` whenever given, 0 included. No other name is sent. |
| SearchApi.ServerReadsSearch | backend/app/main.py:516-522 | Round trip: `search_public` reads the client's arguments back. A page or page size of 0 becomes its default of 1 or 10. |
| AuthStore.IsTokenExpired | frontend/src/lib/stores/auth.ts:33-36 | A token without `exp` (or `exp` 0) never expires. Otherwise it is expired iff the whole seconds of `now` have reached `exp`. |
| AuthStore.ExpiryIsPermanent | frontend/src/lib/stores/auth.ts:33-36 | A token without `exp` never expires. An expired token stays expired later. |
| AuthStore.UserFromToken | frontend/src/lib/stores/auth.ts:38-48 | A user iff the token decodes and has not expired. The user is `{id: sub, login, isAdmin: is_admin}`. |
| AuthStore.RefusedStaysRefused | frontend/src/lib/stores/auth.ts:38-48 | A token refused now is refused at every later time. |
| AuthStore.SetToken | frontend/src/lib/stores/auth.ts:63-78 | Keeps and saves a token iff it is non-empty and yields a user, storing that user. Anything else clears store and storage. The loading flag is untouched. |
| AuthStore.SetLoading | frontend/src/lib/stores/auth.ts:79-81 | Changes only the loading flag. |
| AuthStore.Logout | frontend/src/lib/stores/auth.ts:82-85 | Clears token, user and storage, and ends loading. |
| AuthStore.Init | frontend/src/lib/stores/auth.ts:86-107 | Outside a browser nothing changes. In one, loading ends. A saved token is taken up iff it yields a user, else dropped. With nothing saved, token and user stay. |
| AuthStore.IsAuthenticated | frontend/src/lib/stores/auth.ts:112 | Authenticated iff a non-empty token is held. In a consistent store, iff there is a user. |
| AuthStore.IsAdmin | frontend/src/lib/stores/auth.ts:114 | Admin only with a user, and then iff the user's flag is set. In a consistent store an admin is authenticated. |
| AuthStore.AuthenticatedIffUser | frontend/src/lib/stores/auth.ts:112-114 | In a consistent store, authenticated iff there is a user. Admin implies authenticated. |
| AuthStore.RunKeepsInvariants | frontend/src/lib/stores/auth.ts:50-108 | Every sequence of transitions keeps "token present iff user present". Once the store and the saved token agree, they keep agreeing. |
| AuthStore.InitEstablishesAgreement | frontend/src/lib/stores/auth.ts:86-107 | `init` in a browser from the initial store makes store and saved token agree. |

## Left out

- Sentence embeddings and HDBSCAN internals: replaced by the `Labeler` oracle, which returns labels or a `RuntimeError` message. `FitsRows`, and `LabelerFits` for a run's loaded rows, demand that the labels it returns are one per title, each at least -1, as `fit_predict` guarantees.
- Exceptions from the clustering other than `RuntimeError` (e.g. a `ValueError` from HDBSCAN) are not caught by `run_ml_pipeline` and abort the request. The model does not represent them.
- Pipeline.RunMlPipeline: assumes the database does not enforce the foreign key from `stes.card_id` to `cards.id` (`models.py:35`), so writing a card id that names no card succeeds. The database configuration is not part of this model; an enforcing database would make such a write raise.
- CardMembership.DeleteCard: assumes the database does not enforce the foreign key from `feedbacks.card_id` to `cards.id` (`models.py:68`), so deleting a card that has feedback rows succeeds and leaves those rows in place. Feedback rows are not part of its state.
- SQL queries, sessions and commits, and pandas DataFrames: replaced by sequences and maps.
  - A commit is not modelled as a separate step.
  - The write is the whole changeset applied in order.
- Concurrency:
  - two overlapping runs;
  - concurrent first loads of the module-level model cache.
- Logging and the `HF_HOME` lookup in `ml_insert.py`.
- Spreadsheet reading and header normalisation in `main.py:80-98`.
- The `int(float(...))` coercion of the category id in `main.py:119-125`, which is a float parse. The category id is taken as given.
- Model-name cells holding floats, which print as "3296.0": numeric cells are modelled as integers.
- The `except` branch of the characteristics parser in `main.py:116-117`. It cannot be reached, since splitting and stripping a string never raise.
- The second `import_ste_file` in `main.py:168`. It is registered on the same path after the first, so the first one answers.
- The upsert assumes that a row inserted earlier in the same file is found by a later row with the same external id (SQLAlchemy autoflush). Such a later row counts as updated.
- The SQL branches of the list and search endpoints, which have `ILIKE` and exact filters and `offset/limit`. Only their page arithmetic is shared with the model.
- The plain CRUD endpoints, which copy request fields to rows:
  - create, read, update and delete of items;
  - read and update of cards;
  - the card-item relation check;
  - the rating history;
  - JSON upload.
- Card scores.
- Authentication: JWT signing and verification, password hashing, the default admin, CORS and routing.
- rapidfuzz's `token_set_ratio`: it is the `Scorer` parameter.
- `parseJwt`'s base64 and JSON decoding: it is the `Decoder` parameter.
- `Date.now()`: it is the `now` parameter.
- The Svelte store machinery: subscriptions and derived stores become plain functions of the state.
- Percent-encoding in `URLSearchParams.toString()`, `fetch`, response handling and `handleApiError`. A query string is its list of name/value pairs.
- JavaScript numbers are doubles; ids and counts are unbounded integers here.
- FuzzySearch.CalculateSimilarity: lower-cases ASCII letters only. Python's `str.lower` also folds non-ASCII letters such as Cyrillic.
- SteApi.ExtensionAcceptedIffSuffix: lower-cases ASCII letters only. JavaScript's `toLowerCase` also folds other letters and can change a string's length.
- SteApi.Extension: uses the same ASCII-only lower-casing, which keeps the name's length, so the last dot's index in the original name is also its index in the lowered one. JavaScript's `toLowerCase` turns 'İ' (U+0130) into two code units, which shifts that index: for "İ.csv" the source slices "\u0307.csv" and the model ".csv".
- SteApi.IsValidFileType: inherits the same gap. The model accepts "İ.csv" with a MIME type outside the allowed list, which the source rejects.
- SteApi.GetAllStes: the server is a fixed list cut by `skip` and `limit`. Not modelled:
  - a list that changes between requests;
  - a server that keeps returning full pages, against which the loop never ends;
  - a failing request.
- CardMembership.CreateCard: requires the new id to be fresh, which the database's auto-increment guarantees.

## Findings

| source | as written | input that shows it | evidently intended | confidence | as-written member | corrected member |
|---|---|---|---|---|---|---|
| backend/app/ml_insert.py:116 | Noise (-1) is replaced by 0, and card 0 is then stored as null (line 143). HDBSCAN's first cluster, label 0, is therefore stored as "no card" too. | Three items; the labels are [0, 0, -1]. All three end with no card. | Every cluster gets a card; only noise gets none. | high (not executed) | Pipeline.ClusterZeroIsStoredAsNoCard | Allocation.ClusterZeroGetsACard |
| backend/app/ml_insert.py:119 | The raw cluster label is written as the card id. | Item 1 is in card 1. Items 2 and 3 are re-aggregated with labels [1, 1]. Both land in card 1. | Each cluster of a run gets a card allocated for that run. | high (not executed) | Pipeline.RawLabelJoinsUnrelatedCard | Allocation.BoltsGetTheirOwnCard |
| backend/app/main.py:563 | The offset `(page - 1) * per_page` is negative for page < 1. Python slicing then counts from the end of the ranking. | 25 ranked ids, page=-1, per_page=10. The slice is `[-20:-10]`, which gives ids ranked 5 to 14. | A page below 1 is empty or rejected. | medium (not executed) | Pagination.NegativePageShowsMiddleOfRanking | Pagination.CheckedSearchPageIds |
