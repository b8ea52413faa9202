# DE-BIAS vocabulary page: term extraction and suggested-term resolution

The page loads the DE-BIAS vocabulary, a Turtle document, into an rdflib graph.
`extractTermConcepts` is meant to build one record per contentious term: an
`id`, the `dct:title` labels with their language tags, the list of languages,
the first `dct:description`, and the URIs of the suggested terms. `loadVocabulary`
then fetches every suggested URI into the same graph. It turns each raw record
into the record the table shows, replacing each suggested URI by display text.
That text is the first SKOS-XL `literalForm`, else the first `dct:title`, else
the URI's last path segment.

Line 68 as written throws as soon as the vocabulary has a term (see "## Findings").
The model keeps that behaviour apart, as `SubjectUrisAsWritten`. `SubjectUris`,
and through it `ExtractTermConcepts` and `LoadVocabulary`, follow the corrected
line 68, the one the comment at line 65 describes, and not the page as written.

This project models that logic as pure functions over an immutable list of
statements, and proves what each step promises:

- `Wrappers`: `Option` (JavaScript's `undefined`) and `Result` (a step that may
  throw, carrying the error's message).
- `Sequences`: `Dedup`, which is `[...new Set(xs)]` (duplicates collapse, first
  occurrences keep their order), and `Flatten`, which is `flatMap`.
- `Uris`: `Split`, `Join` and `LastSegment`, which are `split`, `join` and
  `uri.split("/").pop()`.
- `Rdf`: terms (`NamedNode`, `BlankNode`, `Literal` with its tag), statements,
  the store as a list in insertion order, and the queries the page uses. These
  are `Each` for `each(s, p, null)`, `Subjects` for `each(undefined, p, null)`
  and `Any` for `any(s, p, null)`. `MatchPositions` is a reference description
  of the statements a query sees; the lemmas tie each query to it.
- `Vocabulary`: the page's own logic. `SubjectUris` (lines 66-70, corrected),
  `ExtractConcept` and `ExtractTermConcepts` (64-89), `Resolve` (42-49),
  `UrisToFetch` (29-32), `FetchSuggested` (31-34), `Finalize` (37-50) and
  `LoadVocabulary` (20-62, without rendering).
- `Scenarios`: a concrete document. Term `foo` has the titles "Foo"@en and
  "Fuß"@de, the descriptions "A" then "B", and one suggested term `bar`. The
  lemmas compute its load in three cases: `bar`'s title is fetched, nothing is
  fetched, or the fetch is rejected.

I/O is a parameter of `LoadVocabulary`. `primary` is the outcome of loading the
main document. `fetchAll(uris)` is the combined outcome of loading the given
URIs: either the statements they added, or the rejection that `Promise.all`
reports. When there is nothing to fetch, `Promise.all([])` resolves at once, so
`fetchAll` is not consulted and nothing is added. Raw records come from the main
document alone. Suggested terms are resolved against the main document followed
by the fetched statements, because the code resolves them only after the
fetches.

The model follows the code in three places where a reader might expect
otherwise:

- A failed fetch of a suggested term fails the whole load. The `Promise.all` at
  script.js:31-34 sits inside the `try` whose `catch` shows the error. The URI
  tail is used only when the fetch succeeds but brings nothing about the term
  (`Scenarios.LoadWithNothingFetched` against `Scenarios.LoadWithFailedFetch`).
- Terms are selected only by `debias:hasContentiousTerm`, labels only by
  `dct:title`, and descriptions only by `dct:description`; the predicates are
  fixed in the code.
- `langs` is a list in order of first occurrence, not an unordered set.

## Model

| member | source | states |
|---|---|---|
| `Sequences.Dedup` | script.js:70 | `new Set` then spread: no duplicates, exactly the input's elements, in order of first occurrence |
| `Sequences.DedupOccursBefore` | script.js:70 | for any two kept elements, the earlier one occurs in the input before any occurrence of the later one |
| `Sequences.DedupCardinality` | script.js:70 | the deduplicated list is as long as the set of distinct input values |
| `Sequences.DedupConstant` | script.js:70 | a list whose elements are all `u` collapses to `[u]` |
| `Sequences.Flatten` | script.js:29-30 | `flatMap`: every element of every inner list is in the result |
| `Sequences.FlattenOrigin` | script.js:29-30 | every element of the flattened list comes from some inner list |
| `Uris.Split` | script.js:87 | `split(sep)`: at least one piece, and no piece contains the separator |
| `Uris.JoinSplit` | script.js:87 | joining the pieces with the separator gives the string back |
| `Uris.SplitJoin` | script.js:87 | splitting the join of separator-free pieces gives the pieces back |
| `Uris.LastSegment` | script.js:87 | `uri.split("/").pop()`; characterised by `LastSegmentSpec`, `LastSegmentNoSlash` and `LastSegmentAfterSlash` |
| `Uris.LastSegmentSpec` | script.js:87 | `split("/").pop()` is the suffix after the last `/`: it has no `/` and is either the whole URI or preceded by `/` |
| `Uris.LastSegmentNoSlash` | script.js:87 | a URI without `/` is its own id |
| `Uris.LastSegmentAfterSlash` | script.js:48 | the tail of `p + "/" + t`, where `t` has no `/`, is `t`, whatever `p` is |
| `Rdf.Each` | script.js:74 | `each(s, p, null)`; characterised against `MatchPositions` by `EachAtPositions`, and related to `any` by `AnyIsHeadOfEach` |
| `Rdf.Subjects` | script.js:67 | `each(undefined, p, null)`; characterised against `MatchPositions` by `SubjectsAtPositions` |
| `Rdf.Any` | script.js:79 | `any(s, p, null)`; characterised by `AnyFindsMatch`, `AnyIsFirstMatch`, `AnyIsHeadOfEach` and `AnyAppend` |
| `Rdf.MatchPositions` | script.js:74 | the matching positions are ascending, all match the pattern, and include every matching statement |
| `Rdf.EachAtPositions` | script.js:74 | `each(s, p, null)` has one entry per matching statement, in store order: the k-th is the object of the k-th match |
| `Rdf.SubjectsAtPositions` | script.js:66-67 | `each(undefined, p, null)` has one entry per matching statement, in store order: the k-th is the subject of the k-th match |
| `Rdf.AnyFindsMatch` | script.js:79-80 | `any` finds nothing exactly when no statement matches |
| `Rdf.AnyIsFirstMatch` | script.js:79 | `any` returns the object of the first matching statement |
| `Rdf.AnyIsHeadOfEach` | script.js:45-47 | `any` is the first element of `each`, or nothing when `each` is empty |
| `Rdf.AnyAppend` | script.js:31-34 | statements added after a first match do not change what `any` finds |
| `Vocabulary.SubjectUris` | script.js:66-70 | the term URIs of the corrected line 68; characterised by `SubjectUrisSpec` |
| `Vocabulary.SubjectUrisAsWritten` | script.js:66-68 | line 68 as written: it fails as soon as there is a term; characterised by `AsWrittenFailsWhereTermsExist` |
| `Vocabulary.TermSubjectValuesAt` | script.js:66-68 | the k-th subject value comes from the k-th `hasContentiousTerm` statement |
| `Vocabulary.TermSubjectValuesMembers` | script.js:66-68 | a value is among the subject values exactly when some `hasContentiousTerm` statement has that subject value |
| `Vocabulary.TermSubjectValuesOrder` | script.js:66-68 | an order between subject values is an order between their statements in the store |
| `Vocabulary.SubjectUrisSpec` | script.js:66-70 | the term URIs are exactly the distinct subject values of `hasContentiousTerm` statements, with no duplicates, ordered by first statement |
| `Vocabulary.TermCount` | script.js:70 | there are exactly as many records as distinct subject values |
| `Vocabulary.DuplicateTermStatementsCollapse` | script.js:66-70 | several `hasContentiousTerm` statements on one subject make exactly one record |
| `Vocabulary.AsWrittenFailsWhereTermsExist` | script.js:66-68 | as written, the subject list throws on every store that has a term, where the intended list is non-empty |
| `Vocabulary.Tags` | script.js:76 | `labels.map(l => l.lang).filter(Boolean)`; characterised by `TagsMembers` and `TagsOrder` |
| `Vocabulary.Langs` | script.js:76 | the `langs` field; characterised by `LangsSpec` |
| `Vocabulary.ExtractConcept` | script.js:71-87 | the raw record of one term URI; characterised field by field by `ConceptLabels`, `ConceptLangs`, `ConceptDescription` and `ConceptSuggestedUris` |
| `Vocabulary.ExtractTermConcepts` | script.js:64-89 | one raw record per term URI, in order; characterised by `TermCount` and `DuplicateTermStatementsCollapse`, and through `SubjectUrisSpec` |
| `Vocabulary.TagsMembers` | script.js:76 | `map(l => l.lang).filter(Boolean)` keeps exactly the present, non-empty tags |
| `Vocabulary.TagsOrder` | script.js:76 | the filtered tags keep the order of the labels they come from |
| `Vocabulary.LangsSpec` | script.js:76 | `langs` has each non-empty tag of the labels once, never `""` or an absent tag, ordered by the first label that carries it |
| `Vocabulary.ConceptLabels` | script.js:74-75 | one label per `dct:title` statement on the subject, in store order, with that object's value and tag unchanged |
| `Vocabulary.ConceptLangs` | script.js:74-76 | a record's `langs` are exactly the non-empty tags of its literal titles, without duplicates |
| `Vocabulary.ConceptDescription` | script.js:79-80 | the description is the first `dct:description` object's value, or `""` when there is none |
| `Vocabulary.ConceptSuggestedUris` | script.js:83-85 | one suggested URI per `hasSuggestedTerm` statement, in store order, not deduplicated |
| `Vocabulary.Resolve` | script.js:42-49 | the display text of one suggested URI; characterised by `ResolvePrefersLiteralForm`, `ResolveFallsBackToTitle`, `ResolveFallsBackToSegment`, `ResolveUnknown` and `ResolveKeepsLiteralForm` |
| `Vocabulary.ResolvePrefersLiteralForm` | script.js:45-46 | when a literal form exists, the first one is shown, whatever titles exist |
| `Vocabulary.ResolveFallsBackToTitle` | script.js:47-48 | with no literal form, the first title is shown |
| `Vocabulary.ResolveFallsBackToSegment` | script.js:48 | with neither a literal form nor a title, the URI's last segment is shown |
| `Vocabulary.ResolveUnknown` | script.js:42-48 | a URI that is the subject of no statement resolves to its last segment |
| `Vocabulary.ResolveKeepsLiteralForm` | script.js:42-46 | later fetched statements cannot displace a literal form the store already holds |
| `Vocabulary.UrisToFetch` | script.js:29-32 | the deduplicated list of all suggested URIs; characterised by `UrisToFetchSpec` |
| `Vocabulary.UrisToFetchSpec` | script.js:29-32 | the URIs to fetch have no duplicates, include every suggested URI of every record, and include nothing else |
| `Vocabulary.FetchSuggested` | script.js:31-34 | `Promise.all` over the loads: with nothing to fetch it succeeds and adds nothing; used by `LoadVocabularyFailures` and `NoSuggestionsNeverFail` |
| `Vocabulary.Finalize` | script.js:37-50 | one final record; characterised through `LoadVocabularyRecords` |
| `Vocabulary.LoadVocabulary` | script.js:20-62 | the whole load without rendering; characterised by `LoadVocabularyFailures`, `NoSuggestionsNeverFail` and `LoadVocabularyRecords` |
| `Vocabulary.LoadVocabularyFailures` | script.js:20-34 | a failed main load or a rejected fetch fails the whole load with its message, and the load succeeds only when both succeed |
| `Vocabulary.NoSuggestionsNeverFail` | script.js:29-34 | when no record has a suggested term, nothing is fetched and the load succeeds whatever the fetcher would do, with every record final as extracted and no suggested terms |
| `Vocabulary.LoadVocabularyRecords` | script.js:37-50 | one final record per raw record, in order, copying id, labels, langs and description; `suggested` has the same length as `suggestedUris` and resolves each URI in turn against everything loaded |
| `Scenarios.ExtractFoo` | script.js:64-89 | the sample document yields exactly one record: id `foo`, both labels, langs `en`, `de`, description "A" (the first), suggested `[bar]` |
| `Scenarios.FetchBar` | script.js:29-32 | for that record only `bar` is fetched |
| `Scenarios.LoadWithFetchedTitle` | script.js:37-50 | when `bar`'s title is fetched, the suggested term shows "Bar" |
| `Scenarios.LoadWithNothingFetched` | script.js:45-48 | when the fetch succeeds but adds nothing, the suggested term shows "bar", the URI tail |
| `Scenarios.LoadWithFailedFetch` | script.js:31-34 | a rejected fetch fails the whole load |
| `Scenarios.LiteralFormBeatsTitle` | script.js:45-47 | a literal form wins over a different title |
| `Scenarios.EmptyTagDropped` | script.js:76 | tags `en`, `de` and `""` give the languages `en`, `de` |
| `Scenarios.AsWrittenFailsOnDoc` | script.js:66-68 | as written, the subject list throws on the sample document, where the intended list is `[foo]` |

## Left out

- Fetching and parsing: `fetcher.load`, Turtle parsing and resolving the
  document URL against `window.location` (script.js:4-16, 23, 31-34) are
  network I/O and foreign library code. Their outcomes are the parameters of
  `LoadVocabulary`. The order in which concurrent fetches add statements is
  whatever order the `fetchAll` parameter gives.
- `$rdf.sym(uri)` rejects a value that is not an absolute IRI. That check
  belongs to the library, so the model takes every value as a named node.
- The library may refuse to add a statement identical to one it already holds.
  The model takes the store's list as given, and every property above holds for
  any list.
- `renderTable`, `renderMetadata`, the DataTables activation and the `catch`
  branch's message in the page (script.js:53-61, 91-116) are DOM output. The
  `catch` is modelled only as the `Failure` that `LoadVocabulary` returns.

## Findings

| source | as written | input that shows it | evidently intended | confidence | as-written member | corrected member |
|---|---|---|---|---|---|---|
| script.js:66-68 | `each(undefined, p, null)` returns the matching subject terms, not statements. A term has no `subject` member, so `st.subject.value` throws a TypeError, and the `catch` shows "Failed to load vocabulary" with the engine's message (V8's wording in the model) | a store holding the one statement `<http://ex/terms/foo> debias:hasContentiousTerm <http://ex/ct/1>` | the values of the subjects of the `hasContentiousTerm` statements, as the comment at line 65 says | medium, not executed; it rests on rdflib's `each` returning the terms at the wildcard position | `Vocabulary.SubjectUrisAsWritten`, shown by `Vocabulary.AsWrittenFailsWhereTermsExist` and `Scenarios.AsWrittenFailsOnDoc` | `Vocabulary.SubjectUris`, proved in `Vocabulary.SubjectUrisSpec` and used by `ExtractTermConcepts` |
