/**
 * The vocabulary page's extraction of term records from the loaded graph and
 * the resolution of every suggested term to display text.
 *
 * `ExtractTermConcepts` builds one raw record per contentious term;
 * `LoadVocabulary` loads the main document, extracts the raw records, fetches
 * every suggested term, and turns each raw record into a final one whose
 * suggested terms are display strings.
 */
module Vocabulary {
  import opened Wrappers
  import opened Sequences
  import opened Uris
  import opened Rdf

  // The predicates the page reads, in the namespaces it declares.
  const DctTitle := NamedNode("http://purl.org/dc/terms/title")
  const DctDescription := NamedNode("http://purl.org/dc/terms/description")
  const SkosXlLiteralForm := NamedNode("http://www.w3.org/2008/05/skos-xl#literalForm")
  const HasContentiousTerm := NamedNode("http://data.europa.eu/c4p/ontology#hasContentiousTerm")
  const HasSuggestedTerm := NamedNode("http://data.europa.eu/c4p/ontology#hasSuggestedTerm")

  /** One `dct:title` of a term: its text and its `lang` (absent on a non-literal). */
  datatype Label = Label(value: string, lang: Option<string>)

  /** The record `extractTermConcepts` builds for one term. */
  datatype RawConcept = RawConcept(
    id: string,
    labels: seq<Label>,
    langs: seq<string>,
    description: string,
    suggestedUris: seq<string>)

  /** The record the table is rendered from: the raw record with suggested terms resolved. */
  datatype Concept = Concept(
    id: string,
    labels: seq<Label>,
    langs: seq<string>,
    description: string,
    suggested: seq<string>)

  /** `terms.map(t => t.value)` */
  function Values(ts: seq<Term>): seq<string> {
    seq(|ts|, k requires 0 <= k < |ts| => Value(ts[k]))
  }

  // ---------------------------------------------------------------------------
  // Which subjects become terms

  /** The statement links the subject whose value is `u` to a contentious term. */
  predicate NamesTerm(st: Triple, u: string) {
    st.pred == HasContentiousTerm && Value(st.subj) == u
  }

  /**
   * The URIs of the terms: the values of the subjects of the `hasContentiousTerm`
   * statements, each once, in the order of their first statement.
   */
  function SubjectUris(store: Store): seq<string> {
    Dedup(Values(Subjects(store, HasContentiousTerm)))
  }

  /**
   * Line 68 as it is written: `each(undefined, p, null)` gives the subject
   * terms themselves, which have no `subject` member, so `st.subject.value`
   * throws as soon as there is one of them. The failure carries the
   * `err.message` the page shows; its text is the one V8 gives, and other
   * JavaScript engines word it differently.
   */
  function SubjectUrisAsWritten(store: Store): Result<seq<string>> {
    var nodes := Subjects(store, HasContentiousTerm);
    if nodes == [] then Success([])
    else Failure("Cannot read properties of undefined (reading 'value')")
  }

  /** The subject values of the `hasContentiousTerm` statements, in store order. */
  function TermSubjectValues(store: Store): seq<string> {
    Values(Subjects(store, HasContentiousTerm))
  }

  /** The k-th subject value belongs to the k-th `hasContentiousTerm` statement. */
  lemma TermSubjectValuesAt(store: Store)
    ensures var vals, ps := TermSubjectValues(store), MatchPositions(store, None, HasContentiousTerm);
      && |vals| == |ps|
      && forall k :: 0 <= k < |ps| ==> NamesTerm(store[ps[k]], vals[k])
  {
    SubjectsAtPositions(store, HasContentiousTerm);
  }

  /** A value is a subject value exactly when some `hasContentiousTerm` statement has it. */
  lemma TermSubjectValuesMembers(store: Store)
    ensures forall u :: u in TermSubjectValues(store) <==> exists a :: 0 <= a < |store| && NamesTerm(store[a], u)
  {
    var vals := TermSubjectValues(store);
    var ps := MatchPositions(store, None, HasContentiousTerm);
    TermSubjectValuesAt(store);
    forall u ensures u in vals <==> exists a :: 0 <= a < |store| && NamesTerm(store[a], u) {
      if u in vals {
        var k :| 0 <= k < |vals| && vals[k] == u;
        assert NamesTerm(store[ps[k]], u);
      }
      if exists a :: 0 <= a < |store| && NamesTerm(store[a], u) {
        var a :| 0 <= a < |store| && NamesTerm(store[a], u);
        assert Matches(store[a], None, HasContentiousTerm);
        var k :| 0 <= k < |ps| && ps[k] == a;
        assert vals[k] == u;
      }
    }
  }

  /** An occurrence order among subject values is an order among their statements. */
  lemma TermSubjectValuesOrder(store: Store, x: string, y: string)
    requires OccursBefore(TermSubjectValues(store), x, y)
    ensures exists a :: (0 <= a < |store| && NamesTerm(store[a], x)
      && forall b :: 0 <= b <= a ==> !NamesTerm(store[b], y))
  {
    var vals := TermSubjectValues(store);
    var ps := MatchPositions(store, None, HasContentiousTerm);
    TermSubjectValuesAt(store);
    var a' :| 0 <= a' < |vals| && vals[a'] == x && forall b :: 0 <= b <= a' ==> vals[b] != y;
    var a := ps[a'];
    assert forall b :: 0 <= b <= a && NamesTerm(store[b], y) ==> Matches(store[b], None, HasContentiousTerm);
    assert forall b :: 0 <= b <= a ==> !NamesTerm(store[b], y);
    assert NamesTerm(store[a], x);
  }

  /**
   * The term URIs are exactly the subject values of the `hasContentiousTerm`
   * statements, without duplicates, ordered by their first statement.
   */
  lemma SubjectUrisSpec(store: Store)
    ensures var uris := SubjectUris(store);
      && NoDup(uris)
      && (forall u :: u in uris <==> exists a :: 0 <= a < |store| && NamesTerm(store[a], u))
      && (forall i, j :: 0 <= i < j < |uris| ==>
            exists a :: (0 <= a < |store| && NamesTerm(store[a], uris[i])
              && forall b :: 0 <= b <= a ==> !NamesTerm(store[b], uris[j])))
  {
    var uris := SubjectUris(store);
    var vals := TermSubjectValues(store);
    TermSubjectValuesMembers(store);
    DedupMembers(vals);
    forall i, j | 0 <= i < j < |uris|
      ensures exists a :: (0 <= a < |store| && NamesTerm(store[a], uris[i])
        && forall b :: 0 <= b <= a ==> !NamesTerm(store[b], uris[j]))
    {
      DedupOccursBefore(vals, i, j);
      TermSubjectValuesOrder(store, uris[i], uris[j]);
    }
  }

  /** One record per distinct subject: as many terms as distinct subject values. */
  lemma TermCount(store: Store)
    ensures |ExtractTermConcepts(store)| ==
      |set a | 0 <= a < |store| && store[a].pred == HasContentiousTerm :: Value(store[a].subj)|
  {
    var vals := TermSubjectValues(store);
    TermSubjectValuesMembers(store);
    DedupCardinality(vals);
    var named := set a | 0 <= a < |store| && store[a].pred == HasContentiousTerm :: Value(store[a].subj);
    assert (set x | x in vals) == named by {
      forall x | x in vals ensures x in named {
        var a :| 0 <= a < |store| && NamesTerm(store[a], x);
      }
      forall x | x in named ensures x in vals {
        var a :| 0 <= a < |store| && store[a].pred == HasContentiousTerm && Value(store[a].subj) == x;
        assert NamesTerm(store[a], x);
      }
    }
  }

  /** Several `hasContentiousTerm` statements on one subject still make one record. */
  lemma DuplicateTermStatementsCollapse(store: Store, u: string)
    requires exists a :: 0 <= a < |store| && NamesTerm(store[a], u)
    requires forall a :: 0 <= a < |store| && store[a].pred == HasContentiousTerm ==> Value(store[a].subj) == u
    ensures ExtractTermConcepts(store) == [ExtractConcept(store, u)]
  {
    var vals := TermSubjectValues(store);
    var ps := MatchPositions(store, None, HasContentiousTerm);
    TermSubjectValuesAt(store);
    TermSubjectValuesMembers(store);
    DedupConstant(vals, u);
  }

  /** The as-written line 68 fails on every store that has a term, where the intended list is not empty. */
  lemma AsWrittenFailsWhereTermsExist(store: Store)
    requires exists a :: 0 <= a < |store| && store[a].pred == HasContentiousTerm
    ensures SubjectUrisAsWritten(store).Failure?
    ensures |SubjectUris(store)| >= 1
  {
    var a :| 0 <= a < |store| && store[a].pred == HasContentiousTerm;
    SubjectUrisSpec(store);
    TermSubjectValuesMembers(store);
    assert NamesTerm(store[a], Value(store[a].subj));
    assert Value(store[a].subj) in TermSubjectValues(store);
    assert |Subjects(store, HasContentiousTerm)| == |TermSubjectValues(store)| > 0;
  }

  // ---------------------------------------------------------------------------
  // One term's record

  /** `labels.map(l => l.lang).filter(Boolean)`: the tags that are present and not empty. */
  function Tags(labels: seq<Label>): seq<string> {
    if labels == [] then []
    else
      var l := labels[0];
      (if l.lang.Some? && l.lang.value != "" then [l.lang.value] else []) + Tags(labels[1..])
  }

  /** `[...new Set(Tags(labels))]`: each language tag once. */
  function Langs(labels: seq<Label>): seq<string> {
    Dedup(Tags(labels))
  }

  /** The tags are exactly the non-empty `lang`s of the labels. */
  lemma {:induction false} TagsMembers(labels: seq<Label>)
    ensures forall x :: x in Tags(labels) <==> x != "" && exists k :: 0 <= k < |labels| && labels[k].lang == Some(x)
  {
    if labels != [] {
      TagsMembers(labels[1..]);
      assert forall k :: 1 <= k < |labels| ==> labels[k] == labels[1..][k - 1];
    }
  }

  /** The tags keep the order of the labels they come from. */
  lemma {:induction false} TagsOrder(labels: seq<Label>, x: string, y: string)
    requires OccursBefore(Tags(labels), x, y) && y != ""
    ensures exists a :: (0 <= a < |labels| && labels[a].lang == Some(x)
      && forall b :: 0 <= b <= a ==> labels[b].lang != Some(y))
  {
    var tags := Tags(labels);
    var a' :| 0 <= a' < |tags| && tags[a'] == x && forall b :: 0 <= b <= a' ==> tags[b] != y;
    var l := labels[0];
    var head := if l.lang.Some? && l.lang.value != "" then [l.lang.value] else [];
    var rest := labels[1..];
    assert tags == head + Tags(rest);
    if head != [] && a' == 0 {
      assert labels[0].lang == Some(x);
    } else {
      var off := |head|;
      assert Tags(rest)[a' - off] == x;
      assert OccursBefore(Tags(rest), x, y) by {
        assert forall b :: 0 <= b <= a' - off ==> Tags(rest)[b] != y by {
          forall b | 0 <= b <= a' - off ensures Tags(rest)[b] != y {
            assert Tags(rest)[b] == tags[b + off];
          }
        }
      }
      TagsOrder(rest, x, y);
      var a :| 0 <= a < |rest| && rest[a].lang == Some(x) && forall b :: 0 <= b <= a ==> rest[b].lang != Some(y);
      assert labels[0].lang != Some(y) by {
        if off == 0 {
          assert !(labels[0].lang.Some? && labels[0].lang.value != "");
        } else {
          assert tags[0] != y;
        }
      }
      assert labels[a + 1].lang == Some(x);
      assert forall b :: 1 <= b <= a + 1 ==> labels[b] == rest[b - 1];
    }
  }

  /**
   * The language list holds each non-empty tag of the labels once, never an
   * empty or absent one, ordered by the first label that carries it.
   */
  lemma LangsSpec(labels: seq<Label>)
    ensures var langs := Langs(labels);
      && NoDup(langs)
      && "" !in langs
      && (forall x :: x in langs <==> x != "" && exists k :: 0 <= k < |labels| && labels[k].lang == Some(x))
      && (forall i, j :: 0 <= i < j < |langs| ==>
            exists a :: (0 <= a < |labels| && labels[a].lang == Some(langs[i])
              && forall b :: 0 <= b <= a ==> labels[b].lang != Some(langs[j])))
  {
    var langs := Langs(labels);
    var tags := Tags(labels);
    TagsMembers(labels);
    DedupMembers(tags);
    forall i, j | 0 <= i < j < |langs|
      ensures exists a :: (0 <= a < |labels| && labels[a].lang == Some(langs[i])
        && forall b :: 0 <= b <= a ==> labels[b].lang != Some(langs[j]))
    {
      DedupOccursBefore(tags, i, j);
      TagsOrder(labels, langs[i], langs[j]);
    }
  }

  /** The label of one `dct:title` object. */
  function LabelOf(t: Term): Label {
    Label(Value(t), Lang(t))
  }

  /** The record of the term whose URI is `uri`; the store is queried at the named node `$rdf.sym(uri)`. */
  function ExtractConcept(store: Store, uri: string): RawConcept {
    var node := NamedNode(uri);
    var titles := Each(store, node, DctTitle);
    var labels := seq(|titles|, k requires 0 <= k < |titles| => LabelOf(titles[k]));
    var description := match Any(store, node, DctDescription)
      case Some(d) => Value(d)
      case None => "";
    RawConcept(LastSegment(uri), labels, Langs(labels), description,
               Values(Each(store, node, HasSuggestedTerm)))
  }

  /** `extractTermConcepts(store)`: one record per term URI, in the order of `SubjectUris`. */
  function ExtractTermConcepts(store: Store): seq<RawConcept> {
    var uris := SubjectUris(store);
    seq(|uris|, k requires 0 <= k < |uris| => ExtractConcept(store, uris[k]))
  }

  /** The labels are the term's `dct:title` statements, one each, in store order, value and tag unchanged. */
  lemma ConceptLabels(store: Store, uri: string)
    ensures var labels, ps := ExtractConcept(store, uri).labels, MatchPositions(store, Some(NamedNode(uri)), DctTitle);
      && |labels| == |ps|
      && forall k :: 0 <= k < |ps| ==>
           labels[k] == Label(Value(store[ps[k]].obj), Lang(store[ps[k]].obj))
  {
    EachAtPositions(store, NamedNode(uri), DctTitle);
  }

  /** The language list of a record holds exactly the non-empty tags of its literal titles. */
  lemma ConceptLangs(store: Store, uri: string)
    ensures var langs := ExtractConcept(store, uri).langs;
      && NoDup(langs) && "" !in langs
      && forall x :: x in langs <==>
           x != "" && exists a :: 0 <= a < |store| && Matches(store[a], Some(NamedNode(uri)), DctTitle)
                                 && Lang(store[a].obj) == Some(x)
  {
    var c := ExtractConcept(store, uri);
    var ps := MatchPositions(store, Some(NamedNode(uri)), DctTitle);
    ConceptLabels(store, uri);
    LangsSpec(c.labels);
    forall x ensures x in c.langs <==>
      x != "" && exists a :: 0 <= a < |store| && Matches(store[a], Some(NamedNode(uri)), DctTitle)
                            && Lang(store[a].obj) == Some(x)
    {
      if x in c.langs {
        var k :| 0 <= k < |c.labels| && c.labels[k].lang == Some(x);
        assert Lang(store[ps[k]].obj) == Some(x);
      }
      if x != "" && exists a :: 0 <= a < |store| && Matches(store[a], Some(NamedNode(uri)), DctTitle)
                               && Lang(store[a].obj) == Some(x) {
        var a :| 0 <= a < |store| && Matches(store[a], Some(NamedNode(uri)), DctTitle)
                 && Lang(store[a].obj) == Some(x);
        var k :| 0 <= k < |ps| && ps[k] == a;
        assert c.labels[k].lang == Some(x);
      }
    }
  }

  /** The description is the text of the first `dct:description`, or `""` when there is none. */
  lemma ConceptDescription(store: Store, uri: string)
    ensures var d, node := ExtractConcept(store, uri).description, NamedNode(uri);
      && ((forall a :: 0 <= a < |store| ==> !Matches(store[a], Some(node), DctDescription)) ==> d == "")
      && forall a :: 0 <= a < |store| && Matches(store[a], Some(node), DctDescription)
                     && (forall b :: 0 <= b < a ==> !Matches(store[b], Some(node), DctDescription))
                     ==> d == Value(store[a].obj)
  {
    var node := NamedNode(uri);
    AnyFindsMatch(store, node, DctDescription);
    forall a | 0 <= a < |store| && Matches(store[a], Some(node), DctDescription)
               && (forall b :: 0 <= b < a ==> !Matches(store[b], Some(node), DctDescription))
      ensures ExtractConcept(store, uri).description == Value(store[a].obj)
    {
      AnyIsFirstMatch(store, node, DctDescription, a);
    }
  }

  /** The suggested URIs are the values of the term's `hasSuggestedTerm` objects, one per statement, in store order. */
  lemma ConceptSuggestedUris(store: Store, uri: string)
    ensures var sug, ps := ExtractConcept(store, uri).suggestedUris, MatchPositions(store, Some(NamedNode(uri)), HasSuggestedTerm);
      && |sug| == |ps|
      && forall k :: 0 <= k < |ps| ==> sug[k] == Value(store[ps[k]].obj)
  {
    EachAtPositions(store, NamedNode(uri), HasSuggestedTerm);
  }

  // ---------------------------------------------------------------------------
  // Resolving suggested terms

  /**
   * The display text of a suggested term: its first SKOS-XL literal form,
   * else its first `dct:title`, else the last segment of its URI.
   */
  function Resolve(store: Store, uri: string): string {
    var node := NamedNode(uri);
    match Any(store, node, SkosXlLiteralForm)
    case Some(lf) => Value(lf)
    case None =>
      match Any(store, node, DctTitle)
      case Some(tl) => Value(tl)
      case None => LastSegment(uri)
  }

  /** A literal form wins: the first one is used, whatever titles there are. */
  lemma ResolvePrefersLiteralForm(store: Store, uri: string, a: nat)
    requires a < |store| && Matches(store[a], Some(NamedNode(uri)), SkosXlLiteralForm)
    requires forall b :: 0 <= b < a ==> !Matches(store[b], Some(NamedNode(uri)), SkosXlLiteralForm)
    ensures Resolve(store, uri) == Value(store[a].obj)
  {
    AnyIsFirstMatch(store, NamedNode(uri), SkosXlLiteralForm, a);
  }

  /** Without a literal form, the first title is used. */
  lemma ResolveFallsBackToTitle(store: Store, uri: string, a: nat)
    requires forall b :: 0 <= b < |store| ==> !Matches(store[b], Some(NamedNode(uri)), SkosXlLiteralForm)
    requires a < |store| && Matches(store[a], Some(NamedNode(uri)), DctTitle)
    requires forall b :: 0 <= b < a ==> !Matches(store[b], Some(NamedNode(uri)), DctTitle)
    ensures Resolve(store, uri) == Value(store[a].obj)
  {
    AnyFindsMatch(store, NamedNode(uri), SkosXlLiteralForm);
    AnyIsFirstMatch(store, NamedNode(uri), DctTitle, a);
  }

  /** Without a literal form and without a title, the last segment of the URI is used. */
  lemma ResolveFallsBackToSegment(store: Store, uri: string)
    requires forall b :: 0 <= b < |store| ==> !Matches(store[b], Some(NamedNode(uri)), SkosXlLiteralForm)
    requires forall b :: 0 <= b < |store| ==> !Matches(store[b], Some(NamedNode(uri)), DctTitle)
    ensures Resolve(store, uri) == LastSegment(uri)
  {
    AnyFindsMatch(store, NamedNode(uri), SkosXlLiteralForm);
    AnyFindsMatch(store, NamedNode(uri), DctTitle);
  }

  /** A URI the store knows nothing about resolves to its last segment. */
  lemma ResolveUnknown(store: Store, uri: string)
    requires forall b :: 0 <= b < |store| ==> store[b].subj != NamedNode(uri)
    ensures Resolve(store, uri) == LastSegment(uri)
  {
    ResolveFallsBackToSegment(store, uri);
  }

  /** Statements fetched later cannot displace a literal form the store already had. */
  lemma ResolveKeepsLiteralForm(store: Store, more: Store, uri: string)
    requires Any(store, NamedNode(uri), SkosXlLiteralForm).Some?
    ensures Resolve(store + more, uri) == Resolve(store, uri)
  {
    AnyAppend(store, more, NamedNode(uri), SkosXlLiteralForm);
  }

  // ---------------------------------------------------------------------------
  // Loading

  /** `[...new Set(rawConcepts.flatMap(c => c.suggestedUris))]`: every suggested URI, once. */
  function UrisToFetch(raw: seq<RawConcept>): seq<string> {
    Dedup(Flatten(seq(|raw|, k requires 0 <= k < |raw| => raw[k].suggestedUris)))
  }

  /** Every suggested URI of every record is fetched, once, and nothing else is. */
  lemma UrisToFetchSpec(raw: seq<RawConcept>)
    ensures var uris := UrisToFetch(raw);
      && NoDup(uris)
      && (forall k, j :: 0 <= k < |raw| && 0 <= j < |raw[k].suggestedUris| ==> raw[k].suggestedUris[j] in uris)
      && (forall i :: 0 <= i < |uris| ==>
            exists k, j :: 0 <= k < |raw| && 0 <= j < |raw[k].suggestedUris| && raw[k].suggestedUris[j] == uris[i])
  {
    var lists := seq(|raw|, k requires 0 <= k < |raw| => raw[k].suggestedUris);
    var all := Flatten(lists);
    var uris := UrisToFetch(raw);
    forall i | 0 <= i < |uris|
      ensures exists k, j :: 0 <= k < |raw| && 0 <= j < |raw[k].suggestedUris| && raw[k].suggestedUris[j] == uris[i]
    {
      var m :| 0 <= m < |all| && all[m] == uris[i];
      FlattenOrigin(lists, m);
      var k, j :| 0 <= k < |lists| && 0 <= j < |lists[k]| && lists[k][j] == all[m];
      assert raw[k].suggestedUris[j] == uris[i];
    }
    forall k, j | 0 <= k < |raw| && 0 <= j < |raw[k].suggestedUris|
      ensures raw[k].suggestedUris[j] in uris
    {
      assert lists[k][j] in all;
    }
  }

  /** The final record: the raw one with each suggested URI resolved against `store`. */
  function Finalize(store: Store, c: RawConcept): Concept {
    Concept(c.id, c.labels, c.langs, c.description,
            seq(|c.suggestedUris|, j requires 0 <= j < |c.suggestedUris| => Resolve(store, c.suggestedUris[j])))
  }

  /**
   * `Promise.all(uris.map(uri => fetcher.load(uri)))`: `fetchAll(uris)` is the
   * combined outcome of loading every URI in `uris`, the statements they added
   * or the first rejection. With nothing to load, `Promise.all([])` resolves at
   * once and adds nothing.
   */
  function FetchSuggested(uris: seq<string>, fetchAll: seq<string> -> Result<Store>): Result<Store> {
    if uris == [] then Success([]) else fetchAll(uris)
  }

  /**
   * `loadVocabulary`: `primary` is the outcome of loading the main document
   * into the empty store. Raw records are taken from the main document alone;
   * suggested terms are resolved against everything loaded.
   */
  function LoadVocabulary(primary: Result<Store>, fetchAll: seq<string> -> Result<Store>): Result<seq<Concept>> {
    match primary
    case Failure(msg) => Failure(msg)
    case Success(doc) =>
      var raw := ExtractTermConcepts(doc);
      match FetchSuggested(UrisToFetch(raw), fetchAll)
      case Failure(msg) => Failure(msg)
      case Success(fetched) =>
        var store := doc + fetched;
        Success(seq(|raw|, k requires 0 <= k < |raw| => Finalize(store, raw[k])))
  }

  /**
   * A failure of the main document, or a rejected fetch of the suggested terms,
   * fails the whole load with its message; the load succeeds exactly when
   * neither fails.
   */
  lemma LoadVocabularyFailures(primary: Result<Store>, fetchAll: seq<string> -> Result<Store>)
    ensures primary.Failure? ==> LoadVocabulary(primary, fetchAll) == Failure(primary.message)
    ensures primary.Success? && FetchSuggested(UrisToFetch(ExtractTermConcepts(primary.value)), fetchAll).Failure? ==>
      LoadVocabulary(primary, fetchAll) == Failure(FetchSuggested(UrisToFetch(ExtractTermConcepts(primary.value)), fetchAll).message)
    ensures LoadVocabulary(primary, fetchAll).Success? <==>
      primary.Success? && FetchSuggested(UrisToFetch(ExtractTermConcepts(primary.value)), fetchAll).Success?
  {
  }

  /**
   * A document none of whose terms has a suggested term never fails at the
   * fetch step: nothing is fetched, and every record is final as extracted,
   * whatever the fetcher would have done.
   */
  lemma NoSuggestionsNeverFail(doc: Store, fetchAll: seq<string> -> Result<Store>)
    requires forall k :: 0 <= k < |ExtractTermConcepts(doc)| ==> ExtractTermConcepts(doc)[k].suggestedUris == []
    ensures var raw, out := ExtractTermConcepts(doc), LoadVocabulary(Success(doc), fetchAll);
      && UrisToFetch(raw) == []
      && out.Success? && |out.value| == |raw|
      && forall k :: 0 <= k < |raw| ==>
           out.value[k] == Concept(raw[k].id, raw[k].labels, raw[k].langs, raw[k].description, [])
  {
    var raw := ExtractTermConcepts(doc);
    var uris := UrisToFetch(raw);
    UrisToFetchSpec(raw);
    // no index of `uris` is valid: its URI would come from an empty suggestion list
    assert forall i :: 0 <= i < |uris| ==> uris[i] !in uris;
  }

  /**
   * On success there is one final record per raw record, in order; it copies
   * id, labels, langs and description and resolves each suggested URI in turn
   * against the main document followed by the fetched statements.
   */
  lemma LoadVocabularyRecords(doc: Store, fetchAll: seq<string> -> Result<Store>)
    requires FetchSuggested(UrisToFetch(ExtractTermConcepts(doc)), fetchAll).Success?
    ensures var raw, fetched := ExtractTermConcepts(doc), FetchSuggested(UrisToFetch(ExtractTermConcepts(doc)), fetchAll).value;
      var out := LoadVocabulary(Success(doc), fetchAll);
      && out.Success? && |out.value| == |raw|
      && forall k :: 0 <= k < |raw| ==>
           var c, r := out.value[k], raw[k];
           && c.id == r.id && c.labels == r.labels && c.langs == r.langs && c.description == r.description
           && |c.suggested| == |r.suggestedUris|
           && forall j :: 0 <= j < |r.suggestedUris| ==> c.suggested[j] == Resolve(doc + fetched, r.suggestedUris[j])
  {
  }
}
