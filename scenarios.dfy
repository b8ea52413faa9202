/**
 * Concrete instances of the model: a term with two titles, two descriptions and one
 * suggested term, loaded with and without the suggested term's own statements.
 */
module Scenarios {
  import opened Wrappers
  import opened Sequences
  import opened Uris
  import opened Rdf
  import opened Vocabulary

  const Foo := "http://ex/terms/foo"
  const Bar := "http://ex/terms/bar"

  // The main document: `foo` is a contentious term suggesting `bar`.
  const T0 := Triple(NamedNode(Foo), HasContentiousTerm, NamedNode("http://ex/ct/1"))
  const T1 := Triple(NamedNode(Foo), DctTitle, Literal("Foo", "en"))
  const T2 := Triple(NamedNode(Foo), DctTitle, Literal("Fuß", "de"))
  const T3 := Triple(NamedNode(Foo), DctDescription, Literal("A", "en"))
  const T4 := Triple(NamedNode(Foo), DctDescription, Literal("B", "en"))
  const T5 := Triple(NamedNode(Foo), HasSuggestedTerm, NamedNode(Bar))

  function Doc(): Store { [T0, T1, T2, T3, T4, T5] }

  /** What fetching `bar` adds: a single English title. */
  function BarDoc(): Store {
    [Triple(NamedNode(Bar), DctTitle, Literal("Bar", "en"))]
  }

  /** The record `foo` gets, before its suggested term is resolved. */
  function FooRaw(): RawConcept {
    RawConcept("foo", [Label("Foo", Some("en")), Label("Fuß", Some("de"))], ["en", "de"], "A", [Bar])
  }

  lemma Distinct()
    ensures Foo != Bar
    ensures HasContentiousTerm != DctTitle && HasContentiousTerm != DctDescription
    ensures HasContentiousTerm != HasSuggestedTerm && DctTitle != DctDescription
    ensures DctTitle != HasSuggestedTerm && DctDescription != HasSuggestedTerm
    ensures SkosXlLiteralForm != DctTitle && SkosXlLiteralForm != DctDescription
    ensures SkosXlLiteralForm != HasContentiousTerm && SkosXlLiteralForm != HasSuggestedTerm
  {
    assert Foo[16] != Bar[16];
  }

  lemma TailSegments()
    ensures LastSegment(Foo) == "foo" && LastSegment(Bar) == "bar"
  {
    assert Foo == "http://ex/terms" + ['/'] + "foo";
    assert Bar == "http://ex/terms" + ['/'] + "bar";
    LastSegmentAfterSlash("http://ex/terms", "foo");
    LastSegmentAfterSlash("http://ex/terms", "bar");
  }

  /** The three queries on `foo` and the term query, evaluated prefix by prefix. */
  lemma DocQueries()
    ensures Subjects(Doc(), HasContentiousTerm) == [NamedNode(Foo)]
    ensures Each(Doc(), NamedNode(Foo), DctTitle) == [Literal("Foo", "en"), Literal("Fuß", "de")]
    ensures Each(Doc(), NamedNode(Foo), HasSuggestedTerm) == [NamedNode(Bar)]
    ensures Any(Doc(), NamedNode(Foo), DctDescription) == Some(Literal("A", "en"))
  {
    Distinct();
    var d := Doc();
    assert d[..5] == [T0, T1, T2, T3, T4];
    assert d[..5][..4] == [T0, T1, T2, T3];
    assert d[..5][..4][..3] == [T0, T1, T2];
    assert d[..5][..4][..3][..2] == [T0, T1];
    assert d[..5][..4][..3][..2][..1] == [T0];
    assert Subjects([T0], HasContentiousTerm) == [NamedNode(Foo)];
    assert Subjects([T0, T1], HasContentiousTerm) == [NamedNode(Foo)];
    assert Subjects([T0, T1, T2], HasContentiousTerm) == [NamedNode(Foo)];
    assert Subjects([T0, T1, T2, T3], HasContentiousTerm) == [NamedNode(Foo)];
    assert Subjects([T0, T1, T2, T3, T4], HasContentiousTerm) == [NamedNode(Foo)];
    assert Each([T0], NamedNode(Foo), DctTitle) == [];
    assert Each([T0, T1], NamedNode(Foo), DctTitle) == [Literal("Foo", "en")];
    assert Each([T0, T1, T2], NamedNode(Foo), DctTitle) == [Literal("Foo", "en"), Literal("Fuß", "de")];
    assert Each([T0, T1, T2, T3], NamedNode(Foo), DctTitle) == [Literal("Foo", "en"), Literal("Fuß", "de")];
    assert Each([T0, T1, T2, T3, T4], NamedNode(Foo), DctTitle) == [Literal("Foo", "en"), Literal("Fuß", "de")];
    assert Each([T0], NamedNode(Foo), HasSuggestedTerm) == [];
    assert Each([T0, T1], NamedNode(Foo), HasSuggestedTerm) == [];
    assert Each([T0, T1, T2], NamedNode(Foo), HasSuggestedTerm) == [];
    assert Each([T0, T1, T2, T3], NamedNode(Foo), HasSuggestedTerm) == [];
    assert Each([T0, T1, T2, T3, T4], NamedNode(Foo), HasSuggestedTerm) == [];
    assert d[1..] == [T1, T2, T3, T4, T5];
    assert d[1..][1..] == [T2, T3, T4, T5];
    assert d[1..][1..][1..] == [T3, T4, T5];
  }

  /** A one-element list is its own `Dedup`. */
  lemma DedupSingle(x: string)
    ensures Dedup([x]) == [x]
  {
    assert [x][..0] == [];
  }

  /** Two different elements are both kept, in their order. */
  lemma DedupPair(x: string, y: string)
    requires x != y
    ensures Dedup([x, y]) == [x, y]
  {
    assert [x, y][..1] == [x];
    DedupSingle(x);
    assert y !in Dedup([x]);
  }

  /** `en` then `de` are kept, in that order. */
  lemma EnDe()
    ensures Dedup(["en", "de"]) == ["en", "de"]
  {
    assert "en" != "de" by { assert "en"[0] != "de"[0]; }
    DedupPair("en", "de");
  }

  /** The term list of the main document is `[foo]`. */
  lemma DocTerms()
    ensures SubjectUris(Doc()) == [Foo]
  {
    DocQueries();
    assert Values([NamedNode(Foo)]) == [Foo];
    DedupSingle(Foo);
  }

  /** The languages of `foo`'s two titles. */
  lemma FooLangs()
    ensures Langs([Label("Foo", Some("en")), Label("Fuß", Some("de"))]) == ["en", "de"]
  {
    var labels := [Label("Foo", Some("en")), Label("Fuß", Some("de"))];
    assert labels[1..] == [Label("Fuß", Some("de"))];
    assert Tags([Label("Fuß", Some("de"))]) == ["de"] by {
      assert [Label("Fuß", Some("de"))][1..] == [];
    }
    assert Tags(labels) == ["en", "de"];
    EnDe();
  }

  lemma FooId()
    ensures ExtractConcept(Doc(), Foo).id == "foo"
  {
    TailSegments();
  }

  lemma FooLabels()
    ensures ExtractConcept(Doc(), Foo).labels == [Label("Foo", Some("en")), Label("Fuß", Some("de"))]
  {
    DocQueries();
  }

  lemma FooLangsField()
    ensures ExtractConcept(Doc(), Foo).langs == ["en", "de"]
  {
    FooLabels();
    FooLangs();
  }

  lemma FooDescription()
    ensures ExtractConcept(Doc(), Foo).description == "A"
  {
    DocQueries();
  }

  lemma FooSuggested()
    ensures ExtractConcept(Doc(), Foo).suggestedUris == [Bar]
  {
    DocQueries();
    assert Values([NamedNode(Bar)]) == [Bar];
  }

  /** The record of `foo`. */
  lemma FooConcept()
    ensures ExtractConcept(Doc(), Foo) == FooRaw()
  {
    FooId();
    FooLabels();
    FooLangsField();
    FooDescription();
    FooSuggested();
  }

  /** The main document yields one raw record, for `foo`: the first description and both tags. */
  lemma ExtractFoo()
    ensures ExtractTermConcepts(Doc()) == [FooRaw()]
  {
    DocTerms();
    FooConcept();
  }

  /** Only `bar` is fetched. */
  lemma FetchBar()
    ensures UrisToFetch([FooRaw()]) == [Bar]
  {
    var raw := [FooRaw()];
    var lists := seq(|raw|, k requires 0 <= k < |raw| => raw[k].suggestedUris);
    assert lists == [[Bar]];
    assert Flatten(lists) == [Bar] by {
      assert lists[1..] == [];
    }
    DedupSingle(Bar);
  }

  /** A document with one raw record loads into that record, resolved against everything loaded. */
  lemma LoadOne(doc: Store, fetchAll: seq<string> -> Result<Store>, fetched: Store, r: RawConcept)
    requires ExtractTermConcepts(doc) == [r] && UrisToFetch([r]) != []
    requires forall uris :: fetchAll(uris) == Success(fetched)
    ensures LoadVocabulary(Success(doc), fetchAll) == Success([Finalize(doc + fetched, r)])
  {
    var raw := ExtractTermConcepts(doc);
    assert FetchSuggested(UrisToFetch(raw), fetchAll) == Success(fetched);
    var fin := seq(|raw|, k requires 0 <= k < |raw| => Finalize(doc + fetched, raw[k]));
    assert LoadVocabulary(Success(doc), fetchAll) == Success(fin);
    assert fin == [Finalize(doc + fetched, r)];
  }

  /** The sample document loads into `foo`'s record, resolved against everything loaded. */
  lemma LoadFoo(fetchAll: seq<string> -> Result<Store>, fetched: Store)
    requires forall uris :: fetchAll(uris) == Success(fetched)
    ensures LoadVocabulary(Success(Doc()), fetchAll) == Success([Finalize(Doc() + fetched, FooRaw())])
  {
    ExtractFoo();
    FetchBar();
    LoadOne(Doc(), fetchAll, fetched, FooRaw());
  }

  /** `foo`'s final record keeps its raw fields and resolves `bar`. */
  lemma FinalizeFoo(store: Store)
    ensures Finalize(store, FooRaw()) ==
      Concept("foo", [Label("Foo", Some("en")), Label("Fuß", Some("de"))], ["en", "de"], "A", [Resolve(store, Bar)])
  {
  }

  /** With `bar`'s title fetched, the suggested term shows that title. */
  lemma LoadWithFetchedTitle(fetchAll: seq<string> -> Result<Store>)
    requires forall uris :: fetchAll(uris) == Success(BarDoc())
    ensures LoadVocabulary(Success(Doc()), fetchAll) ==
      Success([Concept("foo", [Label("Foo", Some("en")), Label("Fuß", Some("de"))], ["en", "de"], "A", ["Bar"])])
  {
    LoadFoo(fetchAll, BarDoc());
    FinalizeFoo(Doc() + BarDoc());
    BarTitleWins();
  }

  lemma BarTitleWins()
    ensures Resolve(Doc() + BarDoc(), Bar) == "Bar"
  {
    Distinct();
    var store := Doc() + BarDoc();
    assert store == [T0, T1, T2, T3, T4, T5, BarDoc()[0]];
    ResolveFallsBackToTitle(store, Bar, 6);
  }

  /**
   * When the fetch succeeds but brings nothing about `bar`, the suggested term
   * shows the URI's tail and the load still succeeds.
   */
  lemma LoadWithNothingFetched(fetchAll: seq<string> -> Result<Store>)
    requires forall uris :: fetchAll(uris) == Success([])
    ensures LoadVocabulary(Success(Doc()), fetchAll) ==
      Success([Concept("foo", [Label("Foo", Some("en")), Label("Fuß", Some("de"))], ["en", "de"], "A", ["bar"])])
  {
    LoadFoo(fetchAll, []);
    var store: Store := Doc() + [];
    assert store == Doc();
    FinalizeFoo(store);
    BarUnknown();
  }

  lemma BarUnknown()
    ensures Resolve(Doc(), Bar) == "bar"
  {
    Distinct();
    assert forall b :: 0 <= b < |Doc()| ==> Doc()[b].subj != NamedNode(Bar);
    ResolveUnknown(Doc(), Bar);
    TailSegments();
  }

  /** A rejected fetch of `bar` fails the whole load, though the main document had a term. */
  lemma LoadWithFailedFetch(fetchAll: seq<string> -> Result<Store>)
    requires forall uris :: fetchAll(uris) == Failure("404")
    ensures LoadVocabulary(Success(Doc()), fetchAll) == Failure("404")
  {
    ExtractFoo();
    FetchBar();
    LoadVocabularyFailures(Success(Doc()), fetchAll);
  }

  /** A literal form beats a title that differs from it. */
  lemma LiteralFormBeatsTitle()
    ensures Resolve([ Triple(NamedNode(Bar), DctTitle, Literal("Bar", "en")),
                      Triple(NamedNode(Bar), SkosXlLiteralForm, Literal("bar (XL)", "en")) ], Bar) == "bar (XL)"
  {
    Distinct();
    ResolvePrefersLiteralForm([ Triple(NamedNode(Bar), DctTitle, Literal("Bar", "en")),
                      Triple(NamedNode(Bar), SkosXlLiteralForm, Literal("bar (XL)", "en")) ], Bar, 1);
  }

  /** Tags `en`, `de` and an empty one give the languages `en`, `de`. */
  lemma EmptyTagDropped()
    ensures Langs([Label("x", Some("en")), Label("y", Some("de")), Label("z", Some(""))]) == ["en", "de"]
  {
    var labels := [Label("x", Some("en")), Label("y", Some("de")), Label("z", Some(""))];
    assert labels[1..][1..] == [Label("z", Some(""))];
    assert labels[1..] == [Label("y", Some("de")), Label("z", Some(""))];
    assert Tags([Label("z", Some(""))]) == [] by { assert [Label("z", Some(""))][1..] == []; }
    EnDe();
  }

  /** As written, line 68 fails on the main document, which has one term. */
  lemma AsWrittenFailsOnDoc()
    ensures SubjectUrisAsWritten(Doc()).Failure?
    ensures SubjectUris(Doc()) == [Foo]
  {
    DocQueries();
    DocTerms();
  }
}
