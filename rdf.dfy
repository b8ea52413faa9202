/**
 * The part of the rdflib graph that the vocabulary page uses: RDF terms,
 * statements, and the pattern queries `store.each(s, p, null)`,
 * `store.each(undefined, p, null)` and `store.any(s, p, null)`.
 */
module Rdf {
  import opened Wrappers

  /** An RDF term; the kind is an explicit tag. */
  datatype Term =
    | NamedNode(uri: string)
    | BlankNode(id: string)
    | Literal(lexical: string, language: string)  // `language` is "" when the literal has no tag

  /** A term's `.value`: a named node's URI, a blank node's id, a literal's text. */
  function Value(t: Term): string {
    match t
    case NamedNode(uri) => uri
    case BlankNode(id) => id
    case Literal(lexical, _) => lexical
  }

  /** A term's `.lang`: only literals have one; on other terms it is `undefined`. */
  function Lang(t: Term): Option<string> {
    if t.Literal? then Some(t.language) else None
  }

  /** A statement of the graph. */
  datatype Triple = Triple(subj: Term, pred: Term, obj: Term)

  /** The graph: its statements in the order they were added. */
  type Store = seq<Triple>

  /** The statement matches the pattern `(s, p, ?)`; a subject of `None` is a wildcard. */
  predicate Matches(st: Triple, s: Option<Term>, p: Term) {
    (s.None? || st.subj == s.value) && st.pred == p
  }

  /** `store.each(s, p, null)`: the objects of the statements matching `(s, p, ?)`, in store order. */
  function Each(store: Store, s: Term, p: Term): seq<Term>
  {
    if store == [] then []
    else
      var init := Each(store[..|store| - 1], s, p);
      var last := store[|store| - 1];
      if Matches(last, Some(s), p) then init + [last.obj] else init
  }

  /** `store.each(undefined, p, null)`: the subjects of the statements matching `(?, p, ?)`, in store order. */
  function Subjects(store: Store, p: Term): seq<Term>
  {
    if store == [] then []
    else
      var init := Subjects(store[..|store| - 1], p);
      var last := store[|store| - 1];
      if Matches(last, None, p) then init + [last.subj] else init
  }

  /** `store.any(s, p, null)`: the object of the first statement matching `(s, p, ?)`, or nothing. */
  function Any(store: Store, s: Term, p: Term): Option<Term>
  {
    if store == [] then None
    else if Matches(store[0], Some(s), p) then Some(store[0].obj)
    else Any(store[1..], s, p)
  }

  /**
   * The positions of the statements matching a pattern, ascending: a
   * reference description of the statements a query sees.
   */
  function MatchPositions(store: Store, s: Option<Term>, p: Term): (ps: seq<nat>)
    ensures forall k :: 0 <= k < |ps| ==> ps[k] < |store| && Matches(store[ps[k]], s, p)
    ensures forall k, l :: 0 <= k < l < |ps| ==> ps[k] < ps[l]
    ensures forall i :: 0 <= i < |store| && Matches(store[i], s, p) ==> i in ps
  {
    if store == [] then []
    else
      var n := |store| - 1;
      var init := MatchPositions(store[..n], s, p);
      assert forall k :: 0 <= k < |init| ==> store[init[k]] == store[..n][init[k]];
      assert forall i :: 0 <= i < n ==> store[i] == store[..n][i];
      if Matches(store[n], s, p) then init + [n] else init
  }

  /**
   * `each(s, p, null)` returns one object per matching statement, in store
   * order: its k-th element is the object of the k-th matching statement.
   */
  lemma {:induction false} EachAtPositions(store: Store, s: Term, p: Term)
    ensures var objs, ps := Each(store, s, p), MatchPositions(store, Some(s), p);
      |objs| == |ps| && forall k :: 0 <= k < |ps| ==> objs[k] == store[ps[k]].obj
  {
    if store != [] {
      var n := |store| - 1;
      var pre := store[..n];
      var init, ps := Each(pre, s, p), MatchPositions(pre, Some(s), p);
      EachAtPositions(pre, s, p);
      var out, qs := Each(store, s, p), MatchPositions(store, Some(s), p);
      var hit := Matches(store[n], Some(s), p);
      assert out == if hit then init + [store[n].obj] else init;
      assert qs == if hit then ps + [n] else ps;
      forall k | 0 <= k < |qs| ensures out[k] == store[qs[k]].obj {
        if k < |ps| {
          assert out[k] == init[k] && qs[k] == ps[k];
          assert pre[ps[k]] == store[ps[k]];
        }
      }
    }
  }

  /**
   * `each(undefined, p, null)` returns one subject per matching statement, in
   * store order: its k-th element is the subject of the k-th matching statement.
   */
  lemma {:induction false} SubjectsAtPositions(store: Store, p: Term)
    ensures var subjs, ps := Subjects(store, p), MatchPositions(store, None, p);
      |subjs| == |ps| && forall k :: 0 <= k < |ps| ==> subjs[k] == store[ps[k]].subj
  {
    if store != [] {
      var n := |store| - 1;
      var pre := store[..n];
      var init, ps := Subjects(pre, p), MatchPositions(pre, None, p);
      SubjectsAtPositions(pre, p);
      var out, qs := Subjects(store, p), MatchPositions(store, None, p);
      var hit := Matches(store[n], None, p);
      assert out == if hit then init + [store[n].subj] else init;
      assert qs == if hit then ps + [n] else ps;
      forall k | 0 <= k < |qs| ensures out[k] == store[qs[k]].subj {
        if k < |ps| {
          assert out[k] == init[k] && qs[k] == ps[k];
          assert pre[ps[k]] == store[ps[k]];
        }
      }
    }
  }

  /** `any` finds something exactly when some statement matches. */
  lemma {:induction false} AnyFindsMatch(store: Store, s: Term, p: Term)
    ensures Any(store, s, p).None? <==> forall i :: 0 <= i < |store| ==> !Matches(store[i], Some(s), p)
  {
    if store != [] && !Matches(store[0], Some(s), p) {
      AnyFindsMatch(store[1..], s, p);
      assert forall i :: 1 <= i < |store| ==> store[i] == store[1..][i - 1];
    }
  }

  /** What `any` finds is the object of the first matching statement. */
  lemma {:induction false} AnyIsFirstMatch(store: Store, s: Term, p: Term, i: nat)
    requires i < |store| && Matches(store[i], Some(s), p)
    requires forall j :: 0 <= j < i ==> !Matches(store[j], Some(s), p)
    ensures Any(store, s, p) == Some(store[i].obj)
  {
    if i > 0 {
      AnyIsFirstMatch(store[1..], s, p, i - 1);
    }
  }

  /** `any` gives the first element of what `each` gives, and nothing when `each` is empty. */
  lemma AnyIsHeadOfEach(store: Store, s: Term, p: Term)
    ensures var objs := Each(store, s, p);
      Any(store, s, p) == if objs == [] then None else Some(objs[0])
  {
    var ps := MatchPositions(store, Some(s), p);
    EachAtPositions(store, s, p);
    AnyFindsMatch(store, s, p);
    if ps != [] {
      assert forall j :: 0 <= j < ps[0] ==> !Matches(store[j], Some(s), p);
      AnyIsFirstMatch(store, s, p, ps[0]);
    } else {
      assert forall i :: 0 <= i < |store| ==> !Matches(store[i], Some(s), p);
    }
  }

  /** Statements added after the first match do not change what `any` finds. */
  lemma {:induction false} AnyAppend(store: Store, more: Store, s: Term, p: Term)
    requires Any(store, s, p).Some?
    ensures Any(store + more, s, p) == Any(store, s, p)
  {
    if !Matches(store[0], Some(s), p) {
      assert (store + more)[1..] == store[1..] + more;
      AnyAppend(store[1..], more, s, p);
    }
  }
}
