/**
 * The string operations the vocabulary page applies to URIs: JavaScript's
 * `String.prototype.split` with a one-character separator, and
 * `uri.split("/").pop()`, the URI's last path segment.
 */
module Uris {

  /**
   * `s.split(sep)`: the pieces between separators, so there is always one
   * more piece than there are separators (`"".split("/")` is `[""]`).
   */
  function Split(s: string, sep: char): (parts: seq<string>)
    ensures |parts| >= 1
    ensures forall k :: 0 <= k < |parts| ==> sep !in parts[k]
    decreases |s|
  {
    if s == [] then [[]]
    else
      var rest := Split(s[1..], sep);
      if s[0] == sep then [[]] + rest
      else [[s[0]] + rest[0]] + rest[1..]
  }

  /** `parts.join(sep)`: the pieces with one separator between neighbours. */
  function Join(parts: seq<string>, sep: char): string
    requires |parts| >= 1
  {
    if |parts| == 1 then parts[0] else parts[0] + [sep] + Join(parts[1..], sep)
  }

  /** Splitting loses nothing: joining the pieces gives the string back. */
  lemma {:induction false} JoinSplit(s: string, sep: char)
    ensures Join(Split(s, sep), sep) == s
    decreases |s|
  {
    if s != [] {
      var rest := Split(s[1..], sep);
      JoinSplit(s[1..], sep);
      if s[0] != sep {
        if |rest| == 1 {
        } else {
          assert rest == [rest[0]] + rest[1..];
          assert Join(rest, sep) == rest[0] + [sep] + Join(rest[1..], sep);
          assert [s[0]] + rest[0] + [sep] + Join(rest[1..], sep) == [s[0]] + Join(rest, sep);
        }
      } else {
        assert Join([[]] + rest, sep) == [] + [sep] + Join(rest, sep);
      }
      assert s == [s[0]] + s[1..];
    }
  }

  /** Pieces without separators are what splitting their join gives back. */
  lemma {:induction false} SplitJoin(parts: seq<string>, sep: char)
    requires |parts| >= 1
    requires forall k :: 0 <= k < |parts| ==> sep !in parts[k]
    ensures Split(Join(parts, sep), sep) == parts
    decreases |parts|, |parts[0]|
  {
    if |parts| == 1 {
      SplitPiece(parts[0], sep);
    } else {
      var tail := parts[1..];
      SplitJoin(tail, sep);
      SplitCons(parts[0], Join(tail, sep), sep);
      assert parts == [parts[0]] + tail;
    }
  }

  /** A string without the separator is a single piece. */
  lemma {:induction false} SplitPiece(s: string, sep: char)
    requires sep !in s
    ensures Split(s, sep) == [s]
    decreases |s|
  {
    if s != [] {
      SplitPiece(s[1..], sep);
      assert s == [s[0]] + s[1..];
    }
  }

  /** Splitting `p + sep + t`, where `p` has no separator, puts `p` in front of the pieces of `t`. */
  lemma {:induction false} SplitCons(p: string, t: string, sep: char)
    requires sep !in p
    ensures Split(p + [sep] + t, sep) == [p] + Split(t, sep)
    decreases |p|
  {
    var s := p + [sep] + t;
    if p == [] {
      assert s[1..] == t;
    } else {
      assert s[1..] == p[1..] + [sep] + t;
      SplitCons(p[1..], t, sep);
      assert [p[0]] + p[1..] == p;
    }
  }

  /** `uri.split("/").pop()`: the text after the last `/`, or all of `uri` when it has none. */
  function LastSegment(uri: string): string
  {
    var parts := Split(uri, '/');
    parts[|parts| - 1]
  }

  /**
   * The last segment is the suffix of the URI that follows its last `/`:
   * it holds no `/`, and it is either the whole URI or preceded by a `/`.
   */
  lemma {:induction false} LastSegmentSpec(uri: string)
    ensures var seg := LastSegment(uri);
      && |seg| <= |uri| && uri[|uri| - |seg|..] == seg
      && '/' !in seg
      && (|seg| == |uri| || uri[|uri| - |seg| - 1] == '/')
    decreases |uri|
  {
    if uri != [] {
      var w := uri[1..];
      assert uri == [uri[0]] + w;
      LastSegmentCons(uri[0], w);
      if uri[0] == '/' || '/' in w {
        LastSegmentSpec(w);
        var seg := LastSegment(w);
        assert w[|w| - |seg|..] == uri[|uri| - |seg|..];
        if |seg| < |w| {
          assert w[|w| - |seg| - 1] == uri[|uri| - |seg| - 1];
        } else {
          assert seg == w;
        }
      }
    }
  }

  /** How the last segment changes when one character is put in front. */
  lemma LastSegmentCons(c: char, w: string)
    ensures LastSegment([c] + w) == if c != '/' && '/' !in w then [c] + w else LastSegment(w)
  {
    var s := [c] + w;
    assert s[1..] == w;
    var rest := Split(w, '/');
    if c != '/' {
      if '/' !in w {
        SplitPiece(w, '/');
      } else {
        JoinSplit(w, '/');
        assert |rest| > 1;
      }
    }
  }

  /** A URI without `/` is its own last segment. */
  lemma LastSegmentNoSlash(uri: string)
    requires '/' !in uri
    ensures LastSegment(uri) == uri
  {
    LastSegmentSpec(uri);
  }

  /** Whatever precedes the last `/` does not matter: `(p + "/" + t).split("/").pop()` is `t`. */
  lemma LastSegmentAfterSlash(p: string, t: string)
    requires '/' !in t
    ensures LastSegment(p + ['/'] + t) == t
  {
    var uri := p + ['/'] + t;
    LastSegmentSpec(uri);
    var seg := LastSegment(uri);
    assert uri[|p|] == '/';
    SuffixMembers(uri, seg);
    assert |seg| <= |t|;
    assert uri[|uri| - |t|..] == t;
  }

  /** Every character in the tail of `w` that `seg` equals belongs to `seg`. */
  lemma SuffixMembers(w: string, seg: string)
    requires |seg| <= |w| && w[|w| - |seg|..] == seg
    ensures forall k :: |w| - |seg| <= k < |w| ==> w[k] in seg
  {
    forall k | |w| - |seg| <= k < |w| ensures w[k] in seg {
      assert seg[k - (|w| - |seg|)] == w[k];
    }
  }
}
