/**
 * Splitting and joining strings on a one-character separator, with the
 * semantics of JavaScript's `String.prototype.split` and `Array.prototype.join`.
 */
module Strings {

  /** The pieces of `s` between occurrences of `sep`, empty pieces kept; `""` splits into `[""]`. */
  function Split(s: string, sep: char): (parts: seq<string>)
    ensures |parts| >= 1
    ensures forall k :: 0 <= k < |parts| ==> sep !in parts[k]
    ensures Join(parts, sep) == s
    decreases |s|
  {
    if |s| == 0 then [""]
    else
      var rest := Split(s[1..], sep);
      if s[0] == sep then
        assert ([""] + rest)[1..] == rest;
        [""] + rest
      else
        JoinExtendFirst(s[0], rest, sep);
        [[s[0]] + rest[0]] + rest[1..]
  }

  /** The pieces with `sep` between consecutive ones. */
  function Join(parts: seq<string>, sep: char): string
    decreases |parts|
  {
    if |parts| == 0 then ""
    else if |parts| == 1 then parts[0]
    else parts[0] + [sep] + Join(parts[1..], sep)
  }

  lemma JoinExtendFirst(c: char, parts: seq<string>, sep: char)
    requires |parts| >= 1
    ensures Join([[c] + parts[0]] + parts[1..], sep) == [c] + Join(parts, sep)
  {
    var extended := [[c] + parts[0]] + parts[1..];
    assert extended[1..] == parts[1..];
  }

  /** A join of at least two pieces starts with the first piece and the separator. */
  lemma JoinUnfold(parts: seq<string>, sep: char)
    requires |parts| >= 2
    ensures Join(parts, sep) == parts[0] + [sep] + Join(parts[1..], sep)
  {
  }

  /** In a join of separator-free pieces the first separator follows the first piece. */
  lemma FirstSeparator(parts: seq<string>, sep: char)
    requires |parts| >= 2
    requires sep !in parts[0]
    ensures |parts[0]| < |Join(parts, sep)| && Join(parts, sep)[|parts[0]|] == sep
    ensures forall i :: 0 <= i < |parts[0]| ==> Join(parts, sep)[i] == parts[0][i] != sep
  {
  }

  /** Separator-free pieces are determined by their join. */
  lemma {:induction false} JoinInjective(p: seq<string>, q: seq<string>, sep: char)
    requires |p| >= 1 && |q| >= 1
    requires forall k :: 0 <= k < |p| ==> sep !in p[k]
    requires forall k :: 0 <= k < |q| ==> sep !in q[k]
    requires Join(p, sep) == Join(q, sep)
    ensures p == q
    decreases |p|
  {
    if |p| == 1 && |q| == 1 {
    } else if |p| == 1 {
      assert false;
    } else if |q| == 1 {
      assert false;
    } else {
      var j := Join(p, sep);
      FirstSeparator(p, sep);
      FirstSeparator(q, sep);
      if |p[0]| < |q[0]| {
        assert false;
      } else if |q[0]| < |p[0]| {
        assert false;
      } else {
        assert p[0] == j[..|p[0]|] == q[0];
        assert Join(p[1..], sep) == j[|p[0]| + 1..] == Join(q[1..], sep);
        JoinInjective(p[1..], q[1..], sep);
        assert p == [p[0]] + p[1..];
        assert q == [q[0]] + q[1..];
      }
    }
  }

  /** Splitting a join of separator-free pieces gives the pieces back. */
  lemma SplitJoin(parts: seq<string>, sep: char)
    requires |parts| >= 1
    requires forall k :: 0 <= k < |parts| ==> sep !in parts[k]
    ensures Split(Join(parts, sep), sep) == parts
  {
    JoinInjective(Split(Join(parts, sep), sep), parts, sep);
  }
}
