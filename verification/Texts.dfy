/** Splitting and joining of texts. */
module Texts {
  /** The first piece goes on with one more character in front. */
  function Lead(c: char, pieces: seq<string>): seq<string>
    requires pieces != []
  {
    [[c] + pieces[0]] + pieces[1..]
  }

  /** The pieces of `s` between the occurrences of `sep`; a text without any is one piece. */
  function Split(s: string, sep: char): (r: seq<string>)
    ensures |r| > 0
  {
    if s == [] then [[]]
    else
      var rest := Split(s[1..], sep);
      if s[0] == sep then [[]] + rest else Lead(s[0], rest)
  }

  function Join(parts: seq<string>, sep: char): string {
    if |parts| == 0 then []
    else if |parts| == 1 then parts[0]
    else parts[0] + [sep] + Join(parts[1..], sep)
  }

  predicate Free(s: string, sep: char) {
    forall i :: 0 <= i < |s| ==> s[i] != sep
  }

  lemma {:induction false} PiecesAreFree(s: string, sep: char, i: nat)
    requires i < |Split(s, sep)|
    ensures Free(Split(s, sep)[i], sep)
  {
    if s != [] {
      var rest := Split(s[1..], sep);
      if s[0] == sep {
        if i > 0 { PiecesAreFree(s[1..], sep, i - 1); }
      } else {
        PiecesAreFree(s[1..], sep, i);
      }
    }
  }

  lemma {:induction false} SplitFree(s: string, sep: char)
    requires Free(s, sep)
    ensures Split(s, sep) == [s]
  {
    if s != [] {
      SplitFree(s[1..], sep);
      assert [s[0]] + s[1..] == s;
    }
  }

  lemma LeadConcat(c: char, a: seq<string>, b: seq<string>)
    requires a != []
    ensures Lead(c, a + b) == Lead(c, a) + b
  {
    assert (a + b)[1..] == a[1..] + b;
  }

  /** A separator between two texts separates their pieces. */
  lemma {:induction false} SplitConcat(a: string, b: string, sep: char)
    ensures Split(a + [sep] + b, sep) == Split(a, sep) + Split(b, sep)
  {
    var ab := a + [sep] + b;
    if a == [] {
      assert ab[1..] == b;
    } else {
      assert ab[1..] == a[1..] + [sep] + b && ab[0] == a[0];
      SplitConcat(a[1..], b, sep);
      LeadConcat(a[0], Split(a[1..], sep), Split(b, sep));
    }
  }

  /** Splitting undoes joining, for any non-empty list of pieces without separators. */
  lemma {:induction false} SplitJoin(parts: seq<string>, sep: char)
    requires parts != [] && forall i :: 0 <= i < |parts| ==> Free(parts[i], sep)
    ensures Split(Join(parts, sep), sep) == parts
  {
    SplitFree(parts[0], sep);
    if |parts| > 1 {
      SplitJoin(parts[1..], sep);
      SplitConcat(parts[0], Join(parts[1..], sep), sep);
    }
  }

  lemma JoinLead(c: char, pieces: seq<string>, sep: char)
    requires pieces != []
    ensures Join(Lead(c, pieces), sep) == [c] + Join(pieces, sep)
  {
    assert Lead(c, pieces)[1..] == pieces[1..];
  }

  /** Joining undoes splitting, for any text: together with `PiecesAreFree` this makes the pieces unique. */
  lemma {:induction false} JoinSplit(s: string, sep: char)
    ensures Join(Split(s, sep), sep) == s
  {
    if s != [] {
      JoinSplit(s[1..], sep);
      assert s == [s[0]] + s[1..];
      var rest := Split(s[1..], sep);
      if s[0] == sep {
        assert ([[]] + rest)[1..] == rest;
      } else {
        JoinLead(s[0], rest, sep);
      }
    }
  }
}
