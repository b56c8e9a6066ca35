/**
 The validation of an email address by a regular expression. Matching follows section 21.2.2 of ECMA-262, 6th
 edition: a term matches between two positions of the input, a quantifier repeats its atom within its bounds,
 and an optional repetition must make progress. The expression is anchored at both ends.
 */
module UserEmail {
  import opened Texts
  import opened Wrappers

  /** The character classes of the pattern: `[\w\-]`, `[\w\-\+.]`, `[@]` and `[.]`. */
  datatype Class = Word | WordOrMark | At | Dot

  datatype Regex =
    | Chars(kind: Class)
    | Then(first: Regex, second: Regex)
    | Repeat(body: Regex, min: nat, max: Option<nat>)

  predicate IsWord(c: char) {
    'a' <= c <= 'z' || 'A' <= c <= 'Z' || '0' <= c <= '9' || c == '_' || c == '-'
  }

  predicate IsMark(c: char) {
    c == '+' || c == '.'
  }

  predicate InClass(c: char, kind: Class) {
    match kind
    case Word => IsWord(c)
    case WordOrMark => IsWord(c) || IsMark(c)
    case At => c == '@'
    case Dot => c == '.'
  }

  // ---------------------------------------------------------------- matching

  /** `r` can match the text of `s` between positions `i` and `j`. */
  predicate Matches(r: Regex, s: string, i: nat, j: nat)
    requires i <= j <= |s|
    decreases r, 0, 0, 0, 0
  {
    match r
    case Chars(kind) => j == i + 1 && InClass(s[i], kind)
    case Then(a, b) => exists m :: i <= m <= j && Matches(a, s, i, m) && Matches(b, s, m, j)
    case Repeat(body, min, max) => MatchesRepeat(body, min, max, s, i, j)
  }

  function Pred(min: nat): nat {
    if min > 0 then min - 1 else 0
  }

  function Less(max: Option<nat>): Option<nat> {
    match max
    case None => None
    case Some(n) => if n == 0 then Some(0) else Some(n - 1)
  }

  /** `body` repeated between `min` and `max` times; once `min` is met, a repetition must consume something. */
  predicate MatchesRepeat(body: Regex, min: nat, max: Option<nat>, s: string, i: nat, j: nat)
    requires i <= j <= |s|
    decreases body, 1, |s| - i, min, 1
  {
    || (min == 0 && i == j)
    || exists m :: i <= m <= j && RepeatsOver(body, min, max, s, i, m, j)
  }

  /** One repetition from `i` to `m`, and the others from there. */
  predicate RepeatsOver(body: Regex, min: nat, max: Option<nat>, s: string, i: nat, m: nat, j: nat)
    requires i <= m <= j <= |s|
    decreases body, 1, |s| - i, min, 0
  {
    && max != Some(0) && (min > 0 || m > i)
    && Matches(body, s, i, m) && MatchesRepeat(body, Pred(min), Less(max), s, m, j)
  }

  const WORDS := Repeat(Chars(Word), 1, None)
  const MARK_AND_WORDS := Then(Repeat(Chars(WordOrMark), 1, Some(1)), WORDS)
  const DOT_AND_WORDS := Then(Chars(Dot), WORDS)
  const DOMAIN := Then(WORDS, Repeat(DOT_AND_WORDS, 1, Some(3)))
  const AT_DOMAIN := Then(Chars(At), DOMAIN)
  const AFTER_FIRST_WORDS := Then(Repeat(MARK_AND_WORDS, 0, None), AT_DOMAIN)
  const EMAIL := Then(WORDS, AFTER_FIRST_WORDS)

  /** The model's `validate`: an error message, or nothing. */
  function Validate(email: Option<string>): Option<string> {
    match email
    case None => Some("Empty email")
    case Some(e) => if Matches(EMAIL, e, 0, |e|) then None else Some("Invalid email")
  }

  // ---------------------------------------------------------------- the one-pass scanner

  datatype Scan =
    | Begin | LocalWord | LocalMark
    | LabelBegin(dots: nat) | Label(dots: nat)
    | Dead

  function Step(q: Scan, c: char): Scan {
    match q
    case Begin => if IsWord(c) then LocalWord else Dead
    case LocalWord =>
      if IsWord(c) then LocalWord else if IsMark(c) then LocalMark else if c == '@' then LabelBegin(0) else Dead
    case LocalMark => if IsWord(c) then LocalWord else Dead
    case LabelBegin(dots) => if IsWord(c) then Label(dots) else Dead
    case Label(dots) => if IsWord(c) then q else if c == '.' && dots < 3 then LabelBegin(dots + 1) else Dead
    case Dead => Dead
  }

  function Run(q: Scan, s: string, i: nat, j: nat): Scan
    requires i <= j <= |s|
    decreases j - i
  {
    if i == j then q else Run(Step(q, s[i]), s, i + 1, j)
  }

  predicate IsFinal(q: Scan) {
    q.Label? && 1 <= q.dots <= 3
  }

  predicate Accepted(s: string) {
    IsFinal(Run(Begin, s, 0, |s|))
  }

  /** The scanner as it runs: one pass over the text, one state. */
  method ScanEmail(s: string) returns (ok: bool)
    ensures ok == Accepted(s)
  {
    var q := Begin;
    for i := 0 to |s|
      invariant Run(Begin, s, 0, |s|) == Run(q, s, i, |s|)
    {
      q := Step(q, s[i]);
    }
    ok := IsFinal(q);
  }

  lemma {:induction false} RunSplits(q: Scan, s: string, i: nat, m: nat, j: nat)
    requires i <= m <= j <= |s|
    ensures Run(q, s, i, j) == Run(Run(q, s, i, m), s, m, j)
    decreases m - i
  {
    if i < m { RunSplits(Step(q, s[i]), s, i + 1, m, j); }
  }

  lemma {:induction false} DeadStaysDead(s: string, i: nat, j: nat)
    requires i <= j <= |s|
    ensures Run(Dead, s, i, j) == Dead
    decreases j - i
  {
    if i < j { DeadStaysDead(s, i + 1, j); }
  }

  /** At the start of a word, only a word character leads anywhere. */
  lemma NeedsWord(q: Scan, s: string, i: nat)
    requires i <= |s| && (q.Begin? || q.LocalMark? || q.LabelBegin?) && IsFinal(Run(q, s, i, |s|))
    ensures i < |s| && IsWord(s[i])
  {
    if i < |s| { DeadStaysDead(s, i + 1, |s|); }
  }

  // ---------------------------------------------------------------- runs of word characters

  ghost predicate WordRun(s: string, i: nat, j: nat) {
    i <= j <= |s| && forall t :: i <= t < j ==> IsWord(s[t])
  }

  lemma {:induction false} RepeatedWords(s: string, min: nat, i: nat, j: nat)
    requires i <= j <= |s|
    ensures MatchesRepeat(Chars(Word), min, None, s, i, j) <==> WordRun(s, i, j) && j - i >= min
    decreases j - i
  {
    var less := Pred(min);
    if i < j {
      RepeatedWords(s, less, i + 1, j);
      assert Matches(Chars(Word), s, i, i + 1) <==> IsWord(s[i]);
      assert RepeatsOver(Chars(Word), min, None, s, i, i + 1, j) <==>
        IsWord(s[i]) && MatchesRepeat(Chars(Word), less, None, s, i + 1, j);
      forall m | i <= m <= j && RepeatsOver(Chars(Word), min, None, s, i, m, j) ensures m == i + 1 {
        assert Matches(Chars(Word), s, i, m);
      }
      assert WordRun(s, i, j) <==> IsWord(s[i]) && WordRun(s, i + 1, j);
      assert MatchesRepeat(Chars(Word), min, None, s, i, j) <==> RepeatsOver(Chars(Word), min, None, s, i, i + 1, j);
    } else {
      assert !Matches(Chars(Word), s, i, i);
      assert !RepeatsOver(Chars(Word), min, None, s, i, i, i);
    }
  }

  lemma WordsAreRuns(s: string, i: nat, j: nat)
    requires i <= j <= |s|
    ensures Matches(WORDS, s, i, j) <==> WordRun(s, i, j) && i < j
  {
    RepeatedWords(s, 1, i, j);
  }

  /** A term repeated exactly once. */
  lemma OnceIsItself(r: Regex, s: string, i: nat, j: nat)
    requires i <= j <= |s|
    ensures Matches(Repeat(r, 1, Some(1)), s, i, j) <==> Matches(r, s, i, j)
  {
    assert MatchesRepeat(r, 0, Some(0), s, j, j);
    assert RepeatsOver(r, 1, Some(1), s, i, j, j) <==> Matches(r, s, i, j);
    assert Matches(Repeat(r, 1, Some(1)), s, i, j) <==> MatchesRepeat(r, 1, Some(1), s, i, j);
    forall m | i <= m <= j && RepeatsOver(r, 1, Some(1), s, i, m, j) ensures m == j {
      assert MatchesRepeat(r, 0, Some(0), s, m, j);
    }
    assert MatchesRepeat(r, 1, Some(1), s, i, j) <==> RepeatsOver(r, 1, Some(1), s, i, j, j);
  }

  lemma MarkGroup(s: string, i: nat, j: nat)
    requires i <= j <= |s|
    ensures Matches(MARK_AND_WORDS, s, i, j) <==> i + 1 < j && InClass(s[i], WordOrMark) && WordRun(s, i + 1, j)
  {
    forall m | i <= m <= j
      ensures Matches(Repeat(Chars(WordOrMark), 1, Some(1)), s, i, m) <==> m == i + 1 && InClass(s[i], WordOrMark)
      ensures Matches(WORDS, s, m, j) <==> WordRun(s, m, j) && m < j
    {
      OnceIsItself(Chars(WordOrMark), s, i, m);
      WordsAreRuns(s, m, j);
    }
  }

  lemma DotGroup(s: string, i: nat, j: nat)
    requires i <= j <= |s|
    ensures Matches(DOT_AND_WORDS, s, i, j) <==> i + 1 < j && s[i] == '.' && WordRun(s, i + 1, j)
  {
    forall m | i <= m <= j
      ensures Matches(WORDS, s, m, j) <==> WordRun(s, m, j) && m < j
    {
      WordsAreRuns(s, m, j);
    }
  }

  // ---------------------------------------------------------------- from a match to the scanner

  lemma {:induction false} WordsKeepState(q: Scan, s: string, i: nat, j: nat)
    requires WordRun(s, i, j) && (q.LocalWord? || q.Label?)
    ensures Run(q, s, i, j) == q
    decreases j - i
  {
    if i < j { WordsKeepState(q, s, i + 1, j); }
  }

  lemma {:induction false} MarksAreScanned(s: string, i: nat, j: nat)
    requires i <= j <= |s| && MatchesRepeat(MARK_AND_WORDS, 0, None, s, i, j)
    ensures Run(LocalWord, s, i, j) == LocalWord
    decreases j - i
  {
    if i < j {
      var m :| i <= m <= j && RepeatsOver(MARK_AND_WORDS, 0, None, s, i, m, j);
      MarkGroup(s, i, m);
      WordsKeepState(LocalWord, s, i + 2, m);
      RunSplits(LocalWord, s, i, m, j);
      MarksAreScanned(s, m, j);
    }
  }

  lemma {:induction false} LabelsAreScanned(s: string, dots: nat, min: nat, i: nat, j: nat)
    requires i <= j <= |s| && dots <= 3 && MatchesRepeat(DOT_AND_WORDS, min, Some(3 - dots), s, i, j)
    ensures var q := Run(Label(dots), s, i, j); q.Label? && dots + min <= q.dots <= 3
    decreases j - i
  {
    if !(min == 0 && i == j) {
      var less := Pred(min);
      var m :| i <= m <= j && RepeatsOver(DOT_AND_WORDS, min, Some(3 - dots), s, i, m, j);
      DotGroup(s, i, m);
      WordsKeepState(Label(dots + 1), s, i + 2, m);
      RunSplits(Label(dots), s, i, m, j);
      LabelsAreScanned(s, dots + 1, less, m, j);
    }
  }

  lemma DomainIsAccepted(s: string, i: nat)
    requires i <= |s| && Matches(DOMAIN, s, i, |s|)
    ensures IsFinal(Run(LabelBegin(0), s, i, |s|))
  {
    var c :| i <= c <= |s| && Matches(WORDS, s, i, c) && Matches(Repeat(DOT_AND_WORDS, 1, Some(3)), s, c, |s|);
    WordsAreRuns(s, i, c);
    WordsKeepState(Label(0), s, i + 1, c);
    RunSplits(LabelBegin(0), s, i, c, |s|);
    LabelsAreScanned(s, 0, 1, c, |s|);
  }

  lemma LocalIsScanned(s: string, a: nat, b: nat)
    requires a <= b <= |s| && Matches(WORDS, s, 0, a) && Matches(Repeat(MARK_AND_WORDS, 0, None), s, a, b)
    ensures Run(Begin, s, 0, b) == LocalWord
  {
    WordsAreRuns(s, 0, a);
    WordsKeepState(LocalWord, s, 1, a);
    MarksAreScanned(s, a, b);
    RunSplits(Begin, s, 0, a, b);
  }

  lemma MatchIsAccepted(s: string)
    requires Matches(EMAIL, s, 0, |s|)
    ensures Accepted(s)
  {
    var n := |s|;
    var a :| 0 <= a <= n && Matches(WORDS, s, 0, a) && Matches(AFTER_FIRST_WORDS, s, a, n);
    var b :| a <= b <= n && Matches(Repeat(MARK_AND_WORDS, 0, None), s, a, b) && Matches(AT_DOMAIN, s, b, n);
    var c :| b <= c <= n && Matches(Chars(At), s, b, c) && Matches(DOMAIN, s, c, n);
    LocalIsScanned(s, a, b);
    RunSplits(Begin, s, 0, b, n);
    DomainIsAccepted(s, c);
  }

  // ---------------------------------------------------------------- from the scanner to a match

  /** From inside a label, what is left is the rest of the label and the labels still allowed. */
  lemma {:induction false} ScannedLabels(s: string, dots: nat, i: nat) returns (m: nat)
    requires i <= |s| && dots <= 3 && IsFinal(Run(Label(dots), s, i, |s|))
    ensures WordRun(s, i, m)
    ensures MatchesRepeat(DOT_AND_WORDS, if dots == 0 then 1 else 0, Some(3 - dots), s, m, |s|)
    decreases |s| - i
  {
    var n := |s|;
    if i == n {
      m := n;
    } else if IsWord(s[i]) {
      m := ScannedLabels(s, dots, i + 1);
    } else {
      DeadStaysDead(s, i + 1, n);
      NeedsWord(LabelBegin(dots + 1), s, i + 1);
      assert Run(LabelBegin(dots + 1), s, i + 1, n) == Run(Label(dots + 1), s, i + 2, n);
      var k := ScannedLabels(s, dots + 1, i + 2);
      DotGroup(s, i, k);
      m := i;
      assert RepeatsOver(DOT_AND_WORDS, if dots == 0 then 1 else 0, Some(3 - dots), s, i, k, n);
    }
  }

  lemma ScannedDomain(s: string, i: nat)
    requires i <= |s| && IsFinal(Run(LabelBegin(0), s, i, |s|))
    ensures Matches(DOMAIN, s, i, |s|)
  {
    NeedsWord(LabelBegin(0), s, i);
    var m := ScannedLabels(s, 0, i + 1);
    WordsAreRuns(s, i, m);
  }

  /** From inside a word of the local part: the rest of the word, groups led by a mark, the at sign, the domain. */
  lemma {:induction false} ScannedLocal(s: string, i: nat) returns (m: nat, k: nat)
    requires i <= |s| && IsFinal(Run(LocalWord, s, i, |s|))
    ensures i <= m <= k < |s| && WordRun(s, i, m) && MatchesRepeat(MARK_AND_WORDS, 0, None, s, m, k)
    ensures s[k] == '@' && Matches(DOMAIN, s, k + 1, |s|)
    decreases |s| - i
  {
    var n := |s|;
    if IsWord(s[i]) {
      m, k := ScannedLocal(s, i + 1);
    } else if s[i] == '@' {
      ScannedDomain(s, i + 1);
      m, k := i, i;
    } else {
      DeadStaysDead(s, i + 1, n);
      NeedsWord(LocalMark, s, i + 1);
      assert Run(LocalMark, s, i + 1, n) == Run(LocalWord, s, i + 2, n);
      var e;
      e, k := ScannedLocal(s, i + 2);
      MarkGroup(s, i, e);
      m := i;
      assert RepeatsOver(MARK_AND_WORDS, 0, None, s, i, e, k);
    }
  }

  lemma AcceptedIsMatch(s: string)
    requires Accepted(s)
    ensures Matches(EMAIL, s, 0, |s|)
  {
    NeedsWord(Begin, s, 0);
    var m, k := ScannedLocal(s, 1);
    WordsAreRuns(s, 0, m);
    assert Matches(Chars(At), s, k, k + 1);
    assert Matches(AT_DOMAIN, s, k, |s|);
    assert Matches(AFTER_FIRST_WORDS, s, m, |s|);
  }

  /** The pattern matches exactly the strings the one-pass scanner accepts. */
  lemma PatternIsScanner(s: string)
    ensures Validate(Some(s)) == None <==> Accepted(s)
  {
    if Accepted(s) { AcceptedIsMatch(s); }
    if Matches(EMAIL, s, 0, |s|) { MatchIsAccepted(s); }
  }

  // ---------------------------------------------------------------- in words

  /** The pieces of a text between its dots. */
  function Labels(s: string): (r: seq<string>)
    ensures |r| > 0
  {
    Split(s, '.')
  }

  /** Letters, digits, the underscore and the hyphen. */
  ghost predicate IsWordOrHyphen(c: char) {
    'a' <= c <= 'z' || 'A' <= c <= 'Z' || '0' <= c <= '9' || c in "_-"
  }

  ghost predicate IsPlusOrDot(c: char) {
    c in "+."
  }

  ghost predicate AllWords(s: string) {
    forall t :: 0 <= t < |s| ==> IsWordOrHyphen(s[t])
  }

  /** Word characters, hyphens, pluses and dots; no plus or dot at either end or next to another one. */
  ghost predicate IsLocalPart(s: string) {
    && s != [] && IsWordOrHyphen(s[0]) && IsWordOrHyphen(s[|s| - 1])
    && (forall t :: 0 <= t < |s| ==> IsWordOrHyphen(s[t]) || IsPlusOrDot(s[t]))
    && (forall t :: 0 <= t < |s| - 1 ==> !(IsPlusOrDot(s[t]) && IsPlusOrDot(s[t + 1])))
  }

  /** The classes of the pattern, character by character. */
  lemma ClassesAre(c: char)
    ensures InClass(c, Word) <==> IsWordOrHyphen(c)
    ensures InClass(c, WordOrMark) <==> IsWordOrHyphen(c) || IsPlusOrDot(c)
    ensures InClass(c, At) <==> c == '@'
    ensures InClass(c, Dot) <==> c == '.'
    ensures IsMark(c) <==> IsPlusOrDot(c)
  {
    assert IsPlusOrDot(c) <==> c == "+."[0] || c == "+."[1];
    assert c in "_-" <==> c == "_-"[0] || c == "_-"[1];
  }

  ghost predicate LabelsAreWords(ls: seq<string>) {
    forall i :: 0 <= i < |ls| ==> ls[i] != [] && AllWords(ls[i])
  }

  /** Two to four labels, none of them empty, all of word characters and hyphens. */
  ghost predicate IsDomain(s: string) {
    2 <= |Labels(s)| <= 4 && LabelsAreWords(Labels(s))
  }

  ghost predicate SplitsAt(s: string, a: nat) {
    && a < |s| && (forall t :: 0 <= t < |s| ==> (s[t] == '@' <==> t == a))
    && IsLocalPart(s[..a]) && IsDomain(s[a + 1..])
  }

  /** Scanning a text from inside a label, in terms of the labels of that text. */
  lemma {:induction false} LabelRun(s: string, dots: nat, i: nat)
    requires i <= |s| && dots <= 3
    ensures var ls, q := Labels(s[i..]), Run(Label(dots), s, i, |s|);
      && (q.Label? <==> AllWords(ls[0]) && LabelsAreWords(ls[1..]) && dots + |ls| <= 4)
      && (q.Label? ==> q.dots == dots + |ls| - 1)
    ensures var ls, q := Labels(s[i..]), Run(LabelBegin(dots), s, i, |s|);
      && (q.Label? <==> LabelsAreWords(ls) && dots + |ls| <= 4)
      && (q.Label? ==> q.dots == dots + |ls| - 1)
    decreases |s| - i
  {
    var ls := Labels(s[i..]);
    if i < |s| {
      assert s[i..][1..] == s[i + 1..] && s[i..][0] == s[i];
      var rest := Labels(s[i + 1..]);
      if s[i] == '.' {
        assert ls == [[]] + rest && ls[1..] == rest;
        if dots < 3 { LabelRun(s, dots + 1, i + 1); } else { DeadStaysDead(s, i + 1, |s|); }
        DeadStaysDead(s, i + 1, |s|);
        assert ls[0] == [];
      } else {
        assert ls[0] == [s[i]] + rest[0] && ls[1..] == rest[1..];
        LabelRun(s, dots, i + 1);
        assert AllWords(ls[0]) <==> IsWord(s[i]) && AllWords(rest[0]) by { ConsWords(s[i], rest[0]); }
        DeadStaysDead(s, i + 1, |s|);
        assert LabelsAreWords(ls) <==> AllWords(ls[0]) && LabelsAreWords(ls[1..]);
      }
    } else {
      assert ls == [[]];
    }
  }

  lemma ConsWords(c: char, s: string)
    ensures AllWords([c] + s) <==> IsWord(c) && AllWords(s)
  {
    if AllWords([c] + s) {
      assert ([c] + s)[0] == c;
      forall t | 0 <= t < |s| ensures IsWord(s[t]) { assert ([c] + s)[t + 1] == s[t]; }
    }
  }

  lemma DomainIsScanned(s: string, i: nat)
    requires i <= |s|
    ensures IsFinal(Run(LabelBegin(0), s, i, |s|)) <==> IsDomain(s[i..])
  {
    LabelRun(s, 0, i);
  }

  /** From inside a word, `s` goes on as a local part up to an at sign at `a`. */
  ghost predicate LocalTail(s: string, i: nat, a: nat) {
    && i <= a < |s| && s[a] == '@'
    && forall t :: i <= t < a ==> InTail(s, t, a)
  }

  ghost predicate InTail(s: string, t: nat, a: nat)
    requires t < a <= |s|
  {
    IsWord(s[t]) || (IsMark(s[t]) && t + 1 < a && IsWord(s[t + 1]))
  }

  lemma {:induction false} LocalRun(s: string, i: nat, a: nat)
    requires LocalTail(s, i, a)
    ensures Run(LocalWord, s, i, |s|) == Run(LabelBegin(0), s, a + 1, |s|)
    decreases a - i
  {
    if i < a {
      assert InTail(s, i, a);
      if IsWord(s[i]) {
        LocalRun(s, i + 1, a);
      } else {
        assert Run(LocalMark, s, i + 1, |s|) == Run(LocalWord, s, i + 2, |s|);
        LocalRun(s, i + 2, a);
      }
    }
  }

  lemma {:induction false} LocalEnds(s: string, i: nat) returns (a: nat)
    requires i <= |s| && IsFinal(Run(LocalWord, s, i, |s|))
    ensures LocalTail(s, i, a)
    decreases |s| - i
  {
    if IsWord(s[i]) {
      a := LocalEnds(s, i + 1);
    } else if s[i] == '@' {
      a := i;
    } else {
      DeadStaysDead(s, i + 1, |s|);
      NeedsWord(LocalMark, s, i + 1);
      assert Run(LocalMark, s, i + 1, |s|) == Run(LocalWord, s, i + 2, |s|);
      a := LocalEnds(s, i + 2);
    }
  }

  lemma {:induction false} NoAtInLabels(s: string, t: nat)
    requires t < |s| && LabelsAreWords(Labels(s))
    ensures s[t] != '@'
  {
    var rest := Labels(s[1..]);
    if s[0] == '.' {
      assert Labels(s)[1..] == rest;
      if t > 0 { NoAtInLabels(s[1..], t - 1); }
    } else {
      assert Labels(s)[0] == [s[0]] + rest[0] && Labels(s)[1..] == rest[1..];
      assert forall i :: 0 <= i < |rest| - 1 ==> rest[1..][i] == Labels(s)[i + 1];
      ConsWords(s[0], rest[0]);
      if t > 0 { NoAtInWords(s[1..], t - 1); }
    }
  }

  /** As `NoAtInLabels`, where the first label may be empty. */
  lemma {:induction false} NoAtInWords(s: string, t: nat)
    requires t < |s| && AllWords(Labels(s)[0]) && LabelsAreWords(Labels(s)[1..])
    ensures s[t] != '@'
  {
    var rest := Labels(s[1..]);
    if s[0] == '.' {
      assert Labels(s)[1..] == rest;
      if t > 0 { NoAtInLabels(s[1..], t - 1); }
    } else {
      assert Labels(s)[0] == [s[0]] + rest[0] && Labels(s)[1..] == rest[1..];
      ConsWords(s[0], rest[0]);
      if t > 0 { NoAtInWords(s[1..], t - 1); }
    }
  }

  lemma LocalPartIsTail(s: string, a: nat)
    requires a < |s| && s[a] == '@'
    ensures IsLocalPart(s[..a]) <==> a > 0 && IsWord(s[0]) && LocalTail(s, 1, a)
  {
    var l := s[..a];
    if IsLocalPart(l) {
      forall t | 1 <= t < a ensures InTail(s, t, a) {
        assert l[t] == s[t];
        if t + 1 < a { assert l[t + 1] == s[t + 1]; }
      }
    }
    if a > 0 && IsWord(s[0]) && LocalTail(s, 1, a) {
      assert l[0] == s[0] && l[a - 1] == s[a - 1] && (a > 1 ==> InTail(s, a - 1, a));
      forall t | 0 <= t < a ensures IsWord(l[t]) || IsMark(l[t]) {
        assert l[t] == s[t] && (t > 0 ==> InTail(s, t, a));
      }
      forall t | 0 <= t < a - 1 ensures !(IsMark(l[t]) && IsMark(l[t + 1])) {
        assert l[t] == s[t] && l[t + 1] == s[t + 1] && (t > 0 ==> InTail(s, t, a));
      }
    }
  }

  /**
   What the pattern accepts, in words: one at sign; before it a local part of word characters, hyphens, pluses
   and dots in which no plus or dot is first, last or next to another; after it two to four non-empty labels.
   */
  lemma ValidEmails(s: string)
    ensures Validate(Some(s)) == None <==> exists a: nat :: SplitsAt(s, a)
    ensures Validate(Some(s)) != None ==> Validate(Some(s)) == Some("Invalid email")
    ensures Validate(None) == Some("Empty email")
  {
    PatternIsScanner(s);
    if Accepted(s) {
      NeedsWord(Begin, s, 0);
      var a := LocalEnds(s, 1);
      LocalRun(s, 1, a);
      DomainIsScanned(s, a + 1);
      LocalPartIsTail(s, a);
      LabelRun(s, 0, a + 1);
      forall t | 0 <= t < |s| ensures s[t] == '@' <==> t == a {
        if t > a { NoAtInLabels(s[a + 1..], t - a - 1); }
      }
      assert SplitsAt(s, a);
    }
    if a: nat :| SplitsAt(s, a) {
      LocalPartIsTail(s, a);
      LocalRun(s, 1, a);
      DomainIsScanned(s, a + 1);
    }
  }
}
