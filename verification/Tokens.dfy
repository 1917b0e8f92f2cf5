/** The words of a command line, and the parser that cuts them out in place. */
module Tokens {
  import opened Bytes

  const BUFFER_SIZE: nat := 256
  const MAX_ARGS: nat := 16
  const NULL: int := -1

  predicate Blank(c: byte) {
    c == 0x20 || c == 0x09
  }

  predicate AllBlank(s: seq<byte>) {
    forall i | 0 <= i < |s| :: Blank(s[i])
  }

  predicate NoBlank(s: seq<byte>) {
    forall i | 0 <= i < |s| :: !Blank(s[i])
  }

  /** Length of the longest prefix without blanks. */
  function WordLength(s: seq<byte>): (n: nat)
    ensures n <= |s| && NoBlank(s[..n]) && (n < |s| ==> Blank(s[n]))
  {
    if s == [] || Blank(s[0]) then 0
    else
      var n := 1 + WordLength(s[1..]);
      assert s[..n] == [s[0]] + s[1..][..n - 1];
      n
  }

  /** The maximal non-blank words of a text. */
  function Words(s: seq<byte>): (w: seq<seq<byte>>)
    decreases |s|
  {
    if s == [] then []
    else if Blank(s[0]) then Words(s[1..])
    else [s[..WordLength(s)]] + Words(s[WordLength(s)..])
  }

  /** What the parser finds when it may still start k words: the last one is not cut. */
  function Args(s: seq<byte>, k: nat): (a: seq<seq<byte>>)
    ensures |a| <= k
    decreases |s|
  {
    if s == [] || k == 0 then []
    else if Blank(s[0]) then Args(s[1..], k)
    else if k == 1 then [s]
    else [s[..WordLength(s)]] + Args(s[WordLength(s)..], k - 1)
  }

  // ----- what the words are

  /** gaps[0] words[0] gaps[1] words[1] ... and the last gap. */
  function Spelled(words: seq<seq<byte>>, gaps: seq<seq<byte>>): seq<byte>
    requires |gaps| == |words| + 1
  {
    if words == [] then gaps[0]
    else gaps[0] + (words[0] + Spelled(words[1..], gaps[1..]))
  }

  /** Words are not empty and have no blanks; gaps are blank, and those between words are not
      empty. */
  predicate Spelling(words: seq<seq<byte>>, gaps: seq<seq<byte>>) {
    && |gaps| == |words| + 1
    && (forall i | 0 <= i < |words| :: words[i] != [] && NoBlank(words[i]))
    && (forall i | 0 <= i < |gaps| :: AllBlank(gaps[i]))
    && (forall i | 0 < i < |words| :: gaps[i] != [])
  }

  lemma {:induction false} SkipBlanks(g: seq<byte>, s: seq<byte>)
    requires AllBlank(g)
    ensures Words(g + s) == Words(s)
    decreases |g|
  {
    if g == [] {
      assert g + s == s;
    } else {
      SkipBlanks(g[1..], s);
      assert (g + s)[1..] == g[1..] + s;
    }
  }

  lemma {:induction false} WordThenBlank(w: seq<byte>, s: seq<byte>)
    requires NoBlank(w) && (s == [] || Blank(s[0]))
    ensures WordLength(w + s) == |w|
    decreases |w|
  {
    if w == [] {
      assert w + s == s;
    } else {
      WordThenBlank(w[1..], s);
      assert (w + s)[1..] == w[1..] + s;
    }
  }

  /** Whatever words a line was written with, and however they were spaced, they are found. */
  lemma {:induction false} WordsOfSpelled(words: seq<seq<byte>>, gaps: seq<seq<byte>>)
    requires Spelling(words, gaps)
    ensures Words(Spelled(words, gaps)) == words
    decreases |words|
  {
    if words == [] {
      SkipBlanks(gaps[0], []);
      assert gaps[0] + [] == gaps[0];
    } else {
      var w, tail := words[0], Spelled(words[1..], gaps[1..]);
      WordsOfSpelled(words[1..], gaps[1..]);
      SkipBlanks(gaps[0], w + tail);
      SpelledStart(words[1..], gaps[1..]);
      WordThenBlank(w, tail);
      assert (w + tail)[..|w|] == w && (w + tail)[|w|..] == tail;
      assert !Blank((w + tail)[0]);
    }
  }

  lemma SpelledStart(words: seq<seq<byte>>, gaps: seq<seq<byte>>)
    requires |gaps| == |words| + 1 && AllBlank(gaps[0]) && (words != [] ==> gaps[0] != [])
    ensures var s := Spelled(words, gaps); s == [] || Blank(s[0])
  {
  }

  /** The gaps around the words of a text. */
  function Gaps(s: seq<byte>): (g: seq<seq<byte>>)
    ensures |g| == |Words(s)| + 1
    decreases |s|
  {
    if s == [] then [[]]
    else if Blank(s[0]) then
      var g := Gaps(s[1..]);
      [[s[0]] + g[0]] + g[1..]
    else [[]] + Gaps(s[WordLength(s)..])
  }

  ghost predicate IsSpelled(s: seq<byte>) {
    Spelling(Words(s), Gaps(s)) && Spelled(Words(s), Gaps(s)) == s
  }

  /** Every text is spelled by its words and its gaps. */
  lemma {:induction false} EveryTextIsSpelled(s: seq<byte>)
    ensures IsSpelled(s)
    decreases |s|
  {
    if s != [] {
      WordsStep(s);
      if Blank(s[0]) {
        EveryTextIsSpelled(s[1..]);
        BlankIsSpelled(s);
      } else {
        EveryTextIsSpelled(s[WordLength(s)..]);
        WordIsSpelled(s);
      }
      hide IsSpelled;
    }
  }

  lemma BlankIsSpelled(s: seq<byte>)
    requires s != [] && Blank(s[0]) && IsSpelled(s[1..])
    ensures IsSpelled(s)
  {
    GapsStep(s);
    WordsStep(s);
    hide Words, Gaps, Spelling, Spelled, WordLength, Blank;
    BlankFirst(s[0], Words(s[1..]), Gaps(s[1..]));
    assert s == [s[0]] + s[1..];
  }

  lemma WordIsSpelled(s: seq<byte>)
    requires s != [] && !Blank(s[0]) && WordLength(s) <= |s| && IsSpelled(s[WordLength(s)..])
    ensures IsSpelled(s)
  {
    hide Words, Gaps, Spelling, Spelled, WordLength, Blank, NoBlank;
    GapsStep(s);
    WordsStep(s);
    var n := WordLength(s);
    NextGap(s, n, s[n..]);
    WordFirst(s[..n], Words(s[n..]), Gaps(s[n..]));
    assert s == s[..n] + s[n..];
  }

  lemma NextGap(s: seq<byte>, n: nat, t: seq<byte>)
    requires n <= |s| && (n < |s| ==> Blank(s[n])) && t == s[n..]
    ensures Words(t) != [] ==> Gaps(t)[0] != []
  {
    NoWords(t);
    hide Words, Gaps, Blank;
    if n < |s| {
      assert t[0] == s[n];
      FirstGap(t);
    }
  }

  lemma NoWords(s: seq<byte>)
    ensures s == [] ==> Words(s) == []
  {
  }

  lemma GapsStep(s: seq<byte>)
    requires s != []
    ensures Gaps(s) == if Blank(s[0]) then [[s[0]] + Gaps(s[1..])[0]] + Gaps(s[1..])[1..]
                       else [[]] + Gaps(s[WordLength(s)..])
  {
  }

  lemma BlankFirst(c: byte, words: seq<seq<byte>>, gaps: seq<seq<byte>>)
    requires Blank(c) && Spelling(words, gaps)
    ensures var gaps' := [[c] + gaps[0]] + gaps[1..];
            Spelling(words, gaps') && Spelled(words, gaps') == [c] + Spelled(words, gaps)
  {
    var gaps' := [[c] + gaps[0]] + gaps[1..];
    assert gaps'[1..] == gaps[1..];
  }

  lemma WordFirst(w: seq<byte>, words: seq<seq<byte>>, gaps: seq<seq<byte>>)
    requires w != [] && NoBlank(w) && Spelling(words, gaps) && (words != [] ==> gaps[0] != [])
    ensures var words', gaps' := [w] + words, [[]] + gaps;
            Spelling(words', gaps') && Spelled(words', gaps') == w + Spelled(words, gaps)
  {
    var words', gaps' := [w] + words, [[]] + gaps;
    assert words'[1..] == words && gaps'[1..] == gaps;
  }

  lemma FirstGap(s: seq<byte>)
    requires s == [] || Blank(s[0])
    ensures Words(s) != [] ==> Gaps(s)[0] != []
  {
  }

  /** Where word j starts. */
  function WordStart(s: seq<byte>, j: nat): (p: nat)
    requires j < |Words(s)|
    ensures p < |s| && !Blank(s[p])
    decreases |s|
  {
    if Blank(s[0]) then 1 + WordStart(s[1..], j)
    else if j == 0 then 0
    else WordLength(s) + WordStart(s[WordLength(s)..], j - 1)
  }

  lemma StartStep(s: seq<byte>, j: nat)
    requires j < |Words(s)|
    ensures s != []
    ensures Blank(s[0]) ==> j < |Words(s[1..])| && WordStart(s, j) == 1 + WordStart(s[1..], j)
    ensures !Blank(s[0]) && j == 0 ==> WordStart(s, j) == 0
    ensures !Blank(s[0]) && j > 0 ==>
              && j - 1 < |Words(s[WordLength(s)..])|
              && WordStart(s, j) == WordLength(s) + WordStart(s[WordLength(s)..], j - 1)
  {
  }

  lemma WordsStep(s: seq<byte>)
    requires s != []
    ensures WordLength(s) <= |s| && (!Blank(s[0]) ==> WordLength(s) > 0)
    ensures Words(s) == if Blank(s[0]) then Words(s[1..]) else [s[..WordLength(s)]] + Words(s[WordLength(s)..])
  {
  }

  lemma ArgsStep(s: seq<byte>, k: nat)
    requires s != [] && k > 0
    ensures Args(s, k) == if Blank(s[0]) then Args(s[1..], k) else if k == 1 then [s]
                          else [s[..WordLength(s)]] + Args(s[WordLength(s)..], k - 1)
  {
  }

  /** The words from where word j starts on. */
  function Later(s: seq<byte>, j: nat): seq<seq<byte>>
    requires j < |Words(s)|
  {
    Words(s[WordStart(s, j)..])
  }

  /** They are the words from j on. */
  lemma {:induction false} WordsFromStart(s: seq<byte>, j: nat)
    requires j < |Words(s)|
    ensures Later(s, j) == Words(s)[j..]
    decreases |s|
  {
    hide Words, WordLength, Later, WordStart, NoBlank;
    StartStep(s, j);
    WordsStep(s);
    if Blank(s[0]) {
      WordsFromStart(s[1..], j);
      LaterBlank(s, j);
    } else if j == 0 {
      LaterFirst(s);
    } else {
      WordsFromStart(s[WordLength(s)..], j - 1);
      LaterWord(s, WordLength(s), s[WordLength(s)..], j);
      ConsDrop(s[..WordLength(s)], Words(s[WordLength(s)..]), j - 1);
    }
  }

  lemma LaterBlank(s: seq<byte>, j: nat)
    requires s != [] && Blank(s[0]) && j < |Words(s)| && j < |Words(s[1..])|
    ensures Later(s, j) == Later(s[1..], j)
  {
    StartStep(s, j);
    hide Words, WordStart;
    SliceAgain(s, 1, WordStart(s[1..], j));
  }

  lemma LaterFirst(s: seq<byte>)
    requires s != [] && !Blank(s[0]) && Words(s) != []
    ensures Later(s, 0) == Words(s)[0..]
  {
    StartStep(s, 0);
    hide Words, WordStart;
    assert s[0..] == s && Words(s)[0..] == Words(s);
  }

  lemma LaterWord(s: seq<byte>, n: nat, t: seq<byte>, j: nat)
    requires n <= |s| && t == s[n..] && 0 < j < |Words(s)| && j - 1 < |Words(t)|
    requires WordStart(s, j) == n + WordStart(t, j - 1)
    ensures Later(s, j) == Later(t, j - 1)
  {
    hide Words, WordStart, WordLength;
    SliceAgain(s, n, WordStart(t, j - 1));
  }

  /** The word list with the last word that fits replaced by the rest of the text. */
  function Capped(s: seq<byte>, k: nat): seq<seq<byte>>
    requires k > 0
  {
    if |Words(s)| < k then Words(s) else Words(s)[..k - 1] + [s[WordStart(s, k - 1)..]]
  }

  /** With room for more words than there are, the parser finds all of them; otherwise it finds
      all but the last one there is room for, and then the rest of the line from there on. */
  lemma {:induction false} ArgsAreWords(s: seq<byte>, k: nat)
    requires k > 0
    ensures Args(s, k) == Capped(s, k)
    decreases |s|
  {
    if s == [] {
      assert Args(s, k) == [] == Capped(s, k);
    } else {
      ArgsStep(s, k);
      WordsStep(s);
    }
    hide Words, WordLength, WordStart, Args, Capped;
    if s != [] {
      if Blank(s[0]) {
        CappedBlank(s, k);
        ArgsAreWords(s[1..], k);
      } else if k == 1 {
        CappedOne(s);
      } else {
        CappedWord(s, k);
        ArgsAreWords(s[WordLength(s)..], k - 1);
      }
    }
  }

  lemma CappedBlank(s: seq<byte>, k: nat)
    requires s != [] && Blank(s[0]) && k > 0
    ensures Capped(s, k) == Capped(s[1..], k)
  {
    WordsStep(s);
    if |Words(s)| >= k {
      StartStep(s, k - 1);
      SliceAgain(s, 1, WordStart(s[1..], k - 1));
    }
    hide Words, WordStart, WordLength;
  }

  lemma CappedOne(s: seq<byte>)
    requires s != [] && !Blank(s[0])
    ensures Capped(s, 1) == [s]
  {
    WordsStep(s);
    StartStep(s, 0);
    hide Words, WordStart, WordLength;
    assert s[0..] == s;
  }

  lemma CappedWord(s: seq<byte>, k: nat)
    requires s != [] && !Blank(s[0]) && k > 1
    ensures Capped(s, k) == [s[..WordLength(s)]] + Capped(s[WordLength(s)..], k - 1)
  {
    hide Words, WordStart, WordLength, Blank, Capped;
    WordsStep(s);
    var n := WordLength(s);
    CappedIs(s, k);
    CappedIs(s[n..], k - 1);
    if |Words(s)| >= k {
      StartStep(s, k - 1);
      SliceAgain(s, n, WordStart(s[n..], k - 2));
      CappedCons(Words(s), s[..n], Words(s[n..]), k, s[WordStart(s, k - 1)..], Capped(s, k), Capped(s[n..], k - 1));
    }
  }

  lemma CappedCons(words: seq<seq<byte>>, w: seq<byte>, more: seq<seq<byte>>, k: nat, rest: seq<byte>,
                   c: seq<seq<byte>>, d: seq<seq<byte>>)
    requires words == [w] + more && 1 < k <= |words|
    requires c == words[..k - 1] + [rest] && d == more[..k - 2] + [rest]
    ensures c == [w] + d
  {
    ConsCapped(w, more, k - 2, rest);
  }

  lemma CappedIs(s: seq<byte>, k: nat)
    requires k > 0
    ensures Capped(s, k) == if |Words(s)| < k then Words(s) else Words(s)[..k - 1] + [s[WordStart(s, k - 1)..]]
  {
    hide Words, WordStart;
  }

  lemma ConsCapped(w: seq<byte>, words: seq<seq<byte>>, n: nat, rest: seq<byte>)
    requires n <= |words|
    ensures ([w] + words)[..n + 1] + [rest] == [w] + (words[..n] + [rest])
  {
    ConsPrefix(w, words, n);
    Regroup([w], words[..n], [rest]);
  }

  lemma ConsDrop(w: seq<byte>, words: seq<seq<byte>>, n: nat)
    requires n <= |words|
    ensures ([w] + words)[n + 1..] == words[n..]
  {
  }

  lemma SliceAgain(s: seq<byte>, a: nat, b: nat)
    requires a <= |s| && b <= |s[a..]|
    ensures s[a..][b..] == s[a + b..]
  {
  }

  lemma ConsPrefix(w: seq<byte>, words: seq<seq<byte>>, n: nat)
    requires n <= |words|
    ensures ([w] + words)[..n + 1] == [w] + words[..n]
  {
  }

  // ----- the parser

  function Zero(b: seq<byte>, p: nat): (z: nat)
    requires p <= |b|
    ensures p <= z <= |b| && (z < |b| ==> b[z] == 0) && forall i | p <= i < z :: b[i] != 0
    decreases |b| - p
  {
    if p == |b| || b[p] == 0 then p else Zero(b, p + 1)
  }

  /** The zero-terminated string at offset p. */
  function StringAt(b: seq<byte>, p: nat): seq<byte>
    requires p <= |b|
  {
    b[p..Zero(b, p)]
  }

  lemma StringIs(b: seq<byte>, p: nat, z: nat)
    requires p <= z < |b| && b[z] == 0 && forall i | p <= i < z :: b[i] != 0
    ensures StringAt(b, p) == b[p..z]
  {
    assert Zero(b, p) == z;
  }

  /** The first pointers are to the strings of a. */
  ghost predicate PointTo(argv: seq<int>, b: seq<byte>, a: seq<seq<byte>>) {
    |a| <= |argv| && forall j | 0 <= j < |a| :: 0 <= argv[j] <= |b| && StringAt(b, argv[j]) == a[j]
  }

  /** The first pointers are to the strings of a, whose terminators all are in b. */
  ghost predicate Finished(argv: seq<int>, b: seq<byte>, a: seq<seq<byte>>) {
    && |a| <= |argv|
    && forall j | 0 <= j < |a| :: 0 <= argv[j] <= |b| && Zero(b, argv[j]) < |b| && StringAt(b, argv[j]) == a[j]
  }

  lemma FinishedGrows(argv: seq<int>, argv': seq<int>, b: seq<byte>, more: seq<byte>, a: seq<seq<byte>>)
    requires Finished(argv, b, a) && |a| <= |argv'| && forall j | 0 <= j < |a| :: argv'[j] == argv[j]
    ensures Finished(argv', b + more, a)
  {
    forall j | 0 <= j < |a|
      ensures 0 <= argv'[j] <= |b + more| && Zero(b + more, argv'[j]) < |b + more|
      ensures StringAt(b + more, argv'[j]) == a[j]
    {
      StillThere(b, more, argv[j]);
    }
  }

  lemma StillThere(b: seq<byte>, more: seq<byte>, q: nat)
    requires q <= |b| && Zero(b, q) < |b|
    ensures Zero(b + more, q) == Zero(b, q) && StringAt(b + more, q) == StringAt(b, q)
  {
    var z := Zero(b, q);
    StringIs(b + more, q, z);
    assert (b + more)[q..z] == b[q..z];
  }

  lemma FinishedOneMore(argv: seq<int>, b: seq<byte>, a: seq<seq<byte>>, w: seq<byte>)
    requires |a| < |argv| && 0 <= argv[|a|] <= |b| && Zero(b, argv[|a|]) < |b| && StringAt(b, argv[|a|]) == w
    requires Finished(argv, b, a)
    ensures Finished(argv, b, a + [w])
  {
    hide Zero, StringAt;
  }

  predicate NoZero(s: seq<byte>) {
    forall i | 0 <= i < |s| :: s[i] != 0
  }

  /** The parser at index i: the words done are finished, a word that starts at p may be under
      way, and the line from p on has not been dealt with yet. */
  ghost predicate Parsing(text: seq<byte>, b: seq<byte>, argv: seq<int>, done: seq<seq<byte>>, argc: nat,
                          inWord: bool, p: nat, i: nat) {
    && |b| == BUFFER_SIZE && |argv| == MAX_ARGS && p <= i <= |text| < BUFFER_SIZE && NoZero(text)
    && b[p..|text| + 1] == text[p..] + [0]
    && argc == |done| + (if inWord then 1 else 0)
    && (if inWord then p < i && argc < MAX_ARGS && argv[|done|] == p && NoBlank(text[p..i])
        else p == i && argc < MAX_ARGS - 1)
    && Finished(argv, b[..p], done)
    && Args(text, MAX_ARGS - 1) == done + Args(text[p..], MAX_ARGS - 1 - |done|)
  }

  lemma ParseStarts(text: seq<byte>, b: seq<byte>, argv: seq<int>)
    requires |b| == BUFFER_SIZE && |argv| == MAX_ARGS && |text| < BUFFER_SIZE && NoZero(text)
    requires b[..|text| + 1] == text + [0]
    ensures Parsing(text, b, argv, [], 0, false, 0, 0)
  {
    hide Args;
    assert text[0..] == text && b[0..|text| + 1] == b[..|text| + 1];
  }

  /** What the loop sees at index i. */
  lemma ParseLooks(text: seq<byte>, b: seq<byte>, argv: seq<int>, done: seq<seq<byte>>, argc: nat, inWord: bool,
                   p: nat, i: nat)
    requires Parsing(text, b, argv, done, argc, inWord, p, i)
    ensures p <= i <= |text| < |b| == BUFFER_SIZE && argc < |argv| == MAX_ARGS
    ensures if i < |text| then b[i] == text[i] != 0 else b[i] == 0
    ensures !inWord ==> p == i && argc < MAX_ARGS - 1
  {
    hide Args, Finished;
    assert (text[p..] + [0])[i - p] == b[p..|text| + 1][i - p] == b[i];
  }

  lemma ParseSkips(text: seq<byte>, b: seq<byte>, argv: seq<int>, done: seq<seq<byte>>, argc: nat, i: nat)
    requires Parsing(text, b, argv, done, argc, false, i, i) && i < |text| && Blank(text[i])
    ensures Parsing(text, b, argv, done, argc, false, i + 1, i + 1)
  {
    hide Args, Zero, StringAt, Blank;
    BlankStep(text, i, MAX_ARGS - 1 - argc);
    Advanced(text, b, i);
    FinishedGrows(argv, argv, b[..i], [b[i]], done);
    assert b[..i] + [b[i]] == b[..i + 1];
  }

  lemma Advanced(text: seq<byte>, b: seq<byte>, p: nat)
    requires p < |text| < |b| && b[p..|text| + 1] == text[p..] + [0]
    ensures b[p + 1..|text| + 1] == text[p + 1..] + [0]
  {
    assert b[p + 1..|text| + 1] == b[p..|text| + 1][1..];
    assert text[p + 1..] + [0] == (text[p..] + [0])[1..];
  }

  lemma ParseStartsWord(text: seq<byte>, b: seq<byte>, argv: seq<int>, done: seq<seq<byte>>, argc: nat, i: nat)
    requires Parsing(text, b, argv, done, argc, false, i, i) && i < |text| && !Blank(text[i])
    ensures Parsing(text, b, argv[argc := i], done, argc + 1, true, i, i + 1)
  {
    hide Args, Zero, StringAt;
    FinishedGrows(argv, argv[argc := i], b[..i], [], done);
    assert b[..i] + [] == b[..i];
  }

  lemma ParseInWord(text: seq<byte>, b: seq<byte>, argv: seq<int>, done: seq<seq<byte>>, argc: nat, p: nat, i: nat)
    requires Parsing(text, b, argv, done, argc, true, p, i) && i < |text| && !Blank(text[i])
    ensures Parsing(text, b, argv, done, argc, true, p, i + 1)
  {
    hide Args, Finished;
    assert text[p..i + 1] == text[p..i] + [text[i]];
  }

  /** The word from p to i and the rest of the line. */
  lemma CutWord(text: seq<byte>, p: nat, i: nat, k: nat)
    requires p < i <= |text| && NoBlank(text[p..i]) && (i < |text| ==> Blank(text[i])) && k > 0
    ensures k > 1 ==> Args(text[p..], k) == [text[p..i]] + Args(text[i..], k - 1)
    ensures i == |text| ==> Args(text[p..], k) == [text[p..]]
    ensures k == 1 ==> Args(text[p..], k) == [text[p..]]
  {
    WordThenBlank(text[p..i], text[i..]);
    ArgsStep(text[p..], k);
    assert text[p..i][0] == text[p];
    assert text[p..i] + text[i..] == text[p..];
    assert text[p..][i - p..] == text[i..] && text[p..][..i - p] == text[p..i];
    if i == |text| && k > 1 { NoneLeft(text[i..], k - 1); }
    assert i == |text| ==> text[p..i] == text[p..];
    hide WordLength, NoBlank, Args;
  }

  lemma ParseEndsWord(text: seq<byte>, b: seq<byte>, argv: seq<int>, done: seq<seq<byte>>, argc: nat, p: nat, i: nat)
    requires Parsing(text, b, argv, done, argc, true, p, i) && i < |text| && Blank(text[i]) && argc < MAX_ARGS - 1
    ensures Parsing(text, b[i := 0], argv, done + [text[p..i]], argc, false, i + 1, i + 1)
  {
    EndsArgs(text, done, p, i);
    hide Args, Zero, StringAt, NoBlank, Finished, NoZero;
    WordInBuffer(text, b, p, i);
    EndsFinished(argv, b, done, text[p..i], p, i);
  }

  lemma EndsArgs(text: seq<byte>, done: seq<seq<byte>>, p: nat, i: nat)
    requires p < i < |text| && NoBlank(text[p..i]) && Blank(text[i]) && |done| < MAX_ARGS - 2
    requires Args(text, MAX_ARGS - 1) == done + Args(text[p..], MAX_ARGS - 1 - |done|)
    ensures Args(text, MAX_ARGS - 1) == (done + [text[p..i]]) + Args(text[i + 1..], MAX_ARGS - 2 - |done|)
  {
    hide Args, NoBlank, Blank;
    CutWord(text, p, i, MAX_ARGS - 1 - |done|);
    BlankStep(text, i, MAX_ARGS - 2 - |done|);
    Regroup(done, [text[p..i]], Args(text[i + 1..], MAX_ARGS - 2 - |done|));
  }

  lemma BlankStep(text: seq<byte>, i: nat, k: nat)
    requires i < |text| && Blank(text[i]) && k > 0
    ensures Args(text[i..], k) == Args(text[i + 1..], k)
  {
    hide Args, Blank;
    var t := text[i..];
    assert t[0] == text[i] && t[1..] == text[i + 1..];
    ArgsStep(t, k);
  }

  lemma EndsFinished(argv: seq<int>, b: seq<byte>, done: seq<seq<byte>>, w: seq<byte>, p: nat, i: nat)
    requires p <= i < |b| && |done| < |argv| && argv[|done|] == p && b[p..i] == w && NoZero(w)
    requires Finished(argv, b[..p], done)
    ensures Finished(argv, b[i := 0][..i + 1], done + [w])
  {
    hide Zero, StringAt, Finished, NoZero;
    FinishedGrows(argv, argv, b[..p], w + [0], done);
    assert b[i := 0][..i + 1] == b[..p] + (w + [0]);
    WordFinished(b[..p], w, argv[|done|]);
    FinishedOneMore(argv, b[..p] + (w + [0]), done, w);
  }

  /** The bytes of the word under way, and the rest behind its terminator. */
  lemma WordInBuffer(text: seq<byte>, b: seq<byte>, p: nat, i: nat)
    requires p <= i < |text| < |b| && b[p..|text| + 1] == text[p..] + [0] && NoZero(text)
    ensures b[p..i] == text[p..i] && NoZero(text[p..i])
    ensures b[i := 0][i + 1..|text| + 1] == text[i + 1..] + [0]
  {
    var n := |text| + 1;
    assert b[p..i] == b[p..n][..i - p] && text[p..i] == (text[p..] + [0])[..i - p];
    assert b[i := 0][i + 1..n] == b[p..n][i + 1 - p..] && text[i + 1..] + [0] == (text[p..] + [0])[i + 1 - p..];
  }

  lemma WordFinished(front: seq<byte>, w: seq<byte>, q: int)
    requires NoZero(w) && q == |front|
    ensures var b := front + (w + [0]); Zero(b, q) < |b| && StringAt(b, q) == w
  {
    var b := front + (w + [0]);
    StringIs(b, q, q + |w|);
    assert b[q..q + |w|] == w;
  }

  /** When the loop stops, the pointers are to what is to be found. */
  lemma ParseEnds(text: seq<byte>, b: seq<byte>, argv: seq<int>, done: seq<seq<byte>>, argc: nat, inWord: bool,
                  p: nat, i: nat)
    requires Parsing(text, b, argv, done, argc, inWord, p, i) && (i == |text| || argc == MAX_ARGS - 1)
    ensures var a := Args(text, MAX_ARGS - 1);
            argc == |a| < MAX_ARGS && PointTo(argv[argc := NULL], b, a)
  {
    hide Args, Zero, NoBlank, StringAt, Blank, NoZero;
    var a, k, v := Args(text, MAX_ARGS - 1), MAX_ARGS - 1 - |done|, argv[argc := NULL];
    FinishedGrows(argv, v, b[..p], b[p..], done);
    assert b[..p] + b[p..] == b;
    if inWord {
      if i == |text| { CutWord(text, p, i, k); } else { OneLeft(text, p, i); }
      LastString(text, b, p);
      assert a == done + [text[p..]];
    } else {
      NoneLeft(text[p..], k);
      assert a == done + [];
    }
  }

  lemma OneLeft(text: seq<byte>, p: nat, i: nat)
    requires p < i <= |text| && NoBlank(text[p..i])
    ensures Args(text[p..], 1) == [text[p..]]
  {
    assert text[p..i][0] == text[p] == text[p..][0];
    ArgsStep(text[p..], 1);
    hide Args, WordLength;
  }

  lemma NoneLeft(s: seq<byte>, k: nat)
    requires s == []
    ensures Args(s, k) == []
  {
  }

  lemma LastString(text: seq<byte>, b: seq<byte>, p: nat)
    requires p <= |text| < |b| && b[p..|text| + 1] == text[p..] + [0] && NoZero(text)
    ensures StringAt(b, p) == text[p..]
  {
    var n := |text|;
    forall k | p <= k <= n ensures b[k] == (text + [0])[k] {
      assert b[p..n + 1][k - p] == (text[p..] + [0])[k - p];
    }
    StringIs(b, p, n);
    assert b[p..n] == text[p..];
  }

  /** shell_parse_command: cuts a copy of the line into at most 15 strings. */
  method Parse(input: seq<byte>, localBuffer: array<byte>, argv: array<int>) returns (argc: nat)
    requires NoZero(input) && localBuffer.Length == BUFFER_SIZE && argv.Length == MAX_ARGS
    modifies localBuffer, argv
    ensures var a := Args(input[..Min(|input|, BUFFER_SIZE - 1)], MAX_ARGS - 1);
            argc == |a| < MAX_ARGS && PointTo(argv[..], localBuffer[..], a) && argv[argc] == NULL
  {
    hide Parsing, Args, PointTo;
    ghost var text := input[..Min(|input|, BUFFER_SIZE - 1)];
    CopyLine(input, localBuffer);
    ParseStarts(text, localBuffer[..], argv[..]);
    var i, inWord := 0, false;
    argc := 0;
    ghost var done, p := [], 0;
    ParseLooks(text, localBuffer[..], argv[..], done, argc, inWord, p, i);
    while localBuffer[i] != 0 && argc < MAX_ARGS - 1
      invariant i <= |text| < BUFFER_SIZE && argc < MAX_ARGS && (localBuffer[i] == 0 <==> i == |text|)
      invariant Parsing(text, localBuffer[..], argv[..], done, argc, inWord, p, i)
      decreases |text| - i
    {
      done, p, argc, inWord := ParseByte(text, localBuffer, argv, done, argc, inWord, p, i);
      i := i + 1;
      ParseLooks(text, localBuffer[..], argv[..], done, argc, inWord, p, i);
    }
    ParseEnds(text, localBuffer[..], argv[..], done, argc, inWord, p, i);
    argv[argc] := NULL;
  }

  method CopyLine(input: seq<byte>, localBuffer: array<byte>)
    requires localBuffer.Length == BUFFER_SIZE
    modifies localBuffer
    ensures var text := input[..Min(|input|, BUFFER_SIZE - 1)];
            localBuffer[..][..|text| + 1] == text + [0]
  {
    var i := 0;
    while i < |input| && i < BUFFER_SIZE - 1
      invariant i <= |input| && i <= BUFFER_SIZE - 1 && localBuffer[..i] == input[..i]
    {
      localBuffer[i] := input[i];
      i := i + 1;
    }
    localBuffer[i] := 0;
  }

  /** The body of the parsing loop. */
  method ParseByte(ghost text: seq<byte>, localBuffer: array<byte>, argv: array<int>, ghost done: seq<seq<byte>>,
                   argc: nat, inWord: bool, ghost p: nat, i: nat)
      returns (ghost done': seq<seq<byte>>, ghost p': nat, argc': nat, inWord': bool)
    requires localBuffer.Length == BUFFER_SIZE && argv.Length == MAX_ARGS && i < |text| < BUFFER_SIZE
    requires argc < MAX_ARGS - 1
    requires Parsing(text, localBuffer[..], argv[..], done, argc, inWord, p, i)
    modifies localBuffer, argv
    ensures Parsing(text, localBuffer[..], argv[..], done', argc', inWord', p', i + 1)
  {
    hide Parsing, Args;
    done', p', argc', inWord' := done, p, argc, inWord;
    ghost var b, v := localBuffer[..], argv[..];
    ParseLooks(text, b, v, done, argc, inWord, p, i);
    if !Blank(localBuffer[i]) {
      if !inWord {
        ParseStartsWord(text, b, v, done, argc, i);
        argv[argc] := i;
        argc', inWord' := argc + 1, true;
      } else {
        ParseInWord(text, b, v, done, argc, p, i);
      }
    } else {
      if inWord {
        ParseEndsWord(text, b, v, done, argc, p, i);
        localBuffer[i] := 0;
        inWord', done', p' := false, done + [text[p..i]], i + 1;
      } else {
        ParseSkips(text, b, v, done, argc, i);
        p' := i + 1;
      }
    }
  }
}
