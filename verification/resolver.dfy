/**
 * The paragraph resolver: classify every character of a paragraph, tally
 * the classes in a fixed eleven-slot ranking, stop early once the class of
 * the character just read holds more than half of the paragraph, and
 * otherwise take the most frequent class. The resolved script decides the
 * font and the paragraph direction; the language comes from a detector.
 */
module Resolver {
  import opened Wrappers
  import opened Scripts

  datatype Direction = LTR | RTL

  /** How many of the classes `c` are `k`. */
  function Count(c: seq<nat>, k: nat): (n: nat)
    ensures n <= |c|
  {
    if c == [] then 0 else Count(c[..|c| - 1], k) + (if c[|c| - 1] == k then 1 else 0)
  }

  /** The ranking array after the whole paragraph has been tallied. */
  function Ranking(c: seq<nat>): (r: seq<int>)
    ensures |r| == NSupportedScripts
  {
    seq(NSupportedScripts, k requires 0 <= k < NSupportedScripts => Count(c, k))
  }

  /** The early exit of the tally loop, from position `l` on: the class of the
      first character, at a position past half of the paragraph, whose class
      has by then been counted more than half as many times as there are
      characters. */
  function EarlyExitFrom(c: seq<nat>, l: nat): (r: Option<nat>)
    ensures r.Some? ==> r.value in c
    decreases |c| - l
  {
    if l >= |c| then None
    else if |c| / 2 < l && |c| / 2 < Count(c[..l + 1], c[l]) then Some(c[l])
    else EarlyExitFrom(c, l + 1)
  }

  /** The early exit fires at some position past half of the paragraph,
      where its class has been counted more than half as many times as the
      paragraph is long. */
  lemma {:induction false} EarlyExitWitness(c: seq<nat>, l: nat)
    requires EarlyExitFrom(c, l).Some?
    ensures exists m :: (l <= m < |c| && c[m] == EarlyExitFrom(c, l).value
                         && |c| / 2 < m && |c| / 2 < Count(c[..m + 1], c[m]))
    decreases |c| - l
  {
    if !(|c| / 2 < l && |c| / 2 < Count(c[..l + 1], c[l])) {
      EarlyExitWitness(c, l + 1);
    }
  }

  /** What the external maxIndex helper is taken to do: answer an index of a
      largest element of a non-empty ranking. */
  ghost predicate IsArgmax(maxIndex: seq<int> -> nat) {
    forall s: seq<int> :: |s| > 0 ==>
      maxIndex(s) < |s| && forall k :: 0 <= k < |s| ==> s[k] <= s[maxIndex(s)]
  }

  /** An argmax that breaks ties by taking the lowest index. */
  ghost predicate IsFirstArgmax(maxIndex: seq<int> -> nat) {
    IsArgmax(maxIndex) &&
    forall s: seq<int> :: |s| > 0 ==> forall k :: 0 <= k < maxIndex(s) ==> s[k] < s[maxIndex(s)]
  }

  ghost predicate AllClassified(c: seq<nat>) {
    forall i :: 0 <= i < |c| ==> c[i] < NSupportedScripts
  }

  /** The index the resolver settles on for classes `c`. */
  function ResolvedIndex(c: seq<nat>, maxIndex: seq<int> -> nat): (k: nat)
    ensures AllClassified(c) && IsArgmax(maxIndex) ==> k < NSupportedScripts
  {
    match EarlyExitFrom(c, 0)
    case Some(k) => k
    case None => maxIndex(Ranking(c))
  }

  /** The classes the lookup gives to the characters of a paragraph. */
  function Classes(t: seq<ScriptRange>, paragraph: seq<int>): (c: seq<nat>)
    ensures |c| == |paragraph|
  {
    seq(|paragraph|, i requires 0 <= i < |paragraph| => Classify(t, paragraph[i]))
  }

  /** The classes of a paragraph, handed over position by position, so that
      a proof mentions the lookup only at the positions it reads. */
  lemma ClassesOf(t: seq<ScriptRange>, paragraph: seq<int>) returns (c: seq<nat>)
    ensures |c| == |paragraph|
    ensures forall m {:trigger Classify(t, paragraph[m])} :: 0 <= m < |paragraph| ==> c[m] == Classify(t, paragraph[m])
  {
    c := Classes(t, paragraph);
  }

  lemma SameClasses(t: seq<ScriptRange>, paragraph: seq<int>, c: seq<nat>)
    requires |c| == |paragraph|
    requires forall m {:trigger Classify(t, paragraph[m])} :: 0 <= m < |paragraph| ==> c[m] == Classify(t, paragraph[m])
    ensures c == Classes(t, paragraph)
  {
    forall m | 0 <= m < |paragraph| ensures c[m] == Classes(t, paragraph)[m] {
      assert c[m] == Classify(t, paragraph[m]);
    }
  }

  /** The direction of a resolved script. */
  function DirectionOf(script: Script): (d: Direction)
    ensures d == RTL <==> script == Arabic
  {
    if script == Arabic then RTL else LTR
  }

  /** The lookup of the character at position `l`, answered as its class. */
  method ClassAt(scriptRanges: seq<ScriptRange>, paragraph: seq<int>, l: nat, ghost c: seq<nat>) returns (idx: nat)
    requires l < |paragraph| == |c|
    requires forall m {:trigger Classify(scriptRanges, paragraph[m])} :: 0 <= m < |paragraph| ==> c[m] == Classify(scriptRanges, paragraph[m])
    ensures idx == c[l]
  {
    idx := LookupScript(scriptRanges, paragraph[l]);
  }

  /** The tally of getLanguageAndScriptAndDirectionAndFont: each character
      is looked up with LookupScript and its answer indexes the eleven-slot
      ranking (so every answer must be below eleven); the loop stops at the
      first character past half of the paragraph whose class then holds more
      than half of it, and otherwise the most frequent class is taken. */
  method RankScripts(scriptRanges: seq<ScriptRange>, paragraph: seq<int>, maxIndex: seq<int> -> nat)
    returns (idx: nat)
    requires IsArgmax(maxIndex)
    requires forall l :: 0 <= l < |paragraph| ==> Classify(scriptRanges, paragraph[l]) < NSupportedScripts
    ensures idx < NSupportedScripts
    ensures idx == ResolvedIndex(Classes(scriptRanges, paragraph), maxIndex)
  {
    ghost var c := ClassesOf(scriptRanges, paragraph);
    ClassesClassified(scriptRanges, paragraph, c);
    var ranking: seq<int> := seq(NSupportedScripts, _ => 0);
    assert ranking == Ranking(c[..0]);
    var nLetters := |paragraph|;
    var threshold := nLetters / 2;
    var l := 0;
    while l < nLetters
      invariant 0 <= l <= nLetters && |ranking| == NSupportedScripts
      invariant ranking == Ranking(c[..l])
      invariant EarlyExitFrom(c, l) == EarlyExitFrom(c, 0)
    {
      idx := ClassAt(scriptRanges, paragraph, l, c);
      TallyStep(c, l);
      ranking := ranking[idx := ranking[idx] + 1];
      if l > threshold && ranking[idx] > threshold {
        SameClasses(scriptRanges, paragraph, c);
        return;
      }
      l := l + 1;
    }
    assert c[..|c|] == c;
    idx := maxIndex(ranking);
    SameClasses(scriptRanges, paragraph, c);
  }

  /** Classes that agree with every lookup are classified when the
      paragraph's classes are. */
  lemma ClassesClassified(t: seq<ScriptRange>, paragraph: seq<int>, c: seq<nat>)
    requires forall l :: 0 <= l < |paragraph| ==> Classify(t, paragraph[l]) < NSupportedScripts
    requires |c| == |paragraph|
    requires forall m {:trigger Classify(t, paragraph[m])} :: 0 <= m < |paragraph| ==> c[m] == Classify(t, paragraph[m])
    ensures AllClassified(c)
  {
    forall m | 0 <= m < |c| ensures c[m] < NSupportedScripts {
      assert c[m] == Classify(t, paragraph[m]);
    }
  }

  /** getLanguageAndScriptAndDirectionAndFont: the ranked script and its font,
      right to left exactly for Arabic, and the language the detector reports
      (`detected`), "en-us" when it reports none. */
  method ResolveParagraph<F>(scriptRanges: seq<ScriptRange>, paragraph: seq<int>, fontMap: seq<F>,
                             detected: Option<string>, maxIndex: seq<int> -> nat)
    returns (lang: string, script: Script, direction: Direction, face: F)
    requires |fontMap| == NSupportedScripts
    requires IsArgmax(maxIndex)
    requires forall l :: 0 <= l < |paragraph| ==> Classify(scriptRanges, paragraph[l]) < NSupportedScripts
    ensures ResolvedIndex(Classes(scriptRanges, paragraph), maxIndex) < NSupportedScripts
    ensures script == SupportedScripts[ResolvedIndex(Classes(scriptRanges, paragraph), maxIndex)]
    ensures face == fontMap[ResolvedIndex(Classes(scriptRanges, paragraph), maxIndex)]
    ensures direction == RTL <==> script == Arabic
    ensures lang == if detected.Some? then detected.value else "en-us"
  {
    var idx := RankScripts(scriptRanges, paragraph, maxIndex);
    script := SupportedScripts[idx];
    face := fontMap[idx];
    direction := LTR;
    if script == Arabic {
      direction := RTL;
    }
    lang := "en-us";
    if detected.Some? {
      lang := detected.value;
    }
  }

  /** Reading position `l` adds one to the count of its class, and, unless
      the early exit fires there, leaves the eventual exit unchanged. */
  lemma TallyAdvance(c: seq<nat>, l: nat)
    requires l < |c|
    ensures forall k :: Count(c[..l + 1], k) == Count(c[..l], k) + (if c[l] == k then 1 else 0)
    ensures |c| / 2 < l && |c| / 2 < Count(c[..l + 1], c[l]) ==> EarlyExitFrom(c, l) == Some(c[l])
    ensures !(|c| / 2 < l && |c| / 2 < Count(c[..l + 1], c[l])) ==> EarlyExitFrom(c, l + 1) == EarlyExitFrom(c, l)
  {
    assert c[..l + 1][..l] == c[..l];
  }

  /** One turn of the tally loop on the ranking array: incrementing the slot
      of one more character's class turns the ranking of the characters
      before it into the ranking of the characters up to it, and the exit
      test on the incremented slot is the early exit's test at that
      position. */
  lemma TallyStep(c: seq<nat>, l: nat)
    requires l < |c| && c[l] < NSupportedScripts
    ensures Ranking(c[..l])[c[l] := Ranking(c[..l])[c[l]] + 1] == Ranking(c[..l + 1])
    ensures Ranking(c[..l + 1])[c[l]] == Count(c[..l + 1], c[l])
    ensures |c| / 2 < l && |c| / 2 < Count(c[..l + 1], c[l]) ==> EarlyExitFrom(c, l) == Some(c[l])
    ensures !(|c| / 2 < l && |c| / 2 < Count(c[..l + 1], c[l])) ==> EarlyExitFrom(c, l + 1) == EarlyExitFrom(c, l)
  {
    TallyAdvance(c, l);
  }

  // ---------------------------------------------------------------------
  // What the tally promises

  lemma {:induction false} CountPrefix(c: seq<nat>, m: nat, k: nat)
    requires m <= |c|
    ensures Count(c[..m], k) <= Count(c, k)
    decreases |c|
  {
    if m < |c| {
      CountPrefix(c[..|c| - 1], m, k);
      assert c[..|c| - 1][..m] == c[..m];
    } else {
      assert c[..m] == c;
    }
  }

  /** Two different classes together count no more than the paragraph. */
  lemma {:induction false} CountsShareParagraph(c: seq<nat>, a: nat, b: nat)
    requires a != b
    ensures Count(c, a) + Count(c, b) <= |c|
    decreases |c|
  {
    if c != [] {
      CountsShareParagraph(c[..|c| - 1], a, b);
    }
  }

  /** The count is the multiplicity, so it does not depend on order. */
  lemma {:induction false} CountIsMultiplicity(c: seq<nat>, k: nat)
    ensures Count(c, k) == multiset(c)[k]
    decreases |c|
  {
    if c != [] {
      CountIsMultiplicity(c[..|c| - 1], k);
      assert c == c[..|c| - 1] + [c[|c| - 1]];
    }
  }

  /** A class counted at all occurs in the paragraph. */
  lemma {:induction false} CountedOccurs(c: seq<nat>, k: nat)
    ensures Count(c, k) > 0 ==> exists m :: 0 <= m < |c| && c[m] == k
    decreases |c|
  {
    if c != [] {
      CountedOccurs(c[..|c| - 1], k);
    }
  }

  /** Beside a class holding a strict majority, every other class holds
      less than half of the paragraph. */
  lemma OthersAreMinorities(c: seq<nat>, k: nat)
    requires |c| < 2 * Count(c, k)
    ensures forall k' :: k' != k ==> 2 * Count(c, k') < |c|
  {
    forall k' | k' != k ensures 2 * Count(c, k') < |c| {
      CountsShareParagraph(c, k, k');
    }
  }

  /** A class counted more than half as many times as the paragraph is long
      within a prefix holds a strict majority of the whole paragraph. */
  lemma PrefixMajority(c: seq<nat>, m: nat, k: nat)
    requires m < |c| && |c| / 2 < Count(c[..m + 1], k)
    ensures |c| < 2 * Count(c, k)
  {
    CountPrefix(c, m + 1, k);
  }

  /** When the early exit fires, the chosen class holds a strict majority
      of the whole paragraph, so every other class holds less than half. */
  lemma EarlyExitIsStrictMajority(c: seq<nat>, k: nat)
    requires EarlyExitFrom(c, 0) == Some(k)
    ensures |c| < 2 * Count(c, k)
    ensures forall k' :: k' != k ==> 2 * Count(c, k') < |c|
  {
    EarlyExitWitness(c, 0);
    var m :| 0 <= m < |c| && c[m] == k && |c| / 2 < m && |c| / 2 < Count(c[..m + 1], c[m]);
    PrefixMajority(c, m, k);
    OthersAreMinorities(c, k);
  }

  /** Without an early exit the resolver takes a class with the largest
      count. */
  lemma FallbackIsMostFrequent(c: seq<nat>, maxIndex: seq<int> -> nat)
    requires AllClassified(c) && IsArgmax(maxIndex)
    requires EarlyExitFrom(c, 0) == None
    ensures forall k :: 0 <= k < NSupportedScripts ==> Count(c, k) <= Count(c, ResolvedIndex(c, maxIndex))
  {
    var r := Ranking(c);
    assert |r| > 0;
    forall k | 0 <= k < NSupportedScripts ensures Count(c, k) <= Count(c, ResolvedIndex(c, maxIndex)) {
      assert r[k] <= r[maxIndex(r)];
    }
  }

  /** A class holding a strict majority of the paragraph is the one resolved,
      whether the early exit fires or not. */
  lemma MajorityWins(c: seq<nat>, k: nat, maxIndex: seq<int> -> nat)
    requires AllClassified(c) && IsArgmax(maxIndex)
    requires |c| < 2 * Count(c, k)
    ensures ResolvedIndex(c, maxIndex) == k
  {
    CountedOccurs(c, k);
    OthersAreMinorities(c, k);
    var w := ResolvedIndex(c, maxIndex);
    if EarlyExitFrom(c, 0).Some? {
      EarlyExitIsStrictMajority(c, w);
    } else {
      FallbackIsMostFrequent(c, maxIndex);
    }
  }

  /** Reordering the characters of a paragraph that has a majority class
      does not change the resolved class. */
  lemma ReorderingKeepsMajority(c1: seq<nat>, c2: seq<nat>, k: nat, maxIndex: seq<int> -> nat)
    requires AllClassified(c1) && AllClassified(c2) && IsArgmax(maxIndex)
    requires multiset(c1) == multiset(c2)
    requires |c1| < 2 * Count(c1, k)
    ensures ResolvedIndex(c1, maxIndex) == ResolvedIndex(c2, maxIndex) == k
  {
    CountIsMultiplicity(c1, k);
    CountIsMultiplicity(c2, k);
    assert |c1| == |multiset(c1)| == |multiset(c2)| == |c2|;
    MajorityWins(c1, k, maxIndex);
    MajorityWins(c2, k, maxIndex);
  }

  /** An empty paragraph never enters the loop: every count is zero and the
      fallback answers; with lowest-index tie breaking that is position 0,
      the default script, written left to right. */
  lemma EmptyParagraphResolvesToDefault(maxIndex: seq<int> -> nat)
    requires IsFirstArgmax(maxIndex)
    ensures Ranking([]) == seq(NSupportedScripts, _ => 0)
    ensures ResolvedIndex([], maxIndex) == 0
    ensures DirectionOf(SupportedScripts[ResolvedIndex([], maxIndex)]) == LTR
  {
    var r := Ranking([]);
    assert r == seq(NSupportedScripts, _ => 0);
    assert r[0] == 0;
  }

  // ---------------------------------------------------------------------
  // The resolver over the sorted table and the positional lookup

  /** The classes the positional lookup gives to the characters of a
      paragraph. */
  function ClassesByPos(t: seq<ScriptRange>, paragraph: seq<int>): (c: seq<nat>)
    ensures |c| == |paragraph|
  {
    seq(|paragraph|, i requires 0 <= i < |paragraph| => ClassifyPos(t, paragraph[i]))
  }

  lemma ClassesByPosOf(t: seq<ScriptRange>, paragraph: seq<int>) returns (c: seq<nat>)
    ensures |c| == |paragraph|
    ensures forall m {:trigger ClassifyPos(t, paragraph[m])} :: 0 <= m < |paragraph| ==> c[m] == ClassifyPos(t, paragraph[m])
  {
    c := ClassesByPos(t, paragraph);
  }

  lemma SameClassesByPos(t: seq<ScriptRange>, paragraph: seq<int>, c: seq<nat>)
    requires |c| == |paragraph|
    requires forall m {:trigger ClassifyPos(t, paragraph[m])} :: 0 <= m < |paragraph| ==> c[m] == ClassifyPos(t, paragraph[m])
    ensures c == ClassesByPos(t, paragraph)
  {
    forall m | 0 <= m < |paragraph| ensures c[m] == ClassesByPos(t, paragraph)[m] {
      assert c[m] == ClassifyPos(t, paragraph[m]);
    }
  }

  /** On a well-tagged table every positional answer is a script position. */
  lemma ClassifyPosBound(t: seq<ScriptRange>, r: int)
    requires WellTagged(t)
    ensures ClassifyPos(t, r) < NSupportedScripts
  {
    match Lookup(t, r)
    case Some(h) =>
    case None =>
  }

  /** The positional lookup of the character at position `l`. */
  method ClassByPosAt(scriptRanges: seq<ScriptRange>, paragraph: seq<int>, l: nat, ghost c: seq<nat>) returns (idx: nat)
    requires WellTagged(scriptRanges)
    requires l < |paragraph| == |c|
    requires forall m {:trigger ClassifyPos(scriptRanges, paragraph[m])} :: 0 <= m < |paragraph| ==> c[m] == ClassifyPos(scriptRanges, paragraph[m])
    ensures idx == c[l]
  {
    idx := LookupScriptPos(scriptRanges, paragraph[l]);
  }

  /** On a well-tagged table every positional class is a script position. */
  lemma ClassesByPosClassified(t: seq<ScriptRange>, paragraph: seq<int>, c: seq<nat>)
    requires WellTagged(t)
    requires |c| == |paragraph|
    requires forall m {:trigger ClassifyPos(t, paragraph[m])} :: 0 <= m < |paragraph| ==> c[m] == ClassifyPos(t, paragraph[m])
    ensures AllClassified(c)
  {
    forall m | 0 <= m < |c| ensures c[m] < NSupportedScripts {
      assert c[m] == ClassifyPos(t, paragraph[m]);
      ClassifyPosBound(t, paragraph[m]);
    }
  }

  /** The tally with the positional lookup: on a well-tagged table every
      answer is a script position, so nothing need be assumed about the
      characters. */
  method RankScriptsByPos(scriptRanges: seq<ScriptRange>, paragraph: seq<int>, maxIndex: seq<int> -> nat)
    returns (idx: nat)
    requires IsArgmax(maxIndex)
    requires WellTagged(scriptRanges)
    ensures idx < NSupportedScripts
    ensures idx == ResolvedIndex(ClassesByPos(scriptRanges, paragraph), maxIndex)
  {
    ghost var c := ClassesByPosOf(scriptRanges, paragraph);
    ClassesByPosClassified(scriptRanges, paragraph, c);
    var ranking: seq<int> := seq(NSupportedScripts, _ => 0);
    assert ranking == Ranking(c[..0]);
    var nLetters := |paragraph|;
    var threshold := nLetters / 2;
    var l := 0;
    while l < nLetters
      invariant 0 <= l <= nLetters && |ranking| == NSupportedScripts
      invariant ranking == Ranking(c[..l])
      invariant EarlyExitFrom(c, l) == EarlyExitFrom(c, 0)
    {
      idx := ClassByPosAt(scriptRanges, paragraph, l, c);
      TallyStep(c, l);
      ranking := ranking[idx := ranking[idx] + 1];
      if l > threshold && ranking[idx] > threshold {
        SameClassesByPos(scriptRanges, paragraph, c);
        return;
      }
      l := l + 1;
    }
    assert c[..|c|] == c;
    idx := maxIndex(ranking);
    SameClassesByPos(scriptRanges, paragraph, c);
  }

  /** The resolver over the positional tally. */
  method ResolveParagraphByPos<F>(scriptRanges: seq<ScriptRange>, paragraph: seq<int>, fontMap: seq<F>,
                                  detected: Option<string>, maxIndex: seq<int> -> nat)
    returns (lang: string, script: Script, direction: Direction, face: F)
    requires |fontMap| == NSupportedScripts
    requires IsArgmax(maxIndex)
    requires WellTagged(scriptRanges)
    ensures ResolvedIndex(ClassesByPos(scriptRanges, paragraph), maxIndex) < NSupportedScripts
    ensures script == SupportedScripts[ResolvedIndex(ClassesByPos(scriptRanges, paragraph), maxIndex)]
    ensures face == fontMap[ResolvedIndex(ClassesByPos(scriptRanges, paragraph), maxIndex)]
    ensures direction == RTL <==> script == Arabic
    ensures lang == if detected.Some? then detected.value else "en-us"
  {
    var idx := RankScriptsByPos(scriptRanges, paragraph, maxIndex);
    script := SupportedScripts[idx];
    face := fontMap[idx];
    direction := LTR;
    if script == Arabic {
      direction := RTL;
    }
    lang := "en-us";
    if detected.Some? {
      lang := detected.value;
    }
  }

  lemma {:induction false} CountAll(c: seq<nat>, k: nat)
    requires forall i :: 0 <= i < |c| ==> c[i] == k
    ensures Count(c, k) == |c|
    decreases |c|
  {
    if c != [] {
      CountAll(c[..|c| - 1], k);
    }
  }

  /** With the table sorted and the positional lookup, a non-empty paragraph
      written entirely in one supported script resolves to that script (and
      so is right to left exactly when that script is Arabic). */
  lemma SingleScriptParagraphResolves(src: seq<SourceRange>, paragraph: seq<int>, ssi: nat, maxIndex: seq<int> -> nat)
    requires WellFormedSource(src) && IsArgmax(maxIndex)
    requires ssi < NSupportedScripts && |paragraph| > 0
    requires forall l :: 0 <= l < |paragraph| ==>
      exists i :: 0 <= i < |src| && src[i].script == SupportedScripts[ssi] && src[i].start <= paragraph[l] <= src[i].end
    ensures AllClassified(ClassesByPos(SortByStart(ScriptTable(src)), paragraph))
    ensures ResolvedIndex(ClassesByPos(SortByStart(ScriptTable(src)), paragraph), maxIndex) == ssi
  {
    var c := ClassesByPos(SortByStart(ScriptTable(src)), paragraph);
    forall l | 0 <= l < |c| ensures c[l] == ssi {
      var i :| 0 <= i < |src| && src[i].script == SupportedScripts[ssi] && src[i].start <= paragraph[l] <= src[i].end;
      SortedTableClassifies(src, paragraph[l], i, ssi);
    }
    CountAll(c, ssi);
    MajorityWins(c, ssi, maxIndex);
  }
}
