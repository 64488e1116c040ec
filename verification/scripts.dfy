/**
 * The script range table and the per-character classifier of the text
 * layout code: the table is built once at startup from the canonical list of
 * script ranges, and every character of a paragraph is looked up in it by
 * binary search.
 */
module Scripts {
  import opened Wrappers

  /** Script tags: the eleven supported ones and any other script of the
      canonical range list. */
  datatype Script =
    | Unknown | Hiragana | Katakana | Hebrew | Thai | Arabic
    | Devanagari | Bengali | Javanese | Han | Hangul
    | OtherScript(tag: nat)

  const NSupportedScripts: nat := 11

  /** The supported scripts, in the order that gives each its position (and
      font); position 0 is the default. */
  const SupportedScripts: seq<Script> :=
    [Unknown, Hiragana, Katakana, Hebrew, Thai, Arabic, Devanagari, Bengali, Javanese, Han, Hangul]

  /** One row of the canonical script range list the table is built from. */
  datatype SourceRange = SourceRange(start: int, end: int, script: Script)

  /** An entry of the table: a range of code points, the script it belongs
      to and that script's position in SupportedScripts. */
  datatype ScriptRange = ScriptRange(start: int, end: int, pos: nat, script: Script)

  lemma SupportedScriptsDistinct()
    ensures |SupportedScripts| == NSupportedScripts
    ensures forall a, b :: 0 <= a < b < NSupportedScripts ==> SupportedScripts[a] != SupportedScripts[b]
  {
  }

  // ---------------------------------------------------------------------
  // Building the table

  function Tag(s: SourceRange, ssi: nat): ScriptRange {
    ScriptRange(s.start, s.end, ssi, s.script)
  }

  /** The entries contributed by supported script number `ssi`: the rows of
      `src` with that script, in their order in `src`. */
  function Group(src: seq<SourceRange>, ssi: nat): seq<ScriptRange>
    requires ssi < NSupportedScripts
  {
    if src == [] then []
    else
      var last := src[|src| - 1];
      Group(src[..|src| - 1], ssi) + (if last.script == SupportedScripts[ssi] then [Tag(last, ssi)] else [])
  }

  /** The groups of the first `n` supported scripts, one after the other. */
  function TableUpTo(src: seq<SourceRange>, n: nat): seq<ScriptRange>
    requires n <= NSupportedScripts
  {
    if n == 0 then [] else TableUpTo(src, n - 1) + Group(src, n - 1)
  }

  /** The table the startup code builds. */
  function ScriptTable(src: seq<SourceRange>): seq<ScriptRange> {
    TableUpTo(src, NSupportedScripts)
  }

  /** The startup loop: for each supported script, in order, append every
      range of the canonical list that belongs to it, tagged with the
      script's position. The table starts empty, as the process-wide slice
      does before its only initialisation. */
  method BuildScriptRanges(src: seq<SourceRange>) returns (scriptRanges: seq<ScriptRange>)
    ensures scriptRanges == ScriptTable(src)
  {
    scriptRanges := [];
    for ssi := 0 to NSupportedScripts
      invariant scriptRanges == TableUpTo(src, ssi)
    {
      var script := SupportedScripts[ssi];
      for k := 0 to |src|
        invariant scriptRanges == TableUpTo(src, ssi) + Group(src[..k], ssi)
      {
        var srange := src[k];
        assert src[..k + 1][..k] == src[..k];
        if srange.script == script {
          scriptRanges := scriptRanges + [ScriptRange(srange.start, srange.end, ssi, srange.script)];
        }
      }
      assert src[..|src|] == src;
    }
  }

  /** `x` is a row of `src` of supported script number `ssi`, tagged with
      that position. */
  ghost predicate FromRow(src: seq<SourceRange>, ssi: nat, x: ScriptRange)
    requires ssi < NSupportedScripts
  {
    exists i :: 0 <= i < |src| && src[i].script == SupportedScripts[ssi] && x == Tag(src[i], ssi)
  }

  lemma FromRowPos(src: seq<SourceRange>, ssi: nat, x: ScriptRange)
    requires ssi < NSupportedScripts && FromRow(src, ssi, x)
    ensures x.pos == ssi
  {
  }

  lemma {:induction false} GroupMembers(src: seq<SourceRange>, ssi: nat, x: ScriptRange)
    requires ssi < NSupportedScripts
    ensures x in Group(src, ssi) <==> FromRow(src, ssi, x)
    decreases |src|
  {
    if src != [] {
      var init := src[..|src| - 1];
      GroupMembers(init, ssi, x);
      if x in Group(init, ssi) {
        var i :| 0 <= i < |init| && init[i].script == SupportedScripts[ssi] && x == Tag(init[i], ssi);
        assert src[i] == init[i];
      }
      if exists i :: 0 <= i < |src| && src[i].script == SupportedScripts[ssi] && x == Tag(src[i], ssi) {
        var i :| 0 <= i < |src| && src[i].script == SupportedScripts[ssi] && x == Tag(src[i], ssi);
        if i < |init| {
          assert init[i] == src[i];
        }
      }
    }
  }

  lemma TableUpToMembers(src: seq<SourceRange>, n: nat, x: ScriptRange)
    requires n <= NSupportedScripts
    ensures x in TableUpTo(src, n) <==> x.pos < n && FromRow(src, x.pos, x)
  {
    if x in TableUpTo(src, n) {
      TableUpToSound(src, n, x);
    }
    if x.pos < n && FromRow(src, x.pos, x) {
      var i :| 0 <= i < |src| && src[i].script == SupportedScripts[x.pos] && x == Tag(src[i], x.pos);
      TableUpToComplete(src, n, i, x.pos);
    }
  }

  lemma {:induction false} TableUpToSound(src: seq<SourceRange>, n: nat, x: ScriptRange)
    requires n <= NSupportedScripts && x in TableUpTo(src, n)
    ensures x.pos < n && FromRow(src, x.pos, x)
  {
    TableUpToStep(src, n, x);
    if x in TableUpTo(src, n - 1) {
      TableUpToSound(src, n - 1, x);
    } else {
      GroupMembers(src, n - 1, x);
      FromRowPos(src, n - 1, x);
    }
  }

  lemma TableUpToComplete(src: seq<SourceRange>, n: nat, i: nat, ssi: nat)
    requires ssi < n <= NSupportedScripts
    requires i < |src| && src[i].script == SupportedScripts[ssi]
    ensures Tag(src[i], ssi) in TableUpTo(src, n)
  {
    GroupHas(src, ssi, i);
    WithPosOfTableUpTo(src, n, ssi);
    WithPosIn(TableUpTo(src, n), ssi, Tag(src[i], ssi));
  }

  /** A row of a supported script is in that script's group. */
  lemma {:induction false} GroupHas(src: seq<SourceRange>, ssi: nat, i: nat)
    requires ssi < NSupportedScripts && i < |src| && src[i].script == SupportedScripts[ssi]
    ensures Tag(src[i], ssi) in Group(src, ssi)
    decreases |src|
  {
    var init := src[..|src| - 1];
    if i < |init| {
      GroupHas(init, ssi, i);
      assert init[i] == src[i];
    }
  }

  lemma TableUpToStep(src: seq<SourceRange>, n: nat, x: ScriptRange)
    requires 0 < n <= NSupportedScripts
    ensures x in TableUpTo(src, n) <==> x in TableUpTo(src, n - 1) || x in Group(src, n - 1)
  {
    assert TableUpTo(src, n) == TableUpTo(src, n - 1) + Group(src, n - 1);
  }

  /** The table holds exactly the ranges of the canonical list whose script is
      supported, each tagged with its script's position. */
  lemma TableMembers(src: seq<SourceRange>, x: ScriptRange)
    ensures x in ScriptTable(src) <==>
      exists i, ssi :: 0 <= i < |src| && 0 <= ssi < NSupportedScripts
        && src[i].script == SupportedScripts[ssi] && x == Tag(src[i], ssi)
  {
    TableUpToMembers(src, NSupportedScripts, x);
    if exists i, ssi :: 0 <= i < |src| && 0 <= ssi < NSupportedScripts
         && src[i].script == SupportedScripts[ssi] && x == Tag(src[i], ssi) {
      var i, ssi :| 0 <= i < |src| && 0 <= ssi < NSupportedScripts
        && src[i].script == SupportedScripts[ssi] && x == Tag(src[i], ssi);
      assert x.pos == ssi;
    }
    if x in ScriptTable(src) {
      var i :| 0 <= i < |src| && src[i].script == SupportedScripts[x.pos] && x == Tag(src[i], x.pos);
      assert 0 <= x.pos < NSupportedScripts;
    }
  }

  /** Every entry's position is a valid index of SupportedScripts, and names
      the entry's own script. */
  predicate WellTagged(t: seq<ScriptRange>) {
    forall k :: 0 <= k < |t| ==> t[k].pos < NSupportedScripts && t[k].script == SupportedScripts[t[k].pos]
  }

  lemma TableWellTagged(src: seq<SourceRange>)
    ensures WellTagged(ScriptTable(src))
  {
    var t := ScriptTable(src);
    forall k | 0 <= k < |t| ensures t[k].pos < NSupportedScripts && t[k].script == SupportedScripts[t[k].pos] {
      TableMembers(src, t[k]);
    }
  }

  lemma {:induction false} GroupPositions(src: seq<SourceRange>, ssi: nat)
    requires ssi < NSupportedScripts
    ensures forall k :: 0 <= k < |Group(src, ssi)| ==> Group(src, ssi)[k].pos == ssi
    decreases |src|
  {
    if src != [] {
      GroupPositions(src[..|src| - 1], ssi);
    }
  }

  lemma {:induction false} TableUpToPositions(src: seq<SourceRange>, n: nat)
    requires n <= NSupportedScripts
    ensures forall k :: 0 <= k < |TableUpTo(src, n)| ==> TableUpTo(src, n)[k].pos < n
    ensures forall a, b :: 0 <= a < b < |TableUpTo(src, n)| ==> TableUpTo(src, n)[a].pos <= TableUpTo(src, n)[b].pos
  {
    if n > 0 {
      TableUpToPositions(src, n - 1);
      GroupPositions(src, n - 1);
    }
  }

  /** The table is grouped by script, in SupportedScripts order: positions
      never decrease along the table. It is not sorted by code point. */
  lemma TableGroupedBySupportedOrder(src: seq<SourceRange>)
    ensures forall a, b :: 0 <= a < b < |ScriptTable(src)| ==> ScriptTable(src)[a].pos <= ScriptTable(src)[b].pos
  {
    TableUpToPositions(src, NSupportedScripts);
  }

  /** The entries of `t` with position `p`, in table order. */
  function WithPos(t: seq<ScriptRange>, p: nat): seq<ScriptRange> {
    if t == [] then []
    else WithPos(t[..|t| - 1], p) + (if t[|t| - 1].pos == p then [t[|t| - 1]] else [])
  }

  /** The entries selected by position come from the table. */
  lemma {:induction false} WithPosIn(t: seq<ScriptRange>, p: nat, x: ScriptRange)
    requires x in WithPos(t, p)
    ensures x in t && x.pos == p
    decreases |t|
  {
    var init := t[..|t| - 1];
    if x in WithPos(init, p) {
      WithPosIn(init, p, x);
      assert init == t[..|t| - 1];
    }
  }

  lemma {:induction false} WithPosConcat(a: seq<ScriptRange>, b: seq<ScriptRange>, p: nat)
    ensures WithPos(a + b, p) == WithPos(a, p) + WithPos(b, p)
    decreases |b|
  {
    if b == [] {
      assert a + b == a;
    } else {
      WithPosConcat(a, b[..|b| - 1], p);
      assert (a + b)[..|a + b| - 1] == a + b[..|b| - 1];
    }
  }

  lemma {:induction false} WithPosOfGroup(src: seq<SourceRange>, ssi: nat, p: nat)
    requires ssi < NSupportedScripts
    ensures p == ssi ==> WithPos(Group(src, ssi), p) == Group(src, ssi)
    ensures p != ssi ==> WithPos(Group(src, ssi), p) == []
    decreases |src|
  {
    if src != [] {
      var init := src[..|src| - 1];
      var last := src[|src| - 1];
      var tail := if last.script == SupportedScripts[ssi] then [Tag(last, ssi)] else [];
      WithPosOfGroup(init, ssi, p);
      WithPosConcat(Group(init, ssi), tail, p);
      if tail != [] {
        assert WithPos(tail, p) == WithPos([], p) + (if ssi == p then tail else []);
      }
    }
  }

  /** The entries with position `p` of the first `n` groups, split at the
      last group. */
  lemma WithPosOfTableUpToStep(src: seq<SourceRange>, n: nat, p: nat)
    requires 0 < n <= NSupportedScripts
    ensures WithPos(TableUpTo(src, n), p) == WithPos(TableUpTo(src, n - 1), p) + WithPos(Group(src, n - 1), p)
  {
    WithPosConcat(TableUpTo(src, n - 1), Group(src, n - 1), p);
  }

  lemma {:induction false} WithPosOfTableUpTo(src: seq<SourceRange>, n: nat, p: nat)
    requires n <= NSupportedScripts
    ensures p < n ==> WithPos(TableUpTo(src, n), p) == Group(src, p)
    ensures n <= p ==> WithPos(TableUpTo(src, n), p) == []
  {
    if n > 0 {
      WithPosOfTableUpTo(src, n - 1, p);
      WithPosOfGroup(src, n - 1, p);
      WithPosOfTableUpToStep(src, n, p);
      var w, wg := WithPos(TableUpTo(src, n - 1), p), WithPos(Group(src, n - 1), p);
      ConcatEmpty(w, wg);
    } else {
      assert TableUpTo(src, 0) == [];
      assert WithPos([], p) == [];
    }
  }

  lemma ConcatEmpty(a: seq<ScriptRange>, b: seq<ScriptRange>)
    ensures a == [] ==> a + b == b
    ensures b == [] ==> a + b == a
  {
  }

  /** Within the group of one supported script, the table keeps the order of
      the canonical list: the entries with position `p` are exactly that
      script's rows, in source order. */
  lemma TableKeepsSourceOrder(src: seq<SourceRange>, p: nat)
    requires p < NSupportedScripts
    ensures WithPos(ScriptTable(src), p) == Group(src, p)
  {
    WithPosOfTableUpTo(src, NSupportedScripts, p);
  }

  // ---------------------------------------------------------------------
  // Looking a character up

  predicate InRange(e: ScriptRange, r: int) {
    e.start <= r <= e.end
  }

  /** The half-open binary search over `t[i..j]` that the lookup loop runs. */
  function Search(t: seq<ScriptRange>, r: int, i: nat, j: nat): (res: Option<nat>)
    requires i <= j <= |t|
    ensures res.Some? ==> i <= res.value < j && InRange(t[res.value], r)
    decreases j - i
  {
    if i < j then
      var h := i + (j - i) / 2;
      if r < t[h].start then Search(t, r, i, h)
      else if t[h].end < r then Search(t, r, h + 1, j)
      else Some(h)
    else None
  }

  function Lookup(t: seq<ScriptRange>, r: int): Option<nat> {
    Search(t, r, 0, |t|)
  }

  /** What the lookup returns: the INDEX of the entry it found in the table,
      or 0 when it finds none. */
  function Classify(t: seq<ScriptRange>, r: int): nat {
    match Lookup(t, r)
    case Some(h) => h
    case None => 0
  }

  /** lookupScript. Sound whatever the table: a non-zero answer is the index
      of an entry that contains `r`. */
  method LookupScript(scriptRanges: seq<ScriptRange>, r: int) returns (h: nat)
    ensures h == Classify(scriptRanges, r)
    ensures h == 0 || (h < |scriptRanges| && InRange(scriptRanges[h], r))
  {
    var i, j := 0, |scriptRanges|;
    while i < j
      invariant 0 <= i <= j <= |scriptRanges|
      invariant Search(scriptRanges, r, i, j) == Lookup(scriptRanges, r)
      decreases j - i
    {
      h := i + (j - i) / 2;
      var entry := scriptRanges[h];
      if r < entry.start {
        j := h;
      } else if entry.end < r {
        i := h + 1;
      } else {
        return h;
      }
    }
    return 0;
  }

  /** Entries in increasing order of start. */
  ghost predicate SortedByStart(t: seq<ScriptRange>) {
    forall a, b :: 0 <= a < b < |t| ==> t[a].start <= t[b].start
  }

  /** Sorted by start, each entry non-empty, and no two distinct entries
      overlapping: what binary search needs. */
  ghost predicate Searchable(t: seq<ScriptRange>) {
    && SortedByStart(t)
    && (forall x :: x in t ==> x.start <= x.end)
    && (forall x, y :: x in t && y in t && x != y ==> x.end < y.start || y.end < x.start)
  }

  /** Left of a searchable table's entry `h` lie only entries that start no
      later; right of it, only entries that start no earlier. */
  lemma NotRightOf(t: seq<ScriptRange>, r: int, h: nat)
    requires Searchable(t) && h < |t| && r < t[h].start
    ensures forall m :: h <= m < |t| ==> !InRange(t[m], r)
  {
    forall m | h <= m < |t| ensures !InRange(t[m], r) {
      if h < m {
        assert t[h].start <= t[m].start;
      }
    }
  }

  lemma NotLeftOf(t: seq<ScriptRange>, r: int, h: nat)
    requires Searchable(t) && h < |t| && t[h].end < r
    ensures forall m :: 0 <= m <= h ==> !InRange(t[m], r)
  {
    assert t[h] in t;
    forall m | 0 <= m <= h ensures !InRange(t[m], r) {
      assert t[m] in t;
      if m < h {
        assert t[m].start <= t[h].start;
      }
    }
  }

  /** Every entry that sends the search left lies right of entry `k`, and
      every entry that sends it right lies left of `k`. */
  ghost predicate Narrows(t: seq<ScriptRange>, r: int, k: nat) {
    forall h :: 0 <= h < |t| ==> (r < t[h].start ==> k < h) && (t[h].end < r ==> h < k)
  }

  /** When every probe narrows towards entry `k`, a window holding `k` is
      searched successfully. */
  lemma {:induction false} SearchNarrows(t: seq<ScriptRange>, r: int, i: nat, j: nat, k: nat)
    requires Narrows(t, r, k) && i <= k < j <= |t|
    ensures Search(t, r, i, j).Some?
    decreases j - i
  {
    var h := i + (j - i) / 2;
    if r < t[h].start {
      SearchNarrows(t, r, i, h, k);
    } else if t[h].end < r {
      SearchNarrows(t, r, h + 1, j, k);
    }
  }

  /** In a searchable table the search finds an entry whenever the window
      holds one that contains `r`. */
  lemma SearchFinds(t: seq<ScriptRange>, r: int, i: nat, j: nat, k: nat)
    requires Searchable(t)
    requires i <= k < j <= |t| && InRange(t[k], r)
    ensures Search(t, r, i, j).Some?
  {
    forall h | 0 <= h < |t| ensures (r < t[h].start ==> k < h) && (t[h].end < r ==> h < k) {
      if r < t[h].start {
        NotRightOf(t, r, h);
      }
      if t[h].end < r {
        NotLeftOf(t, r, h);
      }
    }
    SearchNarrows(t, r, i, j, k);
  }

  /** On a searchable table the lookup finds the entry containing `r`
      (two entries that both contain `r` are the same entry). */
  lemma LookupComplete(t: seq<ScriptRange>, r: int, k: nat)
    requires Searchable(t)
    requires k < |t| && InRange(t[k], r)
    ensures Lookup(t, r).Some? && t[Lookup(t, r).value] == t[k]
  {
    SearchFinds(t, r, 0, |t|, k);
    var h := Lookup(t, r).value;
    assert t[h] in t && t[k] in t;
  }

  /** The precondition the lookup's comment relies on: sorted by start and
      pairwise disjoint. Under it, the lookup answers the index of the
      entry that contains `r`. */
  lemma ClassifyComplete(t: seq<ScriptRange>, r: int, k: nat)
    requires forall a :: 0 <= a < |t| ==> t[a].start <= t[a].end
    requires forall a, b :: 0 <= a < b < |t| ==> t[a].end < t[b].start
    requires k < |t| && InRange(t[k], r)
    ensures Classify(t, r) == k
  {
    assert Searchable(t) by {
      forall x, y | x in t && y in t && x != y ensures x.end < y.start || y.end < x.start {
        var a :| 0 <= a < |t| && t[a] == x;
        var b :| 0 <= b < |t| && t[b] == y;
      }
    }
    LookupComplete(t, r, k);
  }

  /** The classification the lookup's comment promises: the POSITION in
      SupportedScripts of the entry found, or 0 when none is found. */
  function ClassifyPos(t: seq<ScriptRange>, r: int): nat {
    match Lookup(t, r)
    case Some(h) => t[h].pos
    case None => 0
  }

  /** lookupScript as its comment describes it: it answers the found entry's
      position, which is always a valid index of SupportedScripts. */
  method LookupScriptPos(scriptRanges: seq<ScriptRange>, r: int) returns (p: nat)
    requires WellTagged(scriptRanges)
    ensures p == ClassifyPos(scriptRanges, r)
    ensures p < NSupportedScripts
    ensures p == 0 || exists h :: 0 <= h < |scriptRanges| && InRange(scriptRanges[h], r) && scriptRanges[h].pos == p
  {
    var i, j := 0, |scriptRanges|;
    while i < j
      invariant 0 <= i <= j <= |scriptRanges|
      invariant Search(scriptRanges, r, i, j) == Lookup(scriptRanges, r)
      decreases j - i
    {
      var h := i + (j - i) / 2;
      var entry := scriptRanges[h];
      if r < entry.start {
        j := h;
      } else if entry.end < r {
        i := h + 1;
      } else {
        return entry.pos;
      }
    }
    return 0;
  }

  /** Counterexample: the lookup answers a table index, not a script
      position. On a table holding a single Hebrew range, a Hebrew letter is
      classified as 0 (Unknown, default font) although its entry has position
      3; with twelve entries the answer reaches 11, one past the last
      position. */
  lemma LookupAnswersTableIndex()
    ensures var t := ScriptTable([SourceRange(0x591, 0x5F4, Hebrew)]);
      t == [ScriptRange(0x591, 0x5F4, 3, Hebrew)]
      && Classify(t, 0x5D0) == 0 && ClassifyPos(t, 0x5D0) == 3
  {
    HebrewRowTable();
    var t := [ScriptRange(0x591, 0x5F4, 3, Hebrew)];
    assert Search(t, 0x5D0, 0, 1) == Some(0);
  }

  /** Counterexample, continued: with twelve Han entries the lookup's answer
      for a character of the last one is 11, one past the last position of
      the eleven-slot ranking, while the entry's position is 9. */
  lemma LookupAnswersPastLastPosition()
    ensures var t := seq(12, k => ScriptRange(10 * k, 10 * k + 5, 9, Han));
      Classify(t, 115) == 11 && ClassifyPos(t, 115) == 9 && 11 >= NSupportedScripts
  {
    var t := seq(12, k => ScriptRange(10 * k, 10 * k + 5, 9, Han));
    assert t[6].end < 115;
    assert Search(t, 115, 0, 12) == Search(t, 115, 7, 12);
    assert t[9].end < 115;
    assert Search(t, 115, 7, 12) == Search(t, 115, 10, 12);
    assert InRange(t[11], 115);
    assert Search(t, 115, 10, 12) == Some(11);
  }

  /** The table built from a single Hebrew row holds that row at index 0,
      tagged with Hebrew's position 3. */
  lemma HebrewRowTable()
    ensures ScriptTable([SourceRange(0x591, 0x5F4, Hebrew)]) == [ScriptRange(0x591, 0x5F4, 3, Hebrew)]
  {
    var src := [SourceRange(0x591, 0x5F4, Hebrew)];
    assert src[..0] == [];
    assert Group(src, 3) == [ScriptRange(0x591, 0x5F4, 3, Hebrew)];
    forall p | 0 <= p < NSupportedScripts && p != 3 ensures Group(src, p) == [] {
      GroupEmpty(src, p);
    }
    TableUpToStable(src, 0, 3);
    assert TableUpTo(src, 4) == [ScriptRange(0x591, 0x5F4, 3, Hebrew)];
    TableUpToStable(src, 4, NSupportedScripts);
  }

  // ---------------------------------------------------------------------
  // The sort the binary search needs

  /** The first entry of a sorted sequence starts no later than any. */
  lemma SortedHeadFirst(s: seq<ScriptRange>)
    requires SortedByStart(s) && s != []
    ensures forall y :: y in s ==> s[0].start <= y.start
  {
  }

  /** Prepending an entry that starts no later than every entry of a sorted
      sequence keeps it sorted. */
  lemma PrependSorted(x: ScriptRange, s: seq<ScriptRange>)
    requires SortedByStart(s)
    requires forall y :: y in s ==> x.start <= y.start
    ensures SortedByStart([x] + s)
  {
    var xs := [x] + s;
    forall a, b | 0 <= a < b < |xs| ensures xs[a].start <= xs[b].start {
      assert xs[b] == s[b - 1] && xs[b] in s;
    }
  }

  /** Every entry of `rest`, a permutation of the tail of `s` plus `x`, starts
      no earlier than the head of `s` when `x` does not. */
  lemma InsertedAfterHead(x: ScriptRange, s: seq<ScriptRange>, rest: seq<ScriptRange>)
    requires SortedByStart(s) && s != [] && s[0].start < x.start
    requires multiset(rest) == multiset(s[1..]) + multiset{x}
    ensures forall y :: y in rest ==> s[0].start <= y.start
  {
    SortedHeadFirst(s);
    forall y | y in rest ensures s[0].start <= y.start {
      assert y in multiset(rest);
      if y != x {
        assert y in multiset(s[1..]);
        assert y in s[1..];
        assert y in s;
      }
    }
  }

  function InsertByStart(x: ScriptRange, s: seq<ScriptRange>): (r: seq<ScriptRange>)
    requires SortedByStart(s)
    ensures SortedByStart(r)
    ensures multiset(r) == multiset(s) + multiset{x}
  {
    if s == [] then [x]
    else if x.start <= s[0].start then
      SortedHeadFirst(s);
      PrependSorted(x, s);
      [x] + s
    else
      var rest := InsertByStart(x, s[1..]);
      assert s == [s[0]] + s[1..];
      InsertedAfterHead(x, s, rest);
      PrependSorted(s[0], rest);
      [s[0]] + rest
  }

  /** The table ordered by start code point (insertion sort): sorted, and a
      permutation of its input. */
  function SortByStart(t: seq<ScriptRange>): (r: seq<ScriptRange>)
    ensures SortedByStart(r)
    ensures multiset(r) == multiset(t)
  {
    if t == [] then []
    else
      assert t == [t[0]] + t[1..];
      InsertByStart(t[0], SortByStart(t[1..]))
  }

  /** What the canonical list is assumed to satisfy: non-empty ranges, no two
      distinct rows overlapping. */
  ghost predicate WellFormedSource(src: seq<SourceRange>) {
    && (forall p :: p in src ==> p.start <= p.end)
    && (forall p, q :: p in src && q in src && p != q ==> p.end < q.start || q.end < p.start)
  }

  lemma TableDisjoint(src: seq<SourceRange>)
    requires WellFormedSource(src)
    ensures forall x :: x in ScriptTable(src) ==> x.start <= x.end
    ensures forall x, y :: x in ScriptTable(src) && y in ScriptTable(src) && x != y ==> x.end < y.start || y.end < x.start
  {
    SupportedScriptsDistinct();
    forall x | x in ScriptTable(src) ensures x.start <= x.end {
      TableMembers(src, x);
    }
    forall x, y | x in ScriptTable(src) && y in ScriptTable(src) && x != y
      ensures x.end < y.start || y.end < x.start
    {
      TableMembers(src, x);
      TableMembers(src, y);
      var i, si :| 0 <= i < |src| && 0 <= si < NSupportedScripts && src[i].script == SupportedScripts[si] && x == Tag(src[i], si);
      var j, sj :| 0 <= j < |src| && 0 <= sj < NSupportedScripts && src[j].script == SupportedScripts[sj] && y == Tag(src[j], sj);
      assert src[i] in src && src[j] in src;
    }
  }

  /** The table sorted by start is searchable, still well tagged, and holds the
      same entries as the table. */
  lemma SortedTableSearchable(src: seq<SourceRange>)
    requires WellFormedSource(src)
    ensures Searchable(SortByStart(ScriptTable(src)))
    ensures WellTagged(SortByStart(ScriptTable(src)))
    ensures forall x :: x in SortByStart(ScriptTable(src)) <==> x in ScriptTable(src)
  {
    TableDisjoint(src);
    TableWellTagged(src);
    SortKeepsEntries(ScriptTable(src));
  }

  /** Sorting keeps the entries of a table, so a table of disjoint, well-tagged
      entries sorts into a searchable, well-tagged one. */
  lemma SortKeepsEntries(t: seq<ScriptRange>)
    ensures forall x :: x in SortByStart(t) <==> x in t
    ensures (forall x :: x in t ==> x.start <= x.end)
            && (forall x, y :: x in t && y in t && x != y ==> x.end < y.start || y.end < x.start)
            ==> Searchable(SortByStart(t))
    ensures WellTagged(t) ==> WellTagged(SortByStart(t))
  {
    var s := SortByStart(t);
    assert forall x :: x in s <==> x in multiset(s);
    assert forall x :: x in t <==> x in multiset(t);
    if WellTagged(t) {
      forall k | 0 <= k < |s| ensures s[k].pos < NSupportedScripts && s[k].script == SupportedScripts[s[k].pos] {
        assert s[k] in t;
      }
    }
  }

  /** With the table sorted, every character of a supported script's range is
      classified as that script's position. */
  lemma SortedTableClassifies(src: seq<SourceRange>, r: int, i: nat, ssi: nat)
    requires WellFormedSource(src)
    requires i < |src| && src[i].start <= r <= src[i].end
    requires ssi < NSupportedScripts && src[i].script == SupportedScripts[ssi]
    ensures ClassifyPos(SortByStart(ScriptTable(src)), r) == ssi
  {
    var t := SortByStart(ScriptTable(src));
    SortedTableSearchable(src);
    TableMembers(src, Tag(src[i], ssi));
    var k :| 0 <= k < |t| && t[k] == Tag(src[i], ssi);
    LookupComplete(t, r, k);
  }

  /** With the table sorted, a character outside every supported range is
      classified as 0, the default. */
  lemma SortedTableDefaults(src: seq<SourceRange>, r: int)
    requires WellFormedSource(src)
    requires forall i :: 0 <= i < |src| && src[i].script in SupportedScripts ==> !(src[i].start <= r <= src[i].end)
    ensures ClassifyPos(SortByStart(ScriptTable(src)), r) == 0
  {
    var t := SortByStart(ScriptTable(src));
    SortedTableSearchable(src);
    if Lookup(t, r).Some? {
      var h := Lookup(t, r).value;
      TableMembers(src, t[h]);
      assert false;
    }
  }

  lemma {:induction false} GroupEmpty(src: seq<SourceRange>, ssi: nat)
    requires ssi < NSupportedScripts
    requires forall i :: 0 <= i < |src| ==> src[i].script != SupportedScripts[ssi]
    ensures Group(src, ssi) == []
    decreases |src|
  {
    if src != [] {
      GroupEmpty(src[..|src| - 1], ssi);
    }
  }

  lemma {:induction false} TableUpToStable(src: seq<SourceRange>, m: nat, n: nat)
    requires m <= n <= NSupportedScripts
    requires forall p :: m <= p < n ==> Group(src, p) == []
    ensures TableUpTo(src, n) == TableUpTo(src, m)
    decreases n
  {
    if m < n {
      TableUpToStable(src, m, n - 1);
      assert Group(src, n - 1) == [];
      assert TableUpTo(src, n) == TableUpTo(src, n - 1) + Group(src, n - 1);
    }
  }

  /** Counterexample: the table as built is not sorted, and the lookup misses
      a range it holds. With the canonical Hiragana, Katakana and Hebrew
      ranges, the Hebrew letter alef (U+05D0) is in the table's third entry,
      yet the search walks left past it and answers 0. */
  lemma UnsortedTableMissesRange()
    ensures var t := ScriptTable([
        SourceRange(0x591, 0x5F4, Hebrew),
        SourceRange(0x3041, 0x3096, Hiragana),
        SourceRange(0x30A1, 0x30FA, Katakana)]);
      |t| == 3 && t[0].start > t[2].start
      && InRange(t[2], 0x5D0) && t[2].pos == 3
      && Lookup(t, 0x5D0) == None && Classify(t, 0x5D0) == 0 && ClassifyPos(t, 0x5D0) == 0
  {
    ThreeRowTable();
    var t := [ScriptRange(0x3041, 0x3096, 1, Hiragana), ScriptRange(0x30A1, 0x30FA, 2, Katakana),
              ScriptRange(0x591, 0x5F4, 3, Hebrew)];
    assert Search(t, 0x5D0, 0, 3) == Search(t, 0x5D0, 0, 1) == Search(t, 0x5D0, 0, 0);
  }

  /** The table built from a Hebrew, a Hiragana and a Katakana row: grouped
      by supported script, so Hebrew comes last. */
  lemma ThreeRowTable()
    ensures ScriptTable([
        SourceRange(0x591, 0x5F4, Hebrew),
        SourceRange(0x3041, 0x3096, Hiragana),
        SourceRange(0x30A1, 0x30FA, Katakana)])
      == [ScriptRange(0x3041, 0x3096, 1, Hiragana), ScriptRange(0x30A1, 0x30FA, 2, Katakana),
          ScriptRange(0x591, 0x5F4, 3, Hebrew)]
  {
    var src := [SourceRange(0x591, 0x5F4, Hebrew), SourceRange(0x3041, 0x3096, Hiragana), SourceRange(0x30A1, 0x30FA, Katakana)];
    var hira := ScriptRange(0x3041, 0x3096, 1, Hiragana);
    var kata := ScriptRange(0x30A1, 0x30FA, 2, Katakana);
    var heb := ScriptRange(0x591, 0x5F4, 3, Hebrew);
    var s1, s2 := src[..1], src[..2];
    assert s2[..1] == s1 && s1[..0] == [] && src[..2] == s2;
    GroupEmpty(src, 0);
    assert Group(s1, 1) == [];
    assert s2[|s2| - 1].script == SupportedScripts[1] && Tag(s2[|s2| - 1], 1) == hira;
    assert Group(s2, 1) == [] + [hira];
    assert Group(src, 1) == [hira];
    assert src[|src| - 1].script == SupportedScripts[2] && Tag(src[|src| - 1], 2) == kata;
    assert Group(s1, 2) == [];
    assert Group(s2, 2) == [];
    assert Group(src, 2) == [] + [kata];
    assert s1[0].script == SupportedScripts[3] && Tag(s1[0], 3) == heb;
    assert Group(s1, 3) == [] + [heb];
    assert Group(s2, 3) == [heb] + [];
    assert Group(src, 3) == [heb] + [];
    forall p | 4 <= p < NSupportedScripts ensures Group(src, p) == [] {
      GroupEmpty(src, p);
    }
    assert TableUpTo(src, 4) == [hira, kata, heb];
    TableUpToStable(src, 4, NSupportedScripts);
  }
}
