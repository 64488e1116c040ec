/**
 * The quote expander of the text renderer: every `nostr:note1…` or
 * `nostr:nevent1…` reference in a line of text is replaced by a block holding
 * the referenced event's content, prefixed by the block marker, so one line
 * of input becomes one or more blocks of output.
 *
 * The regular expression that finds the references is taken as given: each
 * line comes with the spans of its matches, in increasing order, each
 * starting with "nostr:". The event fetch is an oracle from a NIP-19
 * identifier to the event's content, or nothing when the fetch fails.
 */
module Quotes {
  import opened Wrappers
  import opened Text

  /** One match of the reference pattern: `line[start..end]`. */
  datatype Span = Span(start: nat, end: nat)

  /** What the expansion needs of the matches of one line: each lies inside
      the line and is at least six characters long (the matcher only
      reports texts that start with "nostr:"; the matches also come in
      increasing order, which the expansion does not depend on). */
  predicate ValidSpans(line: string, spans: seq<Span>) {
    forall k :: 0 <= k < |spans| ==> spans[k].start + 6 <= spans[k].end <= |line|
  }

  /** The texts of the matches of a line, in order. */
  function Texts(line: string, spans: seq<Span>): (r: seq<string>)
    requires ValidSpans(line, spans)
    ensures |r| == |spans|
    ensures forall k :: 0 <= k < |spans| ==> r[k] == line[spans[k].start..spans[k].end]
  {
    seq(|spans|, k requires 0 <= k < |spans| => line[spans[k].start..spans[k].end])
  }

  /** The NIP-19 identifier of a match: its text without the six characters
      "nostr:" that every match starts with. */
  function Nip19(text: string): (r: string)
    ensures |text| >= 6 ==> text == text[..6] + r
  {
    if |text| >= 6 then text[6..] else ""
  }

  /** The output so far and the counter `b` of the line being expanded. */
  datatype Acc = Acc(blocks: seq<string>, b: nat)

  /** One match of the inner loop, as written: a successful fetch appends a
      new block and advances `b`; a failed one appends the match text to
      `blocks[b]`. */
  function Step(acc: Acc, text: string, fetch: string -> Option<string>, block: string): (r: Acc)
    requires acc.b < |acc.blocks|
    ensures r.b < |r.blocks| && |r.blocks| - r.b == |acc.blocks| - acc.b
  {
    match fetch(Nip19(text))
    case None => Acc(acc.blocks[acc.b := acc.blocks[acc.b] + text], acc.b)
    case Some(content) => Acc(acc.blocks + [block + " " + content], acc.b + 1)
  }

  /** The inner loop over the match texts of one line, as written. `b`
      counts the successful fetches of THIS line but indexes the output of
      ALL lines. */
  function FoldMatches(acc0: seq<string>, texts: seq<string>,
                       fetch: string -> Option<string>, block: string): (r: Acc)
    requires |acc0| >= 1
    ensures |r.blocks| == |acc0| + r.b && r.b <= |texts|
    decreases |texts|
  {
    if texts == [] then Acc(acc0, 0)
    else Step(FoldMatches(acc0, texts[..|texts| - 1], fetch, block), texts[|texts| - 1], fetch, block)
  }

  lemma FoldMatchesStep(acc0: seq<string>, texts: seq<string>, k: nat,
                        fetch: string -> Option<string>, block: string)
    requires |acc0| >= 1 && k < |texts|
    ensures FoldMatches(acc0, texts[..k + 1], fetch, block)
         == Step(FoldMatches(acc0, texts[..k], fetch, block), texts[k], fetch, block)
  {
    assert texts[..k + 1][..k] == texts[..k];
  }

  /** The text after the last match, emitted as a block unless it is blank. */
  function Trailing(line: string, spans: seq<Span>): (r: seq<string>)
    requires spans != [] && ValidSpans(line, spans)
    ensures |r| <= 1
  {
    var rest := line[spans[|spans| - 1].end..];
    if TrimSpace(rest) != "" then [rest] else []
  }

  /** One line, as written: copied unchanged when it has no match; otherwise
      the text before the first match, the fold over the matches, and the
      non-blank text after the last match. */
  function ExpandLine(acc: seq<string>, line: string, spans: seq<Span>,
                      fetch: string -> Option<string>, block: string): seq<string>
    requires ValidSpans(line, spans)
  {
    if spans == [] then acc + [line]
    else FoldMatches(acc + [line[..spans[0].start]], Texts(line, spans), fetch, block).blocks + Trailing(line, spans)
  }

  ghost predicate ValidInput(lines: seq<string>, matches: seq<seq<Span>>) {
    |matches| == |lines| && forall n :: 0 <= n < |lines| ==> ValidSpans(lines[n], matches[n])
  }

  /** All lines, as written. */
  function ExpandLines(lines: seq<string>, matches: seq<seq<Span>>,
                       fetch: string -> Option<string>, block: string): seq<string>
    requires ValidInput(lines, matches)
  {
    if lines == [] then []
    else
      var n := |lines| - 1;
      ExpandLine(ExpandLines(lines[..n], matches[..n], fetch, block), lines[n], matches[n], fetch, block)
  }

  /** One step of the loop over the lines. */
  lemma ExpandLinesStep(lines: seq<string>, matches: seq<seq<Span>>, n: nat,
                        fetch: string -> Option<string>, block: string)
    requires ValidInput(lines, matches) && n < |lines|
    ensures ValidInput(lines[..n], matches[..n]) && ValidInput(lines[..n + 1], matches[..n + 1])
    ensures ExpandLines(lines[..n + 1], matches[..n + 1], fetch, block)
         == ExpandLine(ExpandLines(lines[..n], matches[..n], fetch, block), lines[n], matches[n], fetch, block)
  {
    assert lines[..n + 1][..n] == lines[..n] && matches[..n + 1][..n] == matches[..n];
  }

  /** quotesAsBlockPrefixedText: the lines are expanded one after the other
      into one output. */
  method QuotesAsBlockPrefixedText(lines: seq<string>, matches: seq<seq<Span>>,
                                   fetch: string -> Option<string>, block: string)
    returns (blocks: seq<string>)
    requires ValidInput(lines, matches)
    ensures blocks == ExpandLines(lines, matches, fetch, block)
  {
    blocks := [];
    for n := 0 to |lines|
      invariant ValidInput(lines[..n], matches[..n])
      invariant blocks == ExpandLines(lines[..n], matches[..n], fetch, block)
    {
      ExpandLinesStep(lines, matches, n, fetch, block);
      blocks := ExpandLineInto(blocks, lines[n], matches[n], fetch, block);
    }
    assert lines[..|lines|] == lines && matches[..|lines|] == matches;
  }

  /** The body of the loop over the lines of quotesAsBlockPrefixedText:
      expands one line onto the output so far. */
  method ExpandLineInto(blocks0: seq<string>, line: string, ms: seq<Span>,
                        fetch: string -> Option<string>, block: string)
    returns (blocks: seq<string>)
    requires ValidSpans(line, ms)
    ensures blocks == ExpandLine(blocks0, line, ms, fetch, block)
  {
    blocks := blocks0;
    if |ms| == 0 {
      blocks := blocks + [line];
      return;
    }
    blocks := blocks + [line[0..ms[0].start]];
    var i;
    blocks, i := ExpandMatchesInto(blocks, line, ms, fetch, block);
    var remainingText := line[ms[i].end..];
    assert remainingText == line[ms[|ms| - 1].end..];
    ghost var fold := blocks;
    ghost var trailing := Trailing(line, ms);
    if TrimSpace(remainingText) != "" {
      blocks := blocks + [remainingText];
      assert trailing == [remainingText];
    } else {
      assert trailing == [];
    }
    assert blocks == fold + trailing;
  }

  /** The loop over the matches of one line, after the text before the
      first match has been emitted; `i` is left at the last match. */
  method ExpandMatchesInto(head: seq<string>, line: string, ms: seq<Span>,
                           fetch: string -> Option<string>, block: string)
    returns (blocks: seq<string>, i: int)
    requires |head| >= 1 && ms != [] && ValidSpans(line, ms)
    ensures i == |ms| - 1
    ensures blocks == FoldMatches(head, Texts(line, ms), fetch, block).blocks
  {
    blocks := head;
    ghost var texts := Texts(line, ms);
    i := -1;
    var b := 0;
    for k := 0 to |ms|
      invariant i == k - 1
      invariant Acc(blocks, b) == FoldMatches(head, texts[..k], fetch, block)
    {
      FoldMatchesStep(head, texts, k, fetch, block);
      i := i + 1;
      var match_ := ms[k];
      var matchText := line[match_.start..match_.end];
      assert matchText == texts[k];
      var nip19 := matchText[6..];
      var event := fetch(nip19);
      if event.None? {
        blocks := blocks[b := blocks[b] + matchText];
        continue;
      }
      blocks := blocks + [block + " " + event.value];
      b := b + 1;
    }
    assert texts[..|ms|] == texts;
  }

  // ---------------------------------------------------------------------
  // What the expansion promises

  /** Every line yields at least one block, so there are at least as many
      blocks as lines. */
  lemma {:induction false} AtLeastOneBlockPerLine(lines: seq<string>, matches: seq<seq<Span>>,
                                                  fetch: string -> Option<string>, block: string)
    requires ValidInput(lines, matches)
    ensures |ExpandLines(lines, matches, fetch, block)| >= |lines|
    decreases |lines|
  {
    if lines != [] {
      var n := |lines| - 1;
      ExpandLinesStep(lines, matches, n, fetch, block);
      AtLeastOneBlockPerLine(lines[..n], matches[..n], fetch, block);
      assert lines[..n + 1] == lines && matches[..n + 1] == matches;
    }
  }

  /** A line with no match is copied unchanged as one block. */
  lemma UnmatchedLineCopied(acc: seq<string>, line: string, fetch: string -> Option<string>, block: string)
    ensures ExpandLine(acc, line, [], fetch, block) == acc + [line]
  {
  }

  /** The number of match texts whose fetch succeeds. */
  function Successes(texts: seq<string>, fetch: string -> Option<string>): (n: nat)
    ensures n <= |texts|
    decreases |texts|
  {
    if texts == [] then 0
    else Successes(texts[..|texts| - 1], fetch) + (if fetch(Nip19(texts[|texts| - 1])).Some? then 1 else 0)
  }

  lemma {:induction false} FoldCountsSuccesses(acc0: seq<string>, texts: seq<string>,
                                               fetch: string -> Option<string>, block: string)
    requires |acc0| >= 1
    ensures FoldMatches(acc0, texts, fetch, block).b == Successes(texts, fetch)
    decreases |texts|
  {
    if texts != [] {
      FoldCountsSuccesses(acc0, texts[..|texts| - 1], fetch, block);
    }
  }

  /** A failed fetch adds no block: it appends the match text to block
      number `b` of the whole output, `b` being the number of successful
      fetches so far in the line. */
  lemma FailedFetchAppendsToBlockB(acc0: seq<string>, texts: seq<string>,
                                   fetch: string -> Option<string>, block: string)
    requires |acc0| >= 1 && texts != [] && fetch(Nip19(texts[|texts| - 1])).None?
    ensures var prev := FoldMatches(acc0, texts[..|texts| - 1], fetch, block).blocks;
      var b := Successes(texts[..|texts| - 1], fetch);
      b < |prev| && FoldMatches(acc0, texts, fetch, block).blocks == prev[b := prev[b] + texts[|texts| - 1]]
  {
    FoldCountsSuccesses(acc0, texts[..|texts| - 1], fetch, block);
  }

  /** A line with matches yields the text before the first match, one block
      per successful fetch, and the text after the last match when it is
      not blank; a failed fetch adds no block. */
  lemma MatchedLineBlockCount(acc: seq<string>, line: string, spans: seq<Span>,
                              fetch: string -> Option<string>, block: string)
    requires spans != [] && ValidSpans(line, spans)
    ensures |ExpandLine(acc, line, spans, fetch, block)|
         == |acc| + 1 + Successes(Texts(line, spans), fetch) + |Trailing(line, spans)|
  {
    FoldCountsSuccesses(acc + [line[..spans[0].start]], Texts(line, spans), fetch, block);
  }

  predicate AllFetched(texts: seq<string>, fetch: string -> Option<string>) {
    forall k :: 0 <= k < |texts| ==> fetch(Nip19(texts[k])).Some?
  }

  /** The quote blocks of the match texts, in order, when every fetch
      succeeds: the block marker, a space and the event's content. */
  function Quoted(texts: seq<string>, fetch: string -> Option<string>, block: string): (r: seq<string>)
    requires AllFetched(texts, fetch)
    ensures |r| == |texts|
    ensures forall k :: 0 <= k < |texts| ==> r[k] == block + " " + fetch(Nip19(texts[k])).value
  {
    seq(|texts|, k requires 0 <= k < |texts| && AllFetched(texts, fetch) => block + " " + fetch(Nip19(texts[k])).value)
  }

  lemma {:induction false} FoldAppendsQuotes(acc0: seq<string>, texts: seq<string>,
                                             fetch: string -> Option<string>, block: string)
    requires |acc0| >= 1 && AllFetched(texts, fetch)
    ensures FoldMatches(acc0, texts, fetch, block).blocks == acc0 + Quoted(texts, fetch, block)
    decreases |texts|
  {
    if texts != [] {
      var init := texts[..|texts| - 1];
      assert AllFetched(init, fetch);
      FoldAppendsQuotes(acc0, init, fetch, block);
      assert Quoted(texts, fetch, block) == Quoted(init, fetch, block) + [Quoted(texts, fetch, block)[|texts| - 1]];
    }
  }

  /** When every fetch succeeds, a line expands to the text before its first
      match, then one quote block per match, then the non-blank text after
      the last match; the text between two matches is not emitted. */
  lemma AllFetchedLine(acc: seq<string>, line: string, spans: seq<Span>,
                       fetch: string -> Option<string>, block: string)
    requires spans != [] && ValidSpans(line, spans) && AllFetched(Texts(line, spans), fetch)
    ensures ExpandLine(acc, line, spans, fetch, block)
         == acc + [line[..spans[0].start]] + Quoted(Texts(line, spans), fetch, block) + Trailing(line, spans)
  {
    FoldAppendsQuotes(acc + [line[..spans[0].start]], Texts(line, spans), fetch, block);
  }

  /** The failed match texts, glued together. */
  function Concat(texts: seq<string>): string {
    if texts == [] then "" else Concat(texts[..|texts| - 1]) + texts[|texts| - 1]
  }

  /** When every fetch fails, no block is added: the match texts are glued,
      in order, onto block number 0 of the whole output. */
  lemma {:induction false} FoldNoneFetched(acc0: seq<string>, texts: seq<string>,
                                           fetch: string -> Option<string>, block: string)
    requires |acc0| >= 1
    requires forall k :: 0 <= k < |texts| ==> fetch(Nip19(texts[k])).None?
    ensures FoldMatches(acc0, texts, fetch, block) == Acc(acc0[0 := acc0[0] + Concat(texts)], 0)
    decreases |texts|
  {
    if texts != [] {
      var init := texts[..|texts| - 1];
      var text := texts[|texts| - 1];
      FoldNoneFetched(acc0, init, fetch, block);
      assert fetch(Nip19(text)).None?;
      assert Concat(texts) == Concat(init) + text;
      assert (acc0[0] + Concat(init)) + text == acc0[0] + Concat(texts);
    } else {
      assert acc0[0] + Concat(texts) == acc0[0];
      assert acc0[0 := acc0[0]] == acc0;
    }
  }

  /** The quote blocks of the successful fetches, in match order: the block
      marker, a space and the fetched content. */
  function QuotesOf(texts: seq<string>, fetch: string -> Option<string>, block: string): (r: seq<string>)
    ensures |r| == Successes(texts, fetch)
    decreases |texts|
  {
    if texts == [] then []
    else
      var last := texts[|texts| - 1];
      QuotesOf(texts[..|texts| - 1], fetch, block)
        + (match fetch(Nip19(last)) case None => [] case Some(content) => [block + " " + content])
  }

  /** The failed match texts that land on block `i` of the output, in
      order: a failed fetch lands on the block whose index is the number of
      successful fetches before it in the line. */
  function Landing(texts: seq<string>, fetch: string -> Option<string>, i: nat): (r: seq<string>)
    ensures |r| <= |texts|
    decreases |texts|
  {
    if texts == [] then []
    else
      var init, last := texts[..|texts| - 1], texts[|texts| - 1];
      Landing(init, fetch, i) + (if fetch(Nip19(last)).None? && Successes(init, fetch) == i then [last] else [])
  }

  /** No failed text lands past the line's success count. */
  lemma {:induction false} LandingBeyond(texts: seq<string>, fetch: string -> Option<string>, i: nat)
    requires i > Successes(texts, fetch)
    ensures Landing(texts, fetch, i) == []
    decreases |texts|
  {
    if texts != [] {
      LandingBeyond(texts[..|texts| - 1], fetch, i);
    }
  }

  lemma ConcatSnoc(texts: seq<string>, text: string)
    ensures Concat(texts + [text]) == Concat(texts) + text
  {
    assert (texts + [text])[..|texts|] == texts;
  }

  /** Block `i` of `r` is block `i` of `acc0`, or else the next quote block
      of a successful fetch, followed by the failed match texts that landed
      on it. */
  ghost predicate Lands(acc0: seq<string>, texts: seq<string>, fetch: string -> Option<string>,
                        block: string, r: seq<string>) {
    && |r| == |acc0| + Successes(texts, fetch)
    && forall i :: 0 <= i < |r| ==> r[i] == (acc0 + QuotesOf(texts, fetch, block))[i] + Concat(Landing(texts, fetch, i))
  }

  /** A successful fetch appends its quote block, on which nothing has
      landed yet. */
  lemma LandsSucceeded(acc0: seq<string>, texts: seq<string>, fetch: string -> Option<string>,
                       block: string, prev: seq<string>)
    requires |acc0| >= 1 && texts != [] && fetch(Nip19(texts[|texts| - 1])).Some?
    requires Lands(acc0, texts[..|texts| - 1], fetch, block, prev)
    ensures Lands(acc0, texts, fetch, block, prev + [block + " " + fetch(Nip19(texts[|texts| - 1])).value])
  {
    var init, text := texts[..|texts| - 1], texts[|texts| - 1];
    var q := QuotesOf(init, fetch, block);
    var quote := block + " " + fetch(Nip19(text)).value;
    var r := prev + [quote];
    var all := acc0 + QuotesOf(texts, fetch, block);
    assert all == (acc0 + q) + [quote];
    forall i | 0 <= i < |r|
      ensures r[i] == all[i] + Concat(Landing(texts, fetch, i))
    {
      var l := Landing(init, fetch, i);
      assert Landing(texts, fetch, i) == l + [];
      assert Landing(texts, fetch, i) == l;
      assert i < |prev| ==> prev[i] == (acc0 + q)[i] + Concat(l);
      if i < |prev| {
        assert r[i] == prev[i] && all[i] == (acc0 + q)[i];
      } else {
        LandingBeyond(init, fetch, i);
        assert r[i] == quote + Concat([]);
      }
    }
  }

  /** A failed fetch appends its match text to block number `b`, `b` being
      the number of successful fetches before it in the line. */
  lemma LandsFailed(acc0: seq<string>, texts: seq<string>, fetch: string -> Option<string>,
                    block: string, prev: seq<string>)
    requires |acc0| >= 1 && texts != [] && fetch(Nip19(texts[|texts| - 1])).None?
    requires Lands(acc0, texts[..|texts| - 1], fetch, block, prev)
    ensures var b := Successes(texts[..|texts| - 1], fetch);
      b < |prev| && Lands(acc0, texts, fetch, block, prev[b := prev[b] + texts[|texts| - 1]])
  {
    var init, text := texts[..|texts| - 1], texts[|texts| - 1];
    var b := Successes(init, fetch);
    var r := prev[b := prev[b] + text];
    forall i | 0 <= i < |r|
      ensures r[i] == (acc0 + QuotesOf(texts, fetch, block))[i] + Concat(Landing(texts, fetch, i))
    {
      FailedBlockAt(acc0, texts, fetch, block, prev[i], i);
    }
  }

  /** Block `i` after a failed fetch: the match text is added when `i` is
      the line's success count so far, and nothing otherwise. */
  lemma FailedBlockAt(acc0: seq<string>, texts: seq<string>, fetch: string -> Option<string>,
                      block: string, p: string, i: nat)
    requires texts != [] && fetch(Nip19(texts[|texts| - 1])).None?
    requires i < |acc0| + Successes(texts[..|texts| - 1], fetch)
    requires p == (acc0 + QuotesOf(texts[..|texts| - 1], fetch, block))[i]
                  + Concat(Landing(texts[..|texts| - 1], fetch, i))
    ensures var b := Successes(texts[..|texts| - 1], fetch);
      (if i == b then p + texts[|texts| - 1] else p)
      == (acc0 + QuotesOf(texts, fetch, block))[i] + Concat(Landing(texts, fetch, i))
  {
    var init, text := texts[..|texts| - 1], texts[|texts| - 1];
    var x := (acc0 + QuotesOf(init, fetch, block))[i];
    assert (acc0 + QuotesOf(texts, fetch, block))[i] == x by {
      assert QuotesOf(texts, fetch, block) == QuotesOf(init, fetch, block) + [];
    }
    LandingFailedStep(texts, fetch, i);
    var l := Concat(Landing(init, fetch, i));
    if i == Successes(init, fetch) {
      assert (x + l) + text == x + (l + text);
    } else {
      assert l + "" == l;
    }
  }

  /** The failed match text at the end of `texts` lands on block `b` only. */
  lemma LandingFailedStep(texts: seq<string>, fetch: string -> Option<string>, i: nat)
    requires texts != [] && fetch(Nip19(texts[|texts| - 1])).None?
    ensures var init := texts[..|texts| - 1];
      Concat(Landing(texts, fetch, i))
      == Concat(Landing(init, fetch, i)) + (if i == Successes(init, fetch) then texts[|texts| - 1] else "")
  {
    var init, text := texts[..|texts| - 1], texts[|texts| - 1];
    var l := Landing(init, fetch, i);
    if i == Successes(init, fetch) {
      assert Landing(texts, fetch, i) == l + [text];
      ConcatSnoc(l, text);
    } else {
      assert Landing(texts, fetch, i) == l + [];
      assert Landing(texts, fetch, i) == l;
      assert Concat(l) + "" == Concat(l);
    }
  }

  /** The inner loop, for any outcome of the fetches, lands its blocks as
      `Lands` says. */
  lemma {:induction false} FoldMatchesLands(acc0: seq<string>, texts: seq<string>,
                                            fetch: string -> Option<string>, block: string)
    requires |acc0| >= 1
    ensures Lands(acc0, texts, fetch, block, FoldMatches(acc0, texts, fetch, block).blocks)
    decreases |texts|
  {
    if texts == [] {
      assert acc0 + QuotesOf(texts, fetch, block) == acc0;
    } else {
      var init := texts[..|texts| - 1];
      FoldMatchesLands(acc0, init, fetch, block);
      FoldCountsSuccesses(acc0, init, fetch, block);
      var prev := FoldMatches(acc0, init, fetch, block).blocks;
      assert Lands(acc0, init, fetch, block, prev);
      if fetch(Nip19(texts[|texts| - 1])).Some? {
        LandsSucceeded(acc0, texts, fetch, block, prev);
      } else {
        LandsFailed(acc0, texts, fetch, block, prev);
      }
      assert Lands(acc0, texts, fetch, block, FoldMatches(acc0, texts, fetch, block).blocks);
    }
  }

  /** When every fetch succeeds, the quote blocks are those of `Quoted` and
      no match text lands anywhere. */
  lemma {:induction false} QuotesOfAllFetched(texts: seq<string>, fetch: string -> Option<string>,
                                              block: string, i: nat)
    requires AllFetched(texts, fetch)
    ensures QuotesOf(texts, fetch, block) == Quoted(texts, fetch, block)
    ensures Landing(texts, fetch, i) == []
    decreases |texts|
  {
    if texts != [] {
      var init := texts[..|texts| - 1];
      assert AllFetched(init, fetch);
      QuotesOfAllFetched(init, fetch, block, i);
      assert Quoted(texts, fetch, block) == Quoted(init, fetch, block) + [Quoted(texts, fetch, block)[|texts| - 1]];
    }
  }

  /** A line with matches, for any outcome of the fetches: the blocks
      before it, then the text before its first match, then one quote block
      per successful fetch in match order, each of these followed by the
      failed match texts that landed on it, then the non-blank text after
      the last match. Failed texts land by their line's success count, so
      they can extend a block of an earlier line. */
  lemma ExpandLineBlocks(acc: seq<string>, line: string, spans: seq<Span>,
                         fetch: string -> Option<string>, block: string)
    requires spans != [] && ValidSpans(line, spans)
    ensures var e := ExpandLine(acc, line, spans, fetch, block);
      var n := |acc| + 1 + Successes(Texts(line, spans), fetch);
      |e| == n + |Trailing(line, spans)| && e[n..] == Trailing(line, spans) &&
      Lands(acc + [line[..spans[0].start]], Texts(line, spans), fetch, block, e[..n])
  {
    var acc0, texts := acc + [line[..spans[0].start]], Texts(line, spans);
    var f := FoldMatches(acc0, texts, fetch, block).blocks;
    FoldMatchesLands(acc0, texts, fetch, block);
    ConcatSplits(f, Trailing(line, spans));
  }

  lemma ConcatSplits(f: seq<string>, t: seq<string>)
    ensures (f + t)[..|f|] == f && (f + t)[|f|..] == t
  {
  }

  /** Example: in "nostr:a x nostr:b" with both events found, the "x"
      between the two references is lost. */
  lemma TextBetweenMatchesDropped(fetch: string -> Option<string>, block: string)
    requires fetch("a").Some? && fetch("b").Some?
    ensures ValidSpans("nostr:a x nostr:b", [Span(0, 7), Span(10, 17)])
    ensures ExpandLine([], "nostr:a x nostr:b", [Span(0, 7), Span(10, 17)], fetch, block)
         == ["", block + " " + fetch("a").value, block + " " + fetch("b").value]
  {
    var line := "nostr:a x nostr:b";
    var spans := [Span(0, 7), Span(10, 17)];
    assert ValidSpans(line, spans);
    var texts := Texts(line, spans);
    assert texts[0] == "nostr:a" && texts[1] == "nostr:b";
    assert Nip19(texts[0]) == "a" && Nip19(texts[1]) == "b";
    assert AllFetched(texts, fetch);
    AllFetchedLine([], line, spans, fetch, block);
    assert line[..0] == "";
    assert line[17..] == "";
    assert Trailing(line, spans) == [];
    HeadAndTwo(line[..0], Quoted(texts, fetch, block), Trailing(line, spans));
  }

  lemma HeadAndTwo(head: string, q: seq<string>, t: seq<string>)
    requires |q| == 2 && t == []
    ensures [] + [head] + q + t == [head, q[0], q[1]]
  {
  }

  // ---------------------------------------------------------------------
  // The fold as evidently intended: a failed fetch extends the newest block
  // of the line, never a block of an earlier line.

  function FoldMatchesFixed(acc0: seq<string>, texts: seq<string>,
                            fetch: string -> Option<string>, block: string): (r: seq<string>)
    requires |acc0| >= 1
    ensures |r| >= |acc0|
    decreases |texts|
  {
    if texts == [] then acc0
    else
      var prev := FoldMatchesFixed(acc0, texts[..|texts| - 1], fetch, block);
      var text := texts[|texts| - 1];
      match fetch(Nip19(text))
      case None => prev[|prev| - 1 := prev[|prev| - 1] + text]
      case Some(content) => prev + [block + " " + content]
  }

  function ExpandLineFixed(acc: seq<string>, line: string, spans: seq<Span>,
                           fetch: string -> Option<string>, block: string): seq<string>
    requires ValidSpans(line, spans)
  {
    if spans == [] then acc + [line]
    else FoldMatchesFixed(acc + [line[..spans[0].start]], Texts(line, spans), fetch, block) + Trailing(line, spans)
  }

  function ExpandLinesFixed(lines: seq<string>, matches: seq<seq<Span>>,
                            fetch: string -> Option<string>, block: string): seq<string>
    requires ValidInput(lines, matches)
  {
    if lines == [] then []
    else
      var n := |lines| - 1;
      ExpandLineFixed(ExpandLinesFixed(lines[..n], matches[..n], fetch, block), lines[n], matches[n], fetch, block)
  }

  /** The corrected fold leaves the blocks before the line untouched. */
  lemma {:induction false} FoldFixedKeepsEarlierBlocks(pre: seq<string>, acc0: seq<string>, texts: seq<string>,
                                                       fetch: string -> Option<string>, block: string)
    requires |acc0| >= 1
    ensures FoldMatchesFixed(pre + acc0, texts, fetch, block) == pre + FoldMatchesFixed(acc0, texts, fetch, block)
    decreases |texts|
  {
    if texts != [] {
      var init := texts[..|texts| - 1];
      var text := texts[|texts| - 1];
      FoldFixedKeepsEarlierBlocks(pre, acc0, init, fetch, block);
      var prev := FoldMatchesFixed(acc0, init, fetch, block);
      match fetch(Nip19(text))
      case None => AppendToLastOfConcat(pre, prev, text);
      case Some(content) => AppendAssoc(pre, prev, [block + " " + content]);
    }
  }

  /** Appending to the last block of `pre + prev` appends to the last block
      of `prev`. */
  lemma AppendToLastOfConcat(pre: seq<string>, prev: seq<string>, text: string)
    requires |prev| >= 1
    ensures (pre + prev)[|pre + prev| - 1 := (pre + prev)[|pre + prev| - 1] + text]
            == pre + prev[|prev| - 1 := prev[|prev| - 1] + text]
  {
  }

  /** Corrected: a line's blocks are appended after the earlier ones, which
      it leaves unchanged. */
  lemma ExpandLineFixedAppends(acc: seq<string>, line: string, spans: seq<Span>,
                               fetch: string -> Option<string>, block: string)
    requires ValidSpans(line, spans)
    ensures ExpandLineFixed(acc, line, spans, fetch, block) == acc + ExpandLineFixed([], line, spans, fetch, block)
  {
    if spans != [] {
      var head := [line[..spans[0].start]];
      var texts := Texts(line, spans);
      FoldFixedKeepsEarlierBlocks(acc, head, texts, fetch, block);
      assert [] + head == head;
      var f := FoldMatchesFixed(head, texts, fetch, block);
      assert ExpandLineFixed([], line, spans, fetch, block) == f + Trailing(line, spans);
      AppendAssoc(acc, f, Trailing(line, spans));
    }
  }

  lemma ExpandLinesFixedLast(lines: seq<string>, matches: seq<seq<Span>>,
                             fetch: string -> Option<string>, block: string)
    requires ValidInput(lines, matches) && lines != []
    ensures ValidInput(lines[..|lines| - 1], matches[..|lines| - 1])
    ensures ExpandLinesFixed(lines, matches, fetch, block)
         == ExpandLineFixed(ExpandLinesFixed(lines[..|lines| - 1], matches[..|lines| - 1], fetch, block),
                            lines[|lines| - 1], matches[|lines| - 1], fetch, block)
  {
  }

  lemma AppendAssoc(a: seq<string>, b: seq<string>, c: seq<string>)
    ensures a + b + c == a + (b + c)
  {
  }

  lemma ValidInputPrefix(lines: seq<string>, matches: seq<seq<Span>>, n: nat)
    requires ValidInput(lines, matches) && n <= |lines|
    ensures ValidInput(lines[..n], matches[..n])
  {
  }

  lemma ValidInputConcat(l1: seq<string>, m1: seq<seq<Span>>, l2: seq<string>, m2: seq<seq<Span>>)
    requires ValidInput(l1, m1) && ValidInput(l2, m2)
    ensures ValidInput(l1 + l2, m1 + m2)
  {
    forall n | 0 <= n < |l1 + l2| ensures ValidSpans((l1 + l2)[n], (m1 + m2)[n]) {
      if n >= |l1| {
        assert (l1 + l2)[n] == l2[n - |l1|] && (m1 + m2)[n] == m2[n - |l1|];
      }
    }
  }

  /** Corrected: expanding two runs of lines one after the other is the
      expansion of the first run followed by that of the second. */
  lemma {:induction false} ExpandLinesFixedConcat(l1: seq<string>, m1: seq<seq<Span>>, l2: seq<string>, m2: seq<seq<Span>>,
                                                  fetch: string -> Option<string>, block: string)
    requires ValidInput(l1, m1) && ValidInput(l2, m2)
    ensures ValidInput(l1 + l2, m1 + m2)
    ensures ExpandLinesFixed(l1 + l2, m1 + m2, fetch, block)
         == ExpandLinesFixed(l1, m1, fetch, block) + ExpandLinesFixed(l2, m2, fetch, block)
    decreases |l2|
  {
    ValidInputConcat(l1, m1, l2, m2);
    if l2 == [] {
      assert l1 + l2 == l1 && m1 + m2 == m1;
    } else {
      var n := |l2| - 1;
      ValidInputPrefix(l2, m2, n);
      ExpandLinesFixedConcat(l1, m1, l2[..n], m2[..n], fetch, block);
      var ls, ms := l1 + l2, m1 + m2;
      ExpandLinesFixedLast(ls, ms, fetch, block);
      ExpandLinesFixedLast(l2, m2, fetch, block);
      assert ls[..|ls| - 1] == l1 + l2[..n] && ms[..|ls| - 1] == m1 + m2[..n];
      assert ls[|ls| - 1] == l2[n] && ms[|ls| - 1] == m2[n];
      var e1 := ExpandLinesFixed(l1, m1, fetch, block);
      var e2 := ExpandLinesFixed(l2[..n], m2[..n], fetch, block);
      var last := ExpandLineFixed([], l2[n], m2[n], fetch, block);
      ExpandLineFixedAppends(e1 + e2, l2[n], m2[n], fetch, block);
      ExpandLineFixedAppends(e2, l2[n], m2[n], fetch, block);
      AppendAssoc(e1, e2, last);
      assert ExpandLinesFixed(ls, ms, fetch, block) == ExpandLineFixed(e1 + e2, l2[n], m2[n], fetch, block);
      assert ExpandLinesFixed(l2, m2, fetch, block) == ExpandLineFixed(e2, l2[n], m2[n], fetch, block);
    }
  }

  /** With a single block before the matches, as on the first line, the fold
      as written and the corrected one agree: there `b` is the index of the
      newest block. */
  lemma {:induction false} FoldAgreesOnFreshOutput(head: string, texts: seq<string>,
                                                   fetch: string -> Option<string>, block: string)
    ensures FoldMatches([head], texts, fetch, block).blocks == FoldMatchesFixed([head], texts, fetch, block)
    decreases |texts|
  {
    if texts != [] {
      FoldAgreesOnFreshOutput(head, texts[..|texts| - 1], fetch, block);
    }
  }

  /** The first line expands the same way as written and corrected. */
  lemma FirstLineAgrees(line: string, spans: seq<Span>, fetch: string -> Option<string>, block: string)
    requires ValidSpans(line, spans)
    ensures ExpandLine([], line, spans, fetch, block) == ExpandLineFixed([], line, spans, fetch, block)
  {
    if spans != [] {
      assert [] + [line[..spans[0].start]] == [line[..spans[0].start]];
      FoldAgreesOnFreshOutput(line[..spans[0].start], Texts(line, spans), fetch, block);
    }
  }

  /** Two lines are expanded one after the other, as written and corrected. */
  lemma TwoLines(l0: string, l1: string, m0: seq<Span>, m1: seq<Span>,
                 fetch: string -> Option<string>, block: string)
    requires ValidSpans(l0, m0) && ValidSpans(l1, m1)
    ensures ValidInput([l0, l1], [m0, m1])
    ensures ExpandLines([l0, l1], [m0, m1], fetch, block)
         == ExpandLine(ExpandLine([], l0, m0, fetch, block), l1, m1, fetch, block)
    ensures ExpandLinesFixed([l0, l1], [m0, m1], fetch, block)
         == ExpandLineFixed(ExpandLineFixed([], l0, m0, fetch, block), l1, m1, fetch, block)
  {
    var lines, matches := [l0, l1], [m0, m1];
    assert ValidInput(lines, matches);
    assert lines[..1] == [l0] && matches[..1] == [m0];
    assert [l0][..0] == [] && [m0][..0] == [];
    assert ValidInput([l0], [m0]);
    assert ExpandLines([l0], [m0], fetch, block) == ExpandLine([], l0, m0, fetch, block);
    assert ExpandLinesFixed([l0], [m0], fetch, block) == ExpandLineFixed([], l0, m0, fetch, block);
  }

  /** A line that is nothing but one reference whose fetch fails, as
      written: an empty head block is emitted for it and the reference is
      glued onto block number 0 of the whole output. */
  lemma FailedReferenceLine(acc: seq<string>, x: string, fetch: string -> Option<string>, block: string)
    requires |x| >= 6 && fetch(Nip19(x)).None?
    ensures ValidSpans(x, [Span(0, |x|)])
    ensures ExpandLine(acc, x, [Span(0, |x|)], fetch, block) == (acc + [""])[0 := (acc + [""])[0] + x]
  {
    var spans := [Span(0, |x|)];
    assert ValidSpans(x, spans);
    assert x[0..|x|] == x && Texts(x, spans) == [x];
    assert x[..0] == "" && x[|x|..] == "";
    assert Trailing(x, spans) == [];
    var p := acc + [""];
    var f := FoldMatches(p, [x], fetch, block).blocks;
    assert ExpandLine(acc, x, spans, fetch, block) == f + [];
    assert f + [] == f;
    assert Concat([x]) == x by { assert [x][..0] == []; }
    FoldNoneFetched(p, [x], fetch, block);
  }

  /** The same line, corrected: the reference stays in the line's own block. */
  lemma FailedReferenceLineFixed(acc: seq<string>, x: string, fetch: string -> Option<string>, block: string)
    requires |x| >= 6 && fetch(Nip19(x)).None?
    ensures ValidSpans(x, [Span(0, |x|)])
    ensures ExpandLineFixed(acc, x, [Span(0, |x|)], fetch, block) == acc + [x]
  {
    var spans := [Span(0, |x|)];
    assert ValidSpans(x, spans);
    assert x[0..|x|] == x && Texts(x, spans) == [x];
    assert x[..0] == "" && x[|x|..] == "";
    assert Trailing(x, spans) == [];
    assert [x][..0] == [];
    var p := acc + [""];
    assert FoldMatchesFixed(p, [], fetch, block) == p;
    assert "" + x == x;
    assert p[|p| - 1 := p[|p| - 1] + x] == acc + [x];
    assert FoldMatchesFixed(p, [x], fetch, block) == acc + [x];
  }

  /** Counterexample: two lines each holding one reference whose fetch fails.
      As written, the second line's reference is glued onto the FIRST line's
      block and the second line keeps only its empty head; corrected, each
      reference stays on its own line. */
  lemma FailedQuoteLandsOnEarlierLine(fetch: string -> Option<string>, block: string)
    requires fetch("a") == None && fetch("b") == None
    ensures ValidInput(["nostr:a", "nostr:b"], [[Span(0, 7)], [Span(0, 7)]])
    ensures ExpandLines(["nostr:a", "nostr:b"], [[Span(0, 7)], [Span(0, 7)]], fetch, block)
         == ["nostr:anostr:b", ""]
    ensures ExpandLinesFixed(["nostr:a", "nostr:b"], [[Span(0, 7)], [Span(0, 7)]], fetch, block)
         == ["nostr:a", "nostr:b"]
  {
    var a, b := "nostr:a", "nostr:b";
    var spans := [Span(0, 7)];
    assert |a| == 7 && |b| == 7;
    assert Nip19(a) == "a" && Nip19(b) == "b";
    FailedReferenceLine([], a, fetch, block);
    FailedReferenceLine([a], b, fetch, block);
    FailedReferenceLineFixed([], a, fetch, block);
    FailedReferenceLineFixed([a], b, fetch, block);
    TwoLines(a, b, spans, spans, fetch, block);
    GlueTwo(a, b);
  }

  lemma GlueTwo(a: string, b: string)
    ensures ([] + [""])[0 := ([] + [""])[0] + a] == [a]
    ensures ([a] + [""])[0 := ([a] + [""])[0] + b] == [a + b, ""]
    ensures [] + [a] == [a] && [a] + [b] == [a, b]
    ensures a == "nostr:a" && b == "nostr:b" ==> a + b == "nostr:anostr:b"
  {
    assert "" + a == a;
  }
}
