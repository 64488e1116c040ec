/**
 * The small string and list computations that prepare an event for its
 * page: the file-metadata MIME tests, the short form of an npub, the text
 * preview, and the pieces of the page data built from the relay list, the
 * URLs found in the content and the kind number.
 *
 * Collaborators defined elsewhere in the program (the URL and extension
 * matchers, trimProtocol, shortenNostrURLs and the kindNames table) are
 * parameters.
 */
module EventData {
  import opened Wrappers
  import opened Text

  // ---------------------------------------------------------------------
  // Kind 1063 file metadata

  /** The tags of a kind-1063 file metadata event. */
  datatype Kind1063Metadata = Kind1063Metadata(
    magnet: string, dim: string, size: string, summary: string, image: string, url: string,
    aes256gcm: string, m: string, x: string, i: string, blurhash: string, thumb: string)

  /** The MIME type's top-level type (the text before its first "/") is "video". */
  predicate IsVideo(fm: Kind1063Metadata) {
    Split(fm.m, '/')[0] == "video"
  }

  /** The MIME type's top-level type is "image". */
  predicate IsImage(fm: Kind1063Metadata) {
    Split(fm.m, '/')[0] == "image"
  }

  /** IsImage and IsVideo hold exactly for the MIME types "image", "image/…"
      and "video", "video/…", so never both. */
  lemma MimeTopLevelType(fm: Kind1063Metadata)
    ensures IsImage(fm) <==> fm.m == "image" || HasPrefix(fm.m, "image/")
    ensures IsVideo(fm) <==> fm.m == "video" || HasPrefix(fm.m, "video/")
    ensures !(IsImage(fm) && IsVideo(fm))
  {
    FirstPiece(fm.m, '/', "image");
    FirstPiece(fm.m, '/', "video");
  }

  /** The picture shown for the file: its "image" tag when set, otherwise its
      URL when the file itself is an image, otherwise nothing. */
  function DisplayImage(fm: Kind1063Metadata): (r: string)
    ensures fm.image != "" ==> r == fm.image
    ensures fm.image == "" ==> (r == fm.url <== IsImage(fm)) && (!IsImage(fm) ==> r == "")
    ensures r == "" || r == fm.image || r == fm.url
  {
    if fm.image != "" then fm.image
    else if IsImage(fm) then fm.url
    else ""
  }

  /** The media fields of the page data. */
  datatype MediaFields = MediaFields(image: string, video: string, videoType: string)

  /** The media of a kind-1063 event: its URL as the image when it is an
      image, or as the video when it is a video, the video type then being
      the second "/"-separated part of the MIME type. A video whose MIME type
      has no "/" makes that lookup index past the end of the split, which
      aborts the request: modelled as None. */
  function FileMetadataMedia(fm: Kind1063Metadata): (r: Option<MediaFields>)
    ensures r.None? <==> !IsImage(fm) && IsVideo(fm) && '/' !in fm.m
    ensures r.Some? && IsImage(fm) ==> r.value == MediaFields(fm.url, "", "")
    ensures r.Some? && !IsImage(fm) && !IsVideo(fm) ==> r.value == MediaFields("", "", "")
    ensures r.Some? && IsVideo(fm) ==>
      r.value.image == "" && r.value.video == fm.url && '/' !in r.value.videoType &&
      (fm.m == "video/" + r.value.videoType || HasPrefix(fm.m, "video/" + r.value.videoType + "/"))
  {
    SecondPiece(fm.m, '/');
    MimeTopLevelType(fm);
    if IsImage(fm) then Some(MediaFields(fm.url, "", ""))
    else if IsVideo(fm) then
      var parts := Split(fm.m, '/');
      if |parts| < 2 then None
      else
        assert "video" + ['/'] + parts[1] == "video/" + parts[1];
        assert "video/" + parts[1] + ['/'] == "video/" + parts[1] + "/";
        Some(MediaFields("", fm.url, parts[1]))
    else Some(MediaFields("", "", ""))
  }

  // ---------------------------------------------------------------------
  // npub short form

  /** The ellipsis character U+2026. */
  const Ellipsis: char := 0x2026 as char

  /** NpubShort (and the same expression when the page data is built): the
      first 8 characters, an ellipsis, the last 4. An npub is bech32 text,
      which is ASCII, so its characters are its bytes. */
  function NpubShort(npub: string): (r: string)
    requires |npub| >= 8
    ensures |r| == 13 && r[8] == Ellipsis
    ensures r[..8] == npub[..8] && r[9..] == npub[|npub| - 4..]
  {
    npub[..8] + [Ellipsis] + npub[|npub| - 4..]
  }

  /** For an npub of at least 12 characters the short form is 15 bytes of
      UTF-8: 8 + 3 for the ellipsis + 4. */
  lemma NpubShortBytes(npub: string)
    requires |npub| >= 12 && IsAscii(npub)
    ensures Utf8Length(NpubShort(npub)) == 15
  {
    var head, tail := npub[..8], npub[|npub| - 4..];
    assert IsAscii(head) && IsAscii(tail);
    AsciiUtf8Length(head);
    AsciiUtf8Length(tail);
    Utf8LengthConcat(head, [Ellipsis]);
    Utf8LengthConcat(head + [Ellipsis], tail);
    assert [Ellipsis][..0] == [];
  }

  // ---------------------------------------------------------------------
  // Preview

  /** The preview's lines, as built by its loop: blank lines are dropped and
      the others shortened, in order. */
  function ProcessedLines(lines: seq<string>, shorten: string -> string): (r: seq<string>)
    ensures |r| <= |lines|
  {
    if lines == [] then []
    else
      var last := lines[|lines| - 1];
      ProcessedLines(lines[..|lines| - 1], shorten) + (if TrimSpace(last) == "" then [] else [shorten(last)])
  }

  /** The lines that are not blank, in order. */
  function NonBlank(lines: seq<string>): (r: seq<string>)
    ensures |r| <= |lines|
  {
    if lines == [] then []
    else if IsBlank(lines[0]) then NonBlank(lines[1..])
    else [lines[0]] + NonBlank(lines[1..])
  }

  /** NonBlank keeps exactly the lines that are not blank. */
  lemma {:induction false} NonBlankMembers(lines: seq<string>)
    ensures forall k :: 0 <= k < |NonBlank(lines)| ==> !IsBlank(NonBlank(lines)[k]) && NonBlank(lines)[k] in lines
    ensures forall i :: 0 <= i < |lines| && !IsBlank(lines[i]) ==> lines[i] in NonBlank(lines)
    decreases |lines|
  {
    if lines != [] {
      NonBlankMembers(lines[1..]);
      assert forall i :: 1 <= i < |lines| ==> lines[i] == lines[1..][i - 1];
    }
  }

  lemma {:induction false} NonBlankAppend(lines: seq<string>, x: string)
    ensures NonBlank(lines + [x]) == NonBlank(lines) + (if IsBlank(x) then [] else [x])
    decreases |lines|
  {
    if lines == [] {
      assert [] + [x] == [x];
      assert [x][1..] == [];
    } else {
      assert (lines + [x])[1..] == lines[1..] + [x];
      NonBlankAppend(lines[1..], x);
    }
  }

  lemma InitAndLast(lines: seq<string>)
    requires lines != []
    ensures lines[..|lines| - 1] + [lines[|lines| - 1]] == lines
  {
  }

  /** Each line put through `shorten`. */
  function Shortened(lines: seq<string>, shorten: string -> string): (r: seq<string>)
    ensures |r| == |lines| && forall k :: 0 <= k < |lines| ==> r[k] == shorten(lines[k])
  {
    seq(|lines|, k requires 0 <= k < |lines| => shorten(lines[k]))
  }

  lemma ShortenedAppend(lines: seq<string>, x: string, shorten: string -> string)
    ensures Shortened(lines + [x], shorten) == Shortened(lines, shorten) + [shorten(x)]
  {
  }

  /** The preview's lines are the non-blank lines, each shortened. */
  lemma {:induction false} ProcessedLinesAreShortenedNonBlank(lines: seq<string>, shorten: string -> string)
    ensures ProcessedLines(lines, shorten) == Shortened(NonBlank(lines), shorten)
    decreases |lines|
  {
    if lines != [] {
      var init, last := lines[..|lines| - 1], lines[|lines| - 1];
      ProcessedLinesAreShortenedNonBlank(init, shorten);
      InitAndLast(lines);
      NonBlankAppend(init, last);
      TrimSpaceEmptyIffBlank(last);
      if IsBlank(last) {
        assert NonBlank(lines) == NonBlank(init) + [];
        assert ProcessedLines(lines, shorten) == ProcessedLines(init, shorten) + [];
      } else {
        ShortenedAppend(NonBlank(init), last, shorten);
      }
    } else {
      assert NonBlank(lines) == [];
    }
  }

  /** EnhancedEvent.Preview: the event's content (already HTML-escaped) is
      split into lines; the non-blank ones, shortened, are joined with
      "<br/>". */
  method Preview(content: string, shorten: string -> string) returns (html: string)
    ensures html == Join(ProcessedLines(Split(content, '\n'), shorten), "<br/>")
  {
    var lines := Split(content, '\n');
    var processedLines: seq<string> := [];
    for n := 0 to |lines|
      invariant processedLines == ProcessedLines(lines[..n], shorten)
    {
      ProcessedLinesStep(lines, n, shorten);
      var line := lines[n];
      if TrimSpace(line) == "" {
        continue;
      }
      var processedLine := shorten(line);
      processedLines := processedLines + [processedLine];
    }
    assert lines[..|lines|] == lines;
    html := Join(processedLines, "<br/>");
  }

  /** One step of the preview's loop: line `n` is dropped when blank, and
      otherwise kept shortened. */
  lemma ProcessedLinesStep(lines: seq<string>, n: nat, shorten: string -> string)
    requires n < |lines|
    ensures ProcessedLines(lines[..n + 1], shorten)
         == ProcessedLines(lines[..n], shorten) + (if TrimSpace(lines[n]) == "" then [] else [shorten(lines[n])])
  {
    assert lines[..n + 1][..n] == lines[..n];
  }

  /** A one-line, non-blank content previews as that line shortened; a
      blank one previews as nothing. */
  lemma PreviewOfOneLine(content: string, shorten: string -> string)
    requires '\n' !in content
    ensures IsBlank(content) ==> Join(ProcessedLines(Split(content, '\n'), shorten), "<br/>") == ""
    ensures !IsBlank(content) ==> Join(ProcessedLines(Split(content, '\n'), shorten), "<br/>") == shorten(content)
  {
    assert Split(content, '\n') == [content];
    assert [content][..0] == [];
    TrimSpaceEmptyIffBlank(content);
  }

  // ---------------------------------------------------------------------
  // Relay lists

  /** The relays named in the NIP-19 codes: the first three, in order. */
  method RelaysForNip19(relays: seq<string>) returns (out: seq<string>)
    ensures |out| == if |relays| < 3 then |relays| else 3
    ensures out == relays[..|out|]
  {
    out := [];
    for i := 0 to |relays|
      invariant i <= 3 && out == relays[..i]
    {
      out := out + [relays[i]];
      if i == 2 {
        assert out == relays[..3];
        return;
      }
    }
    assert relays[..|relays|] == relays;
  }

  /** The relays kept for the page, as the loop computes them: each relay
      that does not contain "/npub1", put through trimProtocol, in order.
      The list of excluded relays plays no part. */
  function KeptRelays(relays: seq<string>, trimProtocol: string -> string): (r: seq<string>)
    ensures |r| <= |relays|
  {
    if relays == [] then []
    else
      var last := relays[|relays| - 1];
      KeptRelays(relays[..|relays| - 1], trimProtocol) + (if Contains(last, "/npub1") then [] else [trimProtocol(last)])
  }

  /** The relay filter loop, as written: the check against the excluded
      relays `continue`s only its own inner loop, so it drops nothing. */
  method EventRelays(relays: seq<string>, excludedRelays: seq<string>, trimProtocol: string -> string)
    returns (out: seq<string>)
    ensures out == KeptRelays(relays, trimProtocol)
  {
    out := [];
    for n := 0 to |relays|
      invariant out == KeptRelays(relays[..n], trimProtocol)
    {
      assert relays[..n + 1][..n] == relays[..n];
      var relay := relays[n];
      for e := 0 to |excludedRelays| {
        if Contains(relay, excludedRelays[e]) {
          continue;
        }
      }
      if Contains(relay, "/npub1") {
        continue;
      }
      out := out + [trimProtocol(relay)];
    }
    assert relays[..|relays|] == relays;
  }

  /** Every kept relay comes from a relay without "/npub1", and every such
      relay is kept. */
  lemma {:induction false} KeptRelaysMembers(relays: seq<string>, trimProtocol: string -> string)
    ensures forall k :: 0 <= k < |KeptRelays(relays, trimProtocol)| ==>
      exists i :: 0 <= i < |relays| && !Contains(relays[i], "/npub1") && KeptRelays(relays, trimProtocol)[k] == trimProtocol(relays[i])
    ensures forall i :: 0 <= i < |relays| && !Contains(relays[i], "/npub1") ==> trimProtocol(relays[i]) in KeptRelays(relays, trimProtocol)
    decreases |relays|
  {
    if relays != [] {
      var init, last := relays[..|relays| - 1], relays[|relays| - 1];
      KeptRelaysMembers(init, trimProtocol);
      var r, ri := KeptRelays(relays, trimProtocol), KeptRelays(init, trimProtocol);
      assert r == ri + (if Contains(last, "/npub1") then [] else [trimProtocol(last)]);
      forall k | 0 <= k < |r|
        ensures exists i :: 0 <= i < |relays| && !Contains(relays[i], "/npub1") && r[k] == trimProtocol(relays[i])
      {
        if k < |ri| {
          assert exists i :: 0 <= i < |init| && !Contains(init[i], "/npub1") && KeptRelays(init, trimProtocol)[k] == trimProtocol(init[i]);
          var i :| 0 <= i < |init| && !Contains(init[i], "/npub1") && ri[k] == trimProtocol(init[i]);
          assert relays[i] == init[i] && r[k] == ri[k];
        } else {
          assert r[k] == trimProtocol(relays[|relays| - 1]);
        }
      }
      forall i | 0 <= i < |relays| && !Contains(relays[i], "/npub1")
        ensures trimProtocol(relays[i]) in r
      {
        if i < |init| {
          assert init[i] == relays[i];
        }
      }
    } else {
      assert KeptRelays(relays, trimProtocol) == [];
    }
  }

  /** The relays kept when the excluded relays are skipped as evidently
      intended. */
  function KeptRelaysExcluding(relays: seq<string>, excludedRelays: seq<string>, trimProtocol: string -> string): (r: seq<string>)
    ensures |r| <= |relays|
  {
    if relays == [] then []
    else
      var last := relays[|relays| - 1];
      KeptRelaysExcluding(relays[..|relays| - 1], excludedRelays, trimProtocol)
      + (if Contains(last, "/npub1") || exists e :: e in excludedRelays && Contains(last, e) then [] else [trimProtocol(last)])
  }

  /** Corrected: no relay that contains an excluded one is kept, and the
      others are kept as before. */
  lemma {:induction false} ExcludingDropsExcluded(relays: seq<string>, excludedRelays: seq<string>, trimProtocol: string -> string)
    ensures forall k :: 0 <= k < |KeptRelaysExcluding(relays, excludedRelays, trimProtocol)| ==>
      exists i :: 0 <= i < |relays|
        && (forall e :: e in excludedRelays ==> !Contains(relays[i], e))
        && KeptRelaysExcluding(relays, excludedRelays, trimProtocol)[k] == trimProtocol(relays[i])
    ensures (forall i, e :: 0 <= i < |relays| && e in excludedRelays ==> !Contains(relays[i], e))
      ==> KeptRelaysExcluding(relays, excludedRelays, trimProtocol) == KeptRelays(relays, trimProtocol)
    decreases |relays|
  {
    if relays != [] {
      var init, last := relays[..|relays| - 1], relays[|relays| - 1];
      ExcludingDropsExcluded(init, excludedRelays, trimProtocol);
      var r, ri := KeptRelaysExcluding(relays, excludedRelays, trimProtocol), KeptRelaysExcluding(init, excludedRelays, trimProtocol);
      var dropped := Contains(last, "/npub1") || exists e :: e in excludedRelays && Contains(last, e);
      assert r == ri + (if dropped then [] else [trimProtocol(last)]);
      forall k | 0 <= k < |r|
        ensures exists i :: (0 <= i < |relays|
          && (forall e :: e in excludedRelays ==> !Contains(relays[i], e))
          && r[k] == trimProtocol(relays[i]))
      {
        if k < |ri| {
          var i :| 0 <= i < |init| && (forall e :: e in excludedRelays ==> !Contains(init[i], e)) && ri[k] == trimProtocol(init[i]);
          assert relays[i] == init[i] && r[k] == ri[k];
        } else {
          assert r[k] == trimProtocol(relays[|relays| - 1]);
        }
      }
      if forall i, e :: 0 <= i < |relays| && e in excludedRelays ==> !Contains(relays[i], e) {
        assert forall i, e :: 0 <= i < |init| && e in excludedRelays ==> !Contains(init[i], e) by {
          forall i, e | 0 <= i < |init| && e in excludedRelays ensures !Contains(init[i], e) {
            assert init[i] == relays[i];
          }
        }
        assert !dropped <==> !Contains(last, "/npub1");
      }
    } else {
      assert KeptRelaysExcluding(relays, excludedRelays, trimProtocol) == [];
    }
  }

  /** Counterexample: a relay that contains an excluded one is kept as
      written, and dropped once the exclusion works. */
  lemma ExcludedRelayIsKept(relay: string, excluded: string, trimProtocol: string -> string)
    requires Contains(relay, excluded) && !Contains(relay, "/npub1")
    ensures KeptRelays([relay], trimProtocol) == [trimProtocol(relay)]
    ensures KeptRelaysExcluding([relay], [excluded], trimProtocol) == []
  {
    assert [relay][..0] == [];
    assert excluded in [excluded];
  }

  // ---------------------------------------------------------------------
  // Media found in the content

  /** The video type for a video URL, by its ending. */
  function VideoTypeOf(url: string): (t: string)
    ensures t == "mp4" <==> HasSuffix(url, "mp4")
    ensures t == "mov" <==> HasSuffix(url, "mov") && !HasSuffix(url, "mp4")
    ensures t == "webm" <==> !HasSuffix(url, "mp4") && !HasSuffix(url, "mov")
  {
    if HasSuffix(url, "mp4") then "mp4"
    else if HasSuffix(url, "mov") then "mov"
    else "webm"
  }

  /** The image and the video picked by the URL loop: the first URL the
      image matcher accepts, and the first one the video matcher accepts
      among those the image matcher rejects. */
  datatype Media = Media(image: Option<string>, video: Option<string>)

  function SelectMedia(urls: seq<string>, isImageURL: string -> bool, isVideoURL: string -> bool): Media
  {
    if urls == [] then Media(None, None)
    else
      var m := SelectMedia(urls[..|urls| - 1], isImageURL, isVideoURL);
      var url := urls[|urls| - 1];
      if isImageURL(url) then (if m.image.None? then m.(image := Some(url)) else m)
      else if isVideoURL(url) then (if m.video.None? then m.(video := Some(url)) else m)
      else m
  }

  /** The chosen image is the first URL the image matcher accepts, and there
      is none exactly when it accepts no URL. */
  lemma {:induction false} ImageIsFirstMatch(urls: seq<string>, isImageURL: string -> bool, isVideoURL: string -> bool)
    ensures SelectMedia(urls, isImageURL, isVideoURL).image.None? <==> forall i :: 0 <= i < |urls| ==> !isImageURL(urls[i])
    ensures SelectMedia(urls, isImageURL, isVideoURL).image.Some? ==>
      exists i :: 0 <= i < |urls| && urls[i] == SelectMedia(urls, isImageURL, isVideoURL).image.value
        && isImageURL(urls[i]) && forall j :: 0 <= j < i ==> !isImageURL(urls[j])
    decreases |urls|
  {
    if urls != [] {
      var init := urls[..|urls| - 1];
      ImageIsFirstMatch(init, isImageURL, isVideoURL);
      assert forall i :: 0 <= i < |init| ==> init[i] == urls[i];
    }
  }

  /** The chosen video is the first URL the video matcher accepts and the
      image matcher rejects, and there is none exactly when there is no such
      URL. */
  lemma {:induction false} VideoIsFirstMatch(urls: seq<string>, isImageURL: string -> bool, isVideoURL: string -> bool)
    ensures SelectMedia(urls, isImageURL, isVideoURL).video.None? <==>
      forall i :: 0 <= i < |urls| ==> isImageURL(urls[i]) || !isVideoURL(urls[i])
    ensures SelectMedia(urls, isImageURL, isVideoURL).video.Some? ==>
      exists i :: 0 <= i < |urls| && urls[i] == SelectMedia(urls, isImageURL, isVideoURL).video.value
        && !isImageURL(urls[i]) && isVideoURL(urls[i])
        && forall j :: 0 <= j < i ==> isImageURL(urls[j]) || !isVideoURL(urls[j])
    decreases |urls|
  {
    if urls != [] {
      var init := urls[..|urls| - 1];
      VideoIsFirstMatch(init, isImageURL, isVideoURL);
      assert forall i :: 0 <= i < |init| ==> init[i] == urls[i];
    }
  }

  function OrEmpty(o: Option<string>): string {
    if o.Some? then o.value else ""
  }

  /** The media fields for every kind but 1063, filled by the loop over the
      URLs of the content. The matcher only finds non-empty URLs, so an
      empty field means "not chosen yet". */
  method ContentMedia(urls: seq<string>, isImageURL: string -> bool, isVideoURL: string -> bool)
    returns (fields: MediaFields)
    requires forall i :: 0 <= i < |urls| ==> urls[i] != ""
    ensures var m := SelectMedia(urls, isImageURL, isVideoURL);
      fields.image == OrEmpty(m.image) && fields.video == OrEmpty(m.video)
      && fields.videoType == (if m.video.Some? then VideoTypeOf(m.video.value) else "")
  {
    var image, video, videoType := "", "", "";
    for n := 0 to |urls|
      invariant var m := SelectMedia(urls[..n], isImageURL, isVideoURL);
        (m.image.None? <==> image == "") && image == OrEmpty(m.image)
        && (m.video.None? <==> video == "") && video == OrEmpty(m.video)
        && videoType == (if m.video.Some? then VideoTypeOf(m.video.value) else "")
    {
      assert urls[..n + 1][..n] == urls[..n];
      var url := urls[n];
      if isImageURL(url) {
        if image == "" {
          image := url;
        }
      } else if isVideoURL(url) {
        if video == "" {
          video := url;
          if HasSuffix(video, "mp4") {
            videoType := "mp4";
          } else if HasSuffix(video, "mov") {
            videoType := "mov";
          } else {
            videoType := "webm";
          }
        }
      }
    }
    assert urls[..|urls|] == urls;
    fields := MediaFields(image, video, videoType);
  }

  // ---------------------------------------------------------------------
  // Kind description

  /** The kind's name from the kindNames table, or "Kind <n>" when the table
      has no name for it (a missing key reads as ""). */
  function KindDescription(kind: int, kindNames: map<int, string>): (r: string)
    ensures r != ""
    ensures kind in kindNames && kindNames[kind] != "" ==> r == kindNames[kind]
    ensures !(kind in kindNames && kindNames[kind] != "") ==> HasPrefix(r, "Kind ") && AllDigitsOrNegative(r[5..])
  {
    var name := if kind in kindNames then kindNames[kind] else "";
    if name == "" then "Kind " + FormatInt(kind) else name
  }

  predicate AllDigitsOrNegative(s: string) {
    (|s| > 0 && s[0] == '-' && AllDigits(s[1..])) || AllDigits(s)
  }

  /** The fallback description names the kind: its number reads back. */
  lemma KindFallbackNamesKind(kind: int, kindNames: map<int, string>)
    requires !(kind in kindNames && kindNames[kind] != "")
    ensures ParseInt(KindDescription(kind, kindNames)[5..]) == kind
  {
    var r := KindDescription(kind, kindNames);
    assert r[5..] == FormatInt(kind);
    FormatIntRoundTrip(kind);
  }
}
