/**
 * The pieces of Go's `strings`, `unicode` and `fmt` packages that the layout
 * core relies on, over strings taken as sequences of characters (runes).
 */
module Text {

  /** Go's unicode.IsSpace: the characters with the Unicode White_Space property. */
  predicate IsSpace(c: char) {
    var n := c as int;
    (0x09 <= n <= 0x0D) || n == 0x20 || n == 0x85 || n == 0xA0 || n == 0x1680
    || (0x2000 <= n <= 0x200A) || n == 0x2028 || n == 0x2029 || n == 0x202F
    || n == 0x205F || n == 0x3000
  }

  /** Every character of `s` is white space (vacuously so for ""). */
  predicate IsBlank(s: string) {
    forall i :: 0 <= i < |s| ==> IsSpace(s[i])
  }

  /** Drops the leading white space: what is left is a suffix of `s` that
      starts with a non-space, and what was dropped is blank. */
  function TrimLeft(s: string): (r: string)
    ensures |r| <= |s| && r == s[|s| - |r|..]
    ensures IsBlank(s[..|s| - |r|])
    ensures r == [] || !IsSpace(r[0])
  {
    if s != [] && IsSpace(s[0]) then TrimLeft(s[1..]) else s
  }

  /** Drops the trailing white space: what is left is a prefix of `s` that
      ends with a non-space, and what was dropped is blank. */
  function TrimRight(s: string): (r: string)
    ensures |r| <= |s| && r == s[..|r|]
    ensures IsBlank(s[|r|..])
    ensures r == [] || !IsSpace(r[|r| - 1])
  {
    if s != [] && IsSpace(s[|s| - 1]) then
      var r := TrimRight(s[..|s| - 1]);
      DropLastSpace(s, r);
      r
    else s
  }

  /** A prefix of `s` minus its last character, followed there by blank
      text, is followed by blank text in `s` too when that last character is
      a space. */
  lemma DropLastSpace(s: string, r: string)
    requires s != [] && IsSpace(s[|s| - 1])
    requires |r| <= |s| - 1 && r == s[..|s| - 1][..|r|] && IsBlank(s[..|s| - 1][|r|..])
    ensures r == s[..|r|] && IsBlank(s[|r|..])
  {
    var t := s[..|s| - 1];
    assert s[..|r|] == t[..|r|];
    assert s[|r|..] == t[|r|..] + [s[|s| - 1]];
  }

  /** Go's strings.TrimSpace. */
  function TrimSpace(s: string): string {
    TrimRight(TrimLeft(s))
  }

  /** `strings.TrimSpace(s) == ""`, the test the source writes, holds exactly
      when `s` is blank. */
  lemma TrimSpaceEmptyIffBlank(s: string)
    ensures TrimSpace(s) == "" <==> IsBlank(s)
  {
    var l := TrimLeft(s);
    var r := TrimRight(l);
    assert l == [] ==> s[..|s|] == s;
    assert l != [] ==> l[0] == s[|s| - |l|];
    assert r == [] ==> l[|r|..] == l;
  }

  /** Go's strings.Contains. */
  predicate Contains(s: string, sub: string) {
    exists i :: 0 <= i <= |s| && HasPrefix(s[i..], sub)
  }

  /** Go's strings.HasPrefix. */
  predicate HasPrefix(s: string, prefix: string) {
    |prefix| <= |s| && s[..|prefix|] == prefix
  }

  /** Go's strings.HasSuffix. */
  predicate HasSuffix(s: string, suffix: string) {
    |suffix| <= |s| && s[|s| - |suffix|..] == suffix
  }

  /** The position of the first `c` in `s`. */
  function IndexOf(s: string, c: char): (r: nat)
    requires c in s
    ensures r < |s| && s[r] == c && c !in s[..r]
  {
    if s[0] == c then 0 else 1 + IndexOf(s[1..], c)
  }

  /** Go's strings.Split with a one-character separator: the pieces between
      the separators, at least one, none containing the separator. */
  function Split(s: string, c: char): (r: seq<string>)
    ensures |r| >= 1
    ensures forall k :: 0 <= k < |r| ==> c !in r[k]
    decreases |s|
  {
    if c !in s then [s]
    else
      var i := IndexOf(s, c);
      [s[..i]] + Split(s[i + 1..], c)
  }

  /** Go's strings.Join. */
  function Join(parts: seq<string>, sep: string): string {
    if |parts| == 0 then ""
    else if |parts| == 1 then parts[0]
    else parts[0] + sep + Join(parts[1..], sep)
  }

  /** Splitting at `c` and joining with `c` gives the text back. */
  lemma {:induction false} JoinSplit(s: string, c: char)
    ensures Join(Split(s, c), [c]) == s
    decreases |s|
  {
    if c in s {
      var i := IndexOf(s, c);
      var rest := Split(s[i + 1..], c);
      JoinSplit(s[i + 1..], c);
      assert Split(s, c) == [s[..i]] + rest;
      assert ([s[..i]] + rest)[1..] == rest;
      assert s == s[..i] + [c] + s[i + 1..];
    }
  }

  /** The first piece of a split is the text before the first separator:
      it equals a separator-free `w` exactly when `s` is `w` or starts
      with `w` followed by the separator. */
  lemma FirstPiece(s: string, c: char, w: string)
    requires c !in w
    ensures Split(s, c)[0] == w <==> (s == w || HasPrefix(s, w + [c]))
  {
    var wc := w + [c];
    assert HasPrefix(s, wc) ==> s[|w|] == c && s[..|w|] == w;
    if c in s {
      var i := IndexOf(s, c);
      assert s[..i] == w ==> s[..i + 1] == wc;
    }
  }

  /** The first piece of a split is a prefix of the text. */
  lemma FirstPieceIsPrefix(s: string, c: char)
    ensures HasPrefix(s, Split(s, c)[0])
  {
    if c in s {
      assert Split(s, c)[0] == s[..IndexOf(s, c)];
    }
  }

  /** Split yields a second piece exactly when the separator occurs; that
      piece is the text between the first and the second separator: it is
      followed by the end of the text or by another separator. */
  lemma SecondPiece(s: string, c: char)
    ensures |Split(s, c)| >= 2 <==> c in s
    ensures c in s ==> HasPrefix(s, Split(s, c)[0] + [c] + Split(s, c)[1])
    ensures c in s ==> var w := Split(s, c)[0] + [c] + Split(s, c)[1];
      s == w || HasPrefix(s, w + [c])
  {
    if c in s {
      var i := IndexOf(s, c);
      var t := s[i + 1..];
      var rest := Split(t, c);
      SplitAtFirst(s, c);
      FirstPieceIsPrefix(t, c);
      var p := rest[0];
      assert t[..|p|] == p;
      SliceAfter(s, i, |p|);
      FirstPiece(t, c, p);
      SecondPieceEnds(s, i, p, c);
    }
  }

  /** The text after the first separator ending at `p` puts `p` at the end
      of the whole text, or before another separator. */
  lemma SecondPieceEnds(s: string, i: nat, p: string, c: char)
    requires i < |s| && s[i] == c
    requires s[i + 1..] == p || HasPrefix(s[i + 1..], p + [c])
    ensures s == s[..i] + [c] + p || HasPrefix(s, s[..i] + [c] + p + [c])
  {
    assert s == s[..i] + [c] + s[i + 1..];
    if s[i + 1..] != p {
      var t := s[i + 1..];
      assert t[..|p| + 1] == p + [c];
      assert s[..i + 1 + |p| + 1] == s[..i] + [c] + t[..|p| + 1];
    }
  }

  /** Splitting a text with a separator in it: the piece before the first
      separator, then the pieces of what follows it. */
  lemma SplitAtFirst(s: string, c: char)
    requires c in s
    ensures Split(s, c) == [s[..IndexOf(s, c)]] + Split(s[IndexOf(s, c) + 1..], c)
  {
  }

  lemma SliceAfter(s: string, i: nat, n: nat)
    requires i + 1 + n <= |s|
    ensures s[..i + 1 + n] == s[..i] + [s[i]] + s[i + 1..][..n]
  {
  }

  /** The decimal digit character for `d`. */
  function DigitChar(d: nat): (c: char)
    requires d < 10
    ensures '0' <= c <= '9'
  {
    ('0' as int + d) as char
  }

  /** Go's strconv formatting (the `%d` verb) of a natural number. */
  function FormatNat(n: nat): (s: string)
    ensures |s| >= 1 && forall i :: 0 <= i < |s| ==> '0' <= s[i] <= '9'
    decreases n
  {
    if n < 10 then [DigitChar(n)] else FormatNat(n / 10) + [DigitChar(n % 10)]
  }

  /** The `%d` verb of fmt.Sprintf: a minus sign for negative numbers. */
  function FormatInt(n: int): string {
    if n < 0 then "-" + FormatNat(-n) else FormatNat(n)
  }

  predicate AllDigits(s: string) {
    forall i :: 0 <= i < |s| ==> '0' <= s[i] <= '9'
  }

  /** Reads a decimal numeral; the partner of FormatNat. */
  function ParseNat(s: string): nat
    requires AllDigits(s)
  {
    if s == [] then 0 else ParseNat(s[..|s| - 1]) * 10 + (s[|s| - 1] as int - '0' as int)
  }

  /** Reads an optionally negative decimal numeral; the partner of FormatInt. */
  function ParseInt(s: string): int
    requires (|s| > 0 && s[0] == '-' && AllDigits(s[1..])) || AllDigits(s)
  {
    if |s| > 0 && s[0] == '-' then -(ParseNat(s[1..]) as int) else ParseNat(s)
  }

  lemma {:induction false} ParseFormatNat(n: nat)
    ensures ParseNat(FormatNat(n)) == n
    decreases n
  {
    if n >= 10 {
      ParseFormatNat(n / 10);
      var s := FormatNat(n);
      assert s[..|s| - 1] == FormatNat(n / 10);
    }
  }

  /** Formatting with `%d` loses nothing: the numeral reads back as `n`. */
  lemma FormatIntRoundTrip(n: int)
    ensures FormatInt(n) != "" && FormatInt(n)[0] != '-' ==> n >= 0
    ensures ParseInt(FormatInt(n)) == n
  {
    if n < 0 {
      ParseFormatNat(-n);
      assert ("-" + FormatNat(-n))[1..] == FormatNat(-n);
    } else {
      ParseFormatNat(n);
    }
  }

  /** The number of bytes of the UTF-8 encoding of a character. */
  function Utf8Width(c: char): nat {
    if c as int < 0x80 then 1
    else if c as int < 0x800 then 2
    else if c as int < 0x10000 then 3
    else 4
  }

  /** The length in bytes of the UTF-8 encoding of `s`, which is what Go's
      len() of a string counts. */
  function Utf8Length(s: string): nat {
    if s == [] then 0 else Utf8Length(s[..|s| - 1]) + Utf8Width(s[|s| - 1])
  }

  lemma {:induction false} Utf8LengthConcat(a: string, b: string)
    ensures Utf8Length(a + b) == Utf8Length(a) + Utf8Length(b)
    decreases |b|
  {
    if b != [] {
      Utf8LengthConcat(a, b[..|b| - 1]);
      assert (a + b)[..|a + b| - 1] == a + b[..|b| - 1];
      assert (a + b)[|a + b| - 1] == b[|b| - 1];
    } else {
      assert a + b == a;
    }
  }

  predicate IsAscii(s: string) {
    forall i :: 0 <= i < |s| ==> s[i] as int < 0x80
  }

  /** On ASCII text, bytes and characters coincide. */
  lemma {:induction false} AsciiUtf8Length(s: string)
    requires IsAscii(s)
    ensures Utf8Length(s) == |s|
    decreases |s|
  {
    if s != [] {
      AsciiUtf8Length(s[..|s| - 1]);
    }
  }
}
