/** Redaction of logged HTTP bodies: whole bodies by keyword, then three-part tokens. */
module Redaction {
  import opened Text

  const DOT: Byte := 46
  const OPEN: Byte := 60
  const CLOSE: Byte := 62

  /** "REDACTED" and "<REDACTED>". */
  const MARK: Bytes := [82, 69, 68, 65, 67, 84, 69, 68]
  const REDACTED: Bytes := [OPEN] + MARK + [CLOSE]

  /** "BODY REDACTED" and "<BODY REDACTED>". */
  const BODY_MARK: Bytes := [66, 79, 68, 89, 32, 82, 69, 68, 65, 67, 84, 69, 68]
  const BODY_REDACTED: Bytes := [OPEN] + BODY_MARK + [CLOSE]

  // ---- tokens ----

  /** `[A-Za-z0-9_-]` */
  predicate Word(b: Byte) {
    65 <= b <= 90 || 97 <= b <= 122 || 48 <= b <= 57 || b == 95 || b == 45
  }

  predicate Words(s: Bytes) {
    forall i :: 0 <= i < |s| ==> Word(s[i])
  }

  /** The language of the pattern: three parts of at least two word bytes, joined by dots. */
  ghost predicate Token(t: Bytes) {
    exists a: Bytes, b: Bytes, c: Bytes {:trigger Parts(t, a, b, c)} :: Parts(t, a, b, c)
  }

  ghost predicate Parts(t: Bytes, a: Bytes, b: Bytes, c: Bytes) {
    t == a + [DOT] + b + [DOT] + c && |a| >= 2 && |b| >= 2 && |c| >= 2 && Words(a) && Words(b) && Words(c)
  }

  ghost predicate TokenFree(s: Bytes) {
    forall i, j :: 0 <= i <= j <= |s| ==> !Token(s[i..j])
  }

  /** How many word bytes `s` begins with. */
  function WordLen(s: Bytes): (n: nat)
    ensures n <= |s| && (forall i :: 0 <= i < n ==> Word(s[i])) && (n < |s| ==> !Word(s[n]))
  {
    if s == [] || !Word(s[0]) then 0 else 1 + WordLen(s[1..])
  }

  /** The length of a part and the dot behind it, 0 if `s` does not begin with them. */
  function DottedLen(s: Bytes): (n: nat)
    ensures n <= |s|
  {
    var a := WordLen(s);
    if a < 2 || a == |s| || s[a] != DOT then 0 else a + 1
  }

  /** The length of the match the regular expression finds at the start of `s`, 0 for none. */
  function TokenLen(s: Bytes): (n: nat)
    ensures n <= |s|
  {
    var a := DottedLen(s);
    var b := DottedLen(s[a..]);
    var c := WordLen(s[a + b..]);
    if a == 0 || b == 0 || c < 2 then 0 else a + b + c
  }

  lemma {:induction false} FirstWord(word: Bytes, rest: Bytes)
    requires Words(word)
    ensures |word| <= WordLen(word + rest)
    ensures rest != [] && !Word(rest[0]) ==> WordLen(word + rest) == |word|
  {
    if word == [] {
      assert word + rest == rest;
    } else {
      FirstWord(word[1..], rest);
      assert (word + rest)[1..] == word[1..] + rest;
    }
  }

  lemma FirstDotted(word: Bytes, rest: Bytes)
    requires Words(word) && |word| >= 2
    ensures DottedLen(word + [DOT] + rest) == |word| + 1
    ensures (word + [DOT] + rest)[|word| + 1..] == rest
  {
    FirstWord(word, [DOT] + rest);
    assert word + [DOT] + rest == word + ([DOT] + rest);
  }

  lemma DottedIs(s: Bytes)
    requires DottedLen(s) > 0
    ensures var n := DottedLen(s) - 1; n >= 2 && Words(s[..n]) && s == s[..n] + [DOT] + s[n + 1..]
  {
  }

  lemma MatchIsToken(s: Bytes)
    ensures TokenLen(s) > 0 ==> Token(s[..TokenLen(s)])
  {
    var n := TokenLen(s);
    if n > 0 {
      var a := DottedLen(s);
      var b := DottedLen(s[a..]);
      DottedIs(s);
      DottedIs(s[a..]);
      var c := s[a + b..n];
      var x, y := s[..a - 1], s[a..][..b - 1];
      assert s[..n] == x + [DOT] + y + [DOT] + c;
      assert Parts(s[..n], x, y, c);
    }
  }

  lemma LongerThanParts(a: Bytes, b: Bytes, c: Bytes, rest: Bytes)
    requires |a| >= 2 && |b| >= 2 && |c| >= 2 && Words(a) && Words(b) && Words(c)
    ensures TokenLen(a + [DOT] + (b + [DOT] + (c + rest))) >= |a| + |b| + |c| + 2
  {
    var s1 := b + [DOT] + (c + rest);
    var s := a + [DOT] + s1;
    FirstDotted(a, s1);
    FirstDotted(b, c + rest);
    FirstWord(c, rest);
    assert s[DottedLen(s) + DottedLen(s1)..] == s[DottedLen(s)..][DottedLen(s1)..];
  }

  /** No token at the start of `s` is longer than the match found there. */
  lemma MatchIsLongest(s: Bytes, n: nat)
    requires n <= |s|
    ensures Token(s[..n]) ==> 0 < n <= TokenLen(s)
  {
    if Token(s[..n]) {
      var a, b, c :| Parts(s[..n], a, b, c);
      Reassociate(s, n, a, b, c);
      LongerThanParts(a, b, c, s[n..]);
    }
  }

  lemma Reassociate(s: Bytes, n: nat, a: Bytes, b: Bytes, c: Bytes)
    requires n <= |s| && s[..n] == a + [DOT] + b + [DOT] + c
    ensures s == a + [DOT] + (b + [DOT] + (c + s[n..]))
  {
  }

  // ---- replacing every match ----

  /** `Regexp.ReplaceAll` for an expression whose match at the start of a text has length
      `matchLen(text)`, 0 for none: scan from the left, replace each match, go on behind it. */
  function ReplaceAll(matchLen: Bytes -> nat, mark: Bytes, s: Bytes): Bytes {
    if s == [] then []
    else if 0 < matchLen(s) <= |s| then mark + ReplaceAll(matchLen, mark, s[matchLen(s)..])
    else [s[0]] + ReplaceAll(matchLen, mark, s[1..])
  }

  function RedactJwtTokens(s: Bytes): Bytes {
    ReplaceAll(TokenLen, REDACTED, s)
  }

  /** The matcher finds, at the start of a text, the longest token there, or nothing. */
  ghost predicate LongestTokens(matchLen: Bytes -> nat) {
    forall s: Bytes {:trigger matchLen(s)} ::
      matchLen(s) <= |s| && (matchLen(s) > 0 ==> Token(s[..matchLen(s)])) &&
      forall n :: 0 <= n <= |s| && Token(s[..n]) ==> 0 < n <= matchLen(s)
  }

  lemma TokenLenFindsLongest()
    ensures LongestTokens(TokenLen)
  {
    forall s: Bytes
      ensures TokenLen(s) > 0 ==> Token(s[..TokenLen(s)])
      ensures forall n :: 0 <= n <= |s| && Token(s[..n]) ==> 0 < n <= TokenLen(s)
    {
      MatchIsToken(s);
      forall n | 0 <= n <= |s| && Token(s[..n]) ensures 0 < n <= TokenLen(s) {
        MatchIsLongest(s, n);
      }
    }
  }

  predicate WordOrDot(b: Byte) {
    Word(b) || b == DOT
  }

  lemma TokenBytes(t: Bytes)
    ensures Token(t) ==> DOT in t && |t| >= 8 && forall i :: 0 <= i < |t| ==> WordOrDot(t[i])
  {
  }

  /** Up to the first replacement the output is the input. */
  lemma {:induction false} PlainPrefix(matchLen: Bytes -> nat, s: Bytes, n: nat)
    requires n <= |ReplaceAll(matchLen, REDACTED, s)|
    requires forall i :: 0 <= i < n ==> WordOrDot(ReplaceAll(matchLen, REDACTED, s)[i])
    ensures n <= |s| && forall i :: 0 <= i < n ==> s[i] == ReplaceAll(matchLen, REDACTED, s)[i]
    decreases |s|
  {
    if s != [] {
      var r := ReplaceAll(matchLen, REDACTED, s);
      if 0 < matchLen(s) <= |s| {
        assert r[0] == OPEN;
      } else if n > 0 {
        var rest := ReplaceAll(matchLen, REDACTED, s[1..]);
        assert forall i :: 0 <= i < n - 1 ==> rest[i] == r[i + 1];
        PlainPrefix(matchLen, s[1..], n - 1);
        assert forall i :: 0 < i < n ==> s[i] == s[1..][i - 1];
      }
    }
  }

  /** A stretch that touches a replacement is no token. */
  lemma NoTokenInMark(tail: Bytes, i: nat, j: nat)
    requires i <= j <= |REDACTED + tail| && i < |REDACTED|
    ensures !Token((REDACTED + tail)[i..j])
  {
    var t := (REDACTED + tail)[i..j];
    TokenBytes(t);
    if j >= 10 {
      assert t[9 - i] == CLOSE;
    } else {
      assert forall k :: 0 <= k < |t| ==> t[k] == REDACTED[i + k] != DOT;
    }
  }

  /** Nor does a token begin at a byte that was kept. */
  lemma NoTokenAtKept(matchLen: Bytes -> nat, s: Bytes, j: nat)
    requires LongestTokens(matchLen) && matchLen(s) == 0
    requires j <= |ReplaceAll(matchLen, REDACTED, s)|
    ensures !Token(ReplaceAll(matchLen, REDACTED, s)[..j])
  {
    var t := ReplaceAll(matchLen, REDACTED, s)[..j];
    TokenBytes(t);
    if forall k :: 0 <= k < |t| ==> WordOrDot(t[k]) {
      assert forall k :: 0 <= k < j ==> ReplaceAll(matchLen, REDACTED, s)[k] == t[k];
      PlainPrefix(matchLen, s, j);
      assert s[..j] == t;
    }
  }

  /** A stretch of the output behind the first byte, or behind the first replacement, is one of
      the output for the rest of the input. */
  lemma OutputBehind(matchLen: Bytes -> nat, s: Bytes, i: nat, j: nat)
    requires s != [] && matchLen(s) <= |s| && i <= j <= |ReplaceAll(matchLen, REDACTED, s)|
    ensures var r := ReplaceAll(matchLen, REDACTED, s);
            && (matchLen(s) == 0 && i >= 1 ==>
                  var tail := ReplaceAll(matchLen, REDACTED, s[1..]);
                  j - 1 <= |tail| && r[i..j] == tail[i - 1..j - 1])
            && (matchLen(s) > 0 ==>
                  var tail := ReplaceAll(matchLen, REDACTED, s[matchLen(s)..]);
                  r == REDACTED + tail && (i >= 10 ==> j - 10 <= |tail| && r[i..j] == tail[i - 10..j - 10]))
  {
  }

  lemma {:induction false} NoTokenAt(matchLen: Bytes -> nat, s: Bytes, i: nat, j: nat)
    requires LongestTokens(matchLen) && i <= j <= |ReplaceAll(matchLen, REDACTED, s)|
    ensures !Token(ReplaceAll(matchLen, REDACTED, s)[i..j])
    decreases |s|
  {
    var r := ReplaceAll(matchLen, REDACTED, s);
    if s == [] {
      TokenBytes(r[i..j]);
    } else if matchLen(s) > 0 {
      OutputBehind(matchLen, s, i, j);
      var rest := s[matchLen(s)..];
      if i >= 10 {
        NoTokenAt(matchLen, rest, i - 10, j - 10);
      } else {
        NoTokenInMark(ReplaceAll(matchLen, REDACTED, rest), i, j);
      }
    } else if i >= 1 {
      OutputBehind(matchLen, s, i, j);
      NoTokenAt(matchLen, s[1..], i - 1, j - 1);
    } else {
      NoTokenAtKept(matchLen, s, j);
      assert r[i..j] == r[..j];
    }
  }

  /** Nothing that matches the pattern survives, anywhere in the output. */
  lemma NoTokenSurvives(s: Bytes)
    ensures TokenFree(RedactJwtTokens(s))
  {
    TokenLenFindsLongest();
    forall i, j | 0 <= i <= j <= |RedactJwtTokens(s)| ensures !Token(RedactJwtTokens(s)[i..j]) {
      NoTokenAt(TokenLen, s, i, j);
    }
  }

  // ---- what is kept ----

  /** The leftmost token of `s` is `token`, longest where it stands, with `gap` before it and `rest` behind. */
  ghost predicate FirstToken(s: Bytes, gap: Bytes, token: Bytes, rest: Bytes) {
    && s == gap + token + rest && Token(token)
    && (forall i, j :: 0 <= i < |gap| && i <= j <= |s| ==> !Token(s[i..j]))
    && (forall j :: |gap| <= j <= |s| && Token(s[|gap|..j]) ==> j <= |gap| + |token|)
  }

  /** `s` cut at its leftmost, longest, non-overlapping tokens. */
  ghost predicate Segmented(s: Bytes, gaps: seq<Bytes>, tokens: seq<Bytes>) {
    |gaps| == |tokens| + 1 &&
    if tokens == [] then gaps[0] == s && TokenFree(s)
    else |gaps[0]| + |tokens[0]| <= |s| &&
         var rest := s[|gaps[0]| + |tokens[0]|..];
         FirstToken(s, gaps[0], tokens[0], rest) && Segmented(rest, gaps[1..], tokens[1..])
  }

  function Marked(gaps: seq<Bytes>, mark: Bytes): Bytes {
    if gaps == [] then []
    else if |gaps| == 1 then gaps[0]
    else gaps[0] + mark + Marked(gaps[1..], mark)
  }

  lemma NoTokenInNothing()
    ensures TokenFree([])
  {
  }

  lemma TokenAtFront(s: Bytes, n: nat)
    requires 0 < n <= |s| && Token(s[..n]) && forall j :: 0 <= j <= |s| && Token(s[..j]) ==> j <= n
    ensures FirstToken(s, [], s[..n], s[n..])
  {
  }

  lemma Regrouped(b: Byte, gap: Bytes, rest: Bytes)
    ensures [b] + (gap + rest) == [b] + gap + rest
  {
  }

  lemma {:induction false} FindFirst(matchLen: Bytes -> nat, mark: Bytes, s: Bytes)
    returns (gap: Bytes, token: Bytes, rest: Bytes)
    requires LongestTokens(matchLen)
    ensures if token == [] then ReplaceAll(matchLen, mark, s) == s && TokenFree(s)
            else FirstToken(s, gap, token, rest) &&
                 ReplaceAll(matchLen, mark, s) == gap + (mark + ReplaceAll(matchLen, mark, rest))
    decreases |s|
  {
    if s == [] {
      gap, token, rest := [], [], [];
      NoTokenInNothing();
    } else if matchLen(s) > 0 {
      gap, token, rest := [], s[..matchLen(s)], s[matchLen(s)..];
      TokenAtFront(s, matchLen(s));
      assert [] + (mark + ReplaceAll(matchLen, mark, rest)) == mark + ReplaceAll(matchLen, mark, rest);
    } else {
      gap, token, rest := FindFirst(matchLen, mark, s[1..]);
      if token == [] {
        NoTokenUpTo(s, |s| - 1);
        TokenBytes(s[|s|..]);
      } else {
        NoTokenUpTo(s, |gap|);
        LaterToken(s, gap, token, rest);
        Regrouped(s[0], gap, mark + ReplaceAll(matchLen, mark, rest));
        gap := [s[0]] + gap;
      }
    }
  }

  /** No token at the front, and none in the tail before place `m`. */
  lemma NoTokenUpTo(s: Bytes, m: nat)
    requires s != [] && m <= |s| - 1
    requires forall j :: 0 <= j <= |s| ==> !Token(s[..j])
    requires forall i, j :: 0 <= i < m && i <= j <= |s[1..]| ==> !Token(s[1..][i..j])
    ensures forall i, j :: 0 <= i <= m && i <= j <= |s| ==> !Token(s[i..j])
  {
    forall i, j | 0 <= i <= m && i <= j <= |s| ensures !Token(s[i..j]) {
      if i == 0 {
        assert s[i..j] == s[..j];
      } else {
        assert s[i..j] == s[1..][i - 1..j - 1];
      }
    }
  }

  lemma LaterToken(s: Bytes, gap: Bytes, token: Bytes, rest: Bytes)
    requires s != [] && FirstToken(s[1..], gap, token, rest)
    requires forall i, j :: 0 <= i <= |gap| && i <= j <= |s| ==> !Token(s[i..j])
    ensures FirstToken(s, [s[0]] + gap, token, rest)
  {
    var gap' := [s[0]] + gap;
    assert s == [s[0]] + s[1..] == gap' + token + rest;
    forall j | |gap'| <= j <= |s| && Token(s[|gap'|..j]) ensures j <= |gap'| + |token| {
      assert s[|gap'|..j] == s[1..][|gap|..j - 1];
    }
  }

  lemma {:induction false} SegmentAll(matchLen: Bytes -> nat, mark: Bytes, s: Bytes)
    returns (gaps: seq<Bytes>, tokens: seq<Bytes>)
    requires LongestTokens(matchLen)
    ensures Segmented(s, gaps, tokens) && ReplaceAll(matchLen, mark, s) == Marked(gaps, mark)
    decreases |s|
  {
    var gap, token, rest := FindFirst(matchLen, mark, s);
    if token == [] {
      gaps, tokens := [s], [];
    } else {
      TokenBytes(token);
      var gaps', tokens' := SegmentAll(matchLen, mark, rest);
      gaps, tokens := [gap] + gaps', [token] + tokens';
      assert s[|gap| + |token|..] == rest;
      assert gaps[1..] == gaps' && tokens[1..] == tokens';
      assert gap + mark + Marked(gaps', mark) == gap + (mark + Marked(gaps', mark));
    }
  }

  lemma FirstTokenUnique(s: Bytes, g: Bytes, t: Bytes, r: Bytes, g': Bytes, t': Bytes, r': Bytes)
    requires FirstToken(s, g, t, r) && FirstToken(s, g', t', r')
    ensures g == g' && t == t' && r == r'
  {
    assert s[|g|..|g| + |t|] == t && s[|g'|..|g'| + |t'|] == t';
    assert s[..|g|] == g && s[..|g'|] == g';
    assert s[|g| + |t|..] == r && s[|g'| + |t'|..] == r';
  }

  /** A text can be cut in only one way. */
  lemma {:induction false} SegmentsUnique(s: Bytes, gaps: seq<Bytes>, tokens: seq<Bytes>, gaps': seq<Bytes>, tokens': seq<Bytes>)
    requires Segmented(s, gaps, tokens) && Segmented(s, gaps', tokens')
    ensures gaps == gaps' && tokens == tokens'
    decreases |tokens|
  {
    if tokens != [] {
      assert s[|gaps[0]|..|gaps[0]| + |tokens[0]|] == tokens[0];
    }
    if tokens' != [] {
      assert s[|gaps'[0]|..|gaps'[0]| + |tokens'[0]|] == tokens'[0];
    }
    if tokens != [] && tokens' != [] {
      var rest, rest' := s[|gaps[0]| + |tokens[0]|..], s[|gaps'[0]| + |tokens'[0]|..];
      FirstTokenUnique(s, gaps[0], tokens[0], rest, gaps'[0], tokens'[0], rest');
      SegmentsUnique(rest, gaps[1..], tokens[1..], gaps'[1..], tokens'[1..]);
      assert gaps == [gaps[0]] + gaps[1..] && gaps' == [gaps'[0]] + gaps'[1..];
      assert tokens == [tokens[0]] + tokens[1..] && tokens' == [tokens'[0]] + tokens'[1..];
    }
  }

  /** The output is the input with its leftmost, longest, non-overlapping tokens, and nothing
      else, replaced: cutting the input at those tokens is possible in one way only, and the
      output is the pieces between them joined by the mark. */
  lemma RedactionKeepsTheRest(s: Bytes, gaps: seq<Bytes>, tokens: seq<Bytes>)
    requires Segmented(s, gaps, tokens)
    ensures RedactJwtTokens(s) == Marked(gaps, REDACTED)
  {
    TokenLenFindsLongest();
    var gaps', tokens' := SegmentAll(TokenLen, REDACTED, s);
    SegmentsUnique(s, gaps, tokens, gaps', tokens');
  }

  lemma CanBeSegmented(s: Bytes) returns (gaps: seq<Bytes>, tokens: seq<Bytes>)
    ensures Segmented(s, gaps, tokens)
  {
    TokenLenFindsLongest();
    gaps, tokens := SegmentAll(TokenLen, REDACTED, s);
  }

  /** Redaction leaves a body as it is exactly when no part of it matches the pattern. */
  lemma UnchangedIffTokenFree(s: Bytes)
    ensures RedactJwtTokens(s) == s <==> TokenFree(s)
  {
    NoTokenSurvives(s);
    TokenLenFindsLongest();
    var gap, token, rest := FindFirst(TokenLen, REDACTED, s);
    if token != [] {
      assert s[|gap|..|gap| + |token|] == token;
    }
  }

  // ---- keywords ----

  /** "password", "secret", "token", "credential". */
  const KEYWORDS: seq<Bytes> := [
    [112, 97, 115, 115, 119, 111, 114, 100], [115, 101, 99, 114, 101, 116],
    [116, 111, 107, 101, 110], [99, 114, 101, 100, 101, 110, 116, 105, 97, 108]]

  ghost predicate HasKeyword(s: Bytes) {
    exists k :: 0 <= k < |KEYWORDS| && Contains(s, KEYWORDS[k])
  }

  function LowerByte(b: Byte): Byte {
    if 65 <= b <= 90 then b + 32 else b
  }

  /** What redaction needs of `bytes.ToLower`, which also maps non-ASCII letters: an ASCII byte
      is mapped on its own, whatever stands around it. */
  ghost predicate Lowering(lower: Bytes -> Bytes) {
    lower([]) == [] &&
    forall x: Bytes, b: Byte, y: Bytes {:trigger Around(x, b, y)} ::
      b < 128 ==> lower(Around(x, b, y)) == lower(x) + [LowerByte(b)] + lower(y)
  }

  ghost function Around(x: Bytes, b: Byte, y: Bytes): Bytes {
    x + [b] + y
  }

  ghost function RedactBodyByKeyword(lower: Bytes -> Bytes, body: Bytes): Bytes {
    if HasKeyword(lower(body)) then BODY_REDACTED else body
  }

  /** The two redactions in the order the log messages use. */
  ghost function Redact(lower: Bytes -> Bytes, body: Bytes): Bytes {
    RedactJwtTokens(RedactBodyByKeyword(lower, body))
  }

  function LowerAscii(s: Bytes): Bytes {
    seq(|s|, i requires 0 <= i < |s| => LowerByte(s[i]))
  }

  lemma LowerAsciiIsLowering()
    ensures Lowering(LowerAscii)
  {
  }

  lemma {:induction false} LowerAround(lower: Bytes -> Bytes, x: Bytes, a: Bytes, y: Bytes)
    requires Lowering(lower) && a != [] && forall i :: 0 <= i < |a| ==> a[i] < 128
    ensures lower(x + a + y) == lower(x) + LowerAscii(a) + lower(y)
    decreases |a|
  {
    assert x + a + y == Around(x, a[0], a[1..] + y);
    if |a| == 1 {
      assert a[1..] + y == y;
      assert LowerAscii(a) == [LowerByte(a[0])];
    } else {
      LowerAround(lower, [], a[1..], y);
      assert [] + a[1..] + y == a[1..] + y;
      assert LowerAscii(a) == [LowerByte(a[0])] + LowerAscii(a[1..]);
    }
  }

  /** The marks spell no keyword. */
  lemma MarksAreClean(k: nat)
    requires k < |KEYWORDS|
    ensures var sub := KEYWORDS[k];
            sub != [] && OPEN !in sub && CLOSE !in sub
            && !Contains(LowerAscii(MARK), sub) && !Contains(LowerAscii(BODY_MARK), sub) && !Contains([], sub)
  {
    NoBigram(LowerAscii(MARK), KEYWORDS[k]);
    NoBigram(LowerAscii(BODY_MARK), KEYWORDS[k]);
  }

  lemma NoBigram(s: Bytes, sub: Bytes)
    requires |sub| >= 2 && forall i :: 0 <= i < |s| - 1 ==> !(s[i] == sub[0] && s[i + 1] == sub[1])
    ensures !Contains(s, sub)
  {
    forall i: nat ensures !OccursAt(s, i, sub) {
      assert i + |sub| <= |s| ==> s[i..i + |sub|][0] == s[i] && s[i..i + |sub|][1] == s[i + 1];
    }
  }

  /** A keyword across a mark would have to lie on one side of it. */
  lemma MarkSeparates(x: Bytes, mark: Bytes, y: Bytes, sub: Bytes)
    requires sub != [] && OPEN !in sub && CLOSE !in sub && !Contains(mark, sub)
    requires Contains(x + ([OPEN] + mark + [CLOSE]) + y, sub)
    ensures Contains(x, sub) || Contains(y, sub)
  {
    assert x + ([OPEN] + mark + [CLOSE]) + y == x + [OPEN] + (mark + [CLOSE] + y);
    ContainsSplit(x, OPEN, mark + [CLOSE] + y, sub);
    if Contains(mark + [CLOSE] + y, sub) {
      ContainsSplit(mark, CLOSE, y, sub);
    }
  }

  lemma LowerMark(lower: Bytes -> Bytes, x: Bytes, mark: Bytes, y: Bytes)
    requires Lowering(lower) && forall i :: 0 <= i < |mark| ==> mark[i] < 128
    ensures lower(x + ([OPEN] + mark + [CLOSE]) + y) == lower(x) + ([OPEN] + LowerAscii(mark) + [CLOSE]) + lower(y)
  {
    LowerAround(lower, x, [OPEN] + mark + [CLOSE], y);
    assert LowerAscii([OPEN] + mark + [CLOSE]) == [OPEN] + LowerAscii(mark) + [CLOSE];
  }

  /** A keyword in the redacted text was in the gap or comes from the rest. */
  lemma KeywordPastMark(low: Bytes, lowGap: Bytes, lowRest: Bytes, k: nat)
    requires k < |KEYWORDS| && low == lowGap + ([OPEN] + LowerAscii(MARK) + [CLOSE]) + lowRest
    ensures Contains(low, KEYWORDS[k]) ==> Contains(lowGap, KEYWORDS[k]) || Contains(lowRest, KEYWORDS[k])
  {
    MarksAreClean(k);
    if Contains(low, KEYWORDS[k]) {
      MarkSeparates(lowGap, LowerAscii(MARK), lowRest, KEYWORDS[k]);
    }
  }

  lemma ContainsInParts(x: Bytes, mid: Bytes, y: Bytes, sub: Bytes)
    ensures Contains(x, sub) || Contains(y, sub) ==> Contains(x + mid + y, sub)
  {
    assert [] + x + (mid + y) == x + mid + y;
    assert (x + mid) + y + [] == x + mid + y;
    if Contains(x, sub) {
      ContainsIn([], x, mid + y, sub);
    } else if Contains(y, sub) {
      ContainsIn(x + mid, y, [], sub);
    }
  }

  /** Replacing tokens brings no keyword into a text. */
  lemma {:induction false} NoNewKeyword(lower: Bytes -> Bytes, matchLen: Bytes -> nat, s: Bytes, k: nat)
    requires Lowering(lower) && LongestTokens(matchLen) && k < |KEYWORDS|
    ensures Contains(lower(ReplaceAll(matchLen, REDACTED, s)), KEYWORDS[k]) ==> Contains(lower(s), KEYWORDS[k])
    decreases |s|
  {
    var gap, token, rest := FindFirst(matchLen, REDACTED, s);
    if token != [] {
      NoNewKeyword(lower, matchLen, rest, k);
      TokenBytes(token);
      KeywordPastToken(lower, gap, token, rest, ReplaceAll(matchLen, REDACTED, rest), k);
      assert gap + (REDACTED + ReplaceAll(matchLen, REDACTED, rest)) == gap + REDACTED + ReplaceAll(matchLen, REDACTED, rest);
    }
  }

  lemma KeywordPastToken(lower: Bytes -> Bytes, gap: Bytes, token: Bytes, rest: Bytes, out: Bytes, k: nat)
    requires Lowering(lower) && k < |KEYWORDS|
    requires token != [] && forall i :: 0 <= i < |token| ==> token[i] < 128
    requires Contains(lower(out), KEYWORDS[k]) ==> Contains(lower(rest), KEYWORDS[k])
    ensures Contains(lower(gap + REDACTED + out), KEYWORDS[k]) ==> Contains(lower(gap + token + rest), KEYWORDS[k])
  {
    LowerMark(lower, gap, MARK, out);
    LowerAround(lower, gap, token, rest);
    KeywordPastMark(lower(gap + REDACTED + out), lower(gap), lower(out), k);
    ContainsInParts(lower(gap), LowerAscii(token), lower(rest), KEYWORDS[k]);
  }

  lemma BodyMarkIsStable(lower: Bytes -> Bytes)
    requires Lowering(lower)
    ensures !HasKeyword(lower(BODY_REDACTED)) && RedactJwtTokens(BODY_REDACTED) == BODY_REDACTED
  {
    forall k | 0 <= k < |KEYWORDS| ensures !Contains(lower(BODY_REDACTED), KEYWORDS[k]) {
      MarksAreClean(k);
      LowerMark(lower, [], BODY_MARK, []);
      assert [] + ([OPEN] + BODY_MARK + [CLOSE]) + [] == BODY_REDACTED;
      if Contains(lower(BODY_REDACTED), KEYWORDS[k]) {
        MarkSeparates([], LowerAscii(BODY_MARK), [], KEYWORDS[k]);
      }
    }
    forall i, j | 0 <= i <= j <= |BODY_REDACTED| ensures !Token(BODY_REDACTED[i..j]) {
      TokenBytes(BODY_REDACTED[i..j]);
      assert forall m :: 0 <= m < |BODY_REDACTED[i..j]| ==> BODY_REDACTED[i..j][m] == BODY_REDACTED[i + m] != DOT;
    }
    UnchangedIffTokenFree(BODY_REDACTED);
  }

  /** The pipeline is idempotent: what was logged once needs no second redaction. It leaves no
      token, and no keyword, in whatever it returns. */
  lemma RedactIsIdempotent(lower: Bytes -> Bytes, body: Bytes)
    requires Lowering(lower)
    ensures Redact(lower, Redact(lower, body)) == Redact(lower, body)
    ensures TokenFree(Redact(lower, body))
    ensures !HasKeyword(lower(Redact(lower, body)))
  {
    var once := Redact(lower, body);
    TokenLenFindsLongest();
    NoTokenSurvives(RedactBodyByKeyword(lower, body));
    BodyMarkIsStable(lower);
    if !HasKeyword(lower(body)) {
      forall k | 0 <= k < |KEYWORDS| ensures !Contains(lower(once), KEYWORDS[k]) {
        NoNewKeyword(lower, TokenLen, body, k);
      }
    }
    UnchangedIffTokenFree(once);
  }

  /** The pipeline leaves a body as it is exactly when there is neither a keyword nor a token in it. */
  lemma RedactUnchangedIff(lower: Bytes -> Bytes, body: Bytes)
    requires Lowering(lower)
    ensures Redact(lower, body) == body <==> !HasKeyword(lower(body)) && TokenFree(body)
  {
    RedactIsIdempotent(lower, body);
    UnchangedIffTokenFree(body);
  }

  /** Without a keyword, only the tokens are gone; with one, everything is. */
  lemma RedactIs(lower: Bytes -> Bytes, body: Bytes, gaps: seq<Bytes>, tokens: seq<Bytes>)
    requires Lowering(lower) && Segmented(body, gaps, tokens)
    ensures Redact(lower, body) == if HasKeyword(lower(body)) then BODY_REDACTED else Marked(gaps, REDACTED)
  {
    RedactionKeepsTheRest(body, gaps, tokens);
    BodyMarkIsStable(lower);
  }

  // ---- the texts behind the bytes ----

  predicate IsAscii(s: string) {
    forall i :: 0 <= i < |s| ==> s[i] as int < 128
  }

  function Ascii(s: string): Bytes
    requires IsAscii(s)
  {
    seq(|s|, i requires 0 <= i < |s| => (s[i] as int) as Byte)
  }

  /** Word bytes are the characters of the URL-safe alphabet, section 5 of RFC 4648. */
  lemma WordIs(b: Byte)
    ensures var c := b as int as char;
            Word(b) <==> 'A' <= c <= 'Z' || 'a' <= c <= 'z' || '0' <= c <= '9' || c == '-' || c == '_'
  {
  }

  lemma MarksAre()
    ensures REDACTED == Ascii("<REDACTED>") && BODY_REDACTED == Ascii("<BODY REDACTED>") && [DOT] == Ascii(".")
  {
  }

  /** The keywords, in lower case. */
  lemma KeywordsAre(s: Bytes)
    ensures HasKeyword(s) <==>
            Contains(s, Ascii("password")) || Contains(s, Ascii("secret")) ||
            Contains(s, Ascii("token")) || Contains(s, Ascii("credential"))
  {
    assert KEYWORDS[0] == Ascii("password") && KEYWORDS[1] == Ascii("secret");
    assert KEYWORDS[2] == Ascii("token") && KEYWORDS[3] == Ascii("credential");
  }

  /** Equal but for the case of letters. */
  predicate SameUpToCase(a: Bytes, b: Bytes) {
    |a| == |b| && forall i :: 0 <= i < |a| ==>
      a[i] == b[i] || (97 <= b[i] <= 122 && a[i] == b[i] - 32)
  }

  /** A keyword in whatever case hides the whole body. */
  lemma KeywordInAnyCase(lower: Bytes -> Bytes, x: Bytes, a: Bytes, y: Bytes, k: nat)
    requires Lowering(lower) && k < |KEYWORDS| && SameUpToCase(a, KEYWORDS[k])
    ensures Redact(lower, x + a + y) == BODY_REDACTED
  {
    assert forall i :: 0 <= i < |KEYWORDS[k]| ==> 97 <= KEYWORDS[k][i] <= 122;
    assert LowerAscii(a) == KEYWORDS[k];
    LowerAround(lower, x, a, y);
    assert KEYWORDS[k][0..|KEYWORDS[k]|] == KEYWORDS[k];
    assert OccursAt(KEYWORDS[k], 0, KEYWORDS[k]);
    ContainsIn(lower(x), KEYWORDS[k], lower(y), KEYWORDS[k]);
    BodyMarkIsStable(lower);
  }
}
