/**
 Printing strings raw, as the compact printer and the formatter with escaping on
 do: the text reads back exactly when no string holds a quote or a backslash.
 */
module JsonRawPrint {
  import opened Common
  import opened JsonUtil
  import opened JsonLexer
  import opened JsonValue
  import opened JsonFormatter
  import opened JsonRoundTrip
  import JsonParser
  import JsonGrammar

  /**
   What the two library conversions are known for: a code point below 0x10000 is at
   most three bytes of UTF-8, and a converted `int` has at most ten decimal digits,
   and never more than its hexadecimal digits and two.
   */
  ghost predicate Library(mode: Mode) {
    && (forall d: string :: |d| == 4 && mode.unicode(d).Some? ==> |mode.unicode(d).value| <= 3)
    && (forall d: string :: d != "" ==> |mode.hex(d)| <= |d| + 2 && '\\' !in mode.hex(d))
  }

  // ---- one string ----

  /** The lexeme found is the text up to a quote that no backslash precedes. */
  lemma {:induction false} FoundSplits(text: string)
    requires ScanString(text).Found?
    ensures var scan := ScanString(text);
            text == scan.lexeme + "\"" + scan.rest && LexicallyClosed(scan.lexeme)
    decreases |text|
  {
    if text[0] == '\"' {
      assert text == [] + "\"" + text[1..];
    } else {
      hide LexicallyClosed;
      var n := if text[0] == '\\' then 2 else 1;
      FoundSplits(text[n..]);
      var front, inner := text[..n], ScanString(text[n..]);
      assert ScanString(text) == Found(front + inner.lexeme, inner.rest);
      hide ScanString;
      ClosedFront(front, inner.lexeme);
      Rejoin(text, n, inner.lexeme, inner.rest);
    }
  }

  lemma Rejoin(text: string, n: nat, lexeme: string, rest: string)
    requires n <= |text| && text[n..] == lexeme + "\"" + rest
    ensures text == text[..n] + lexeme + "\"" + rest
  {
    assert text == text[..n] + text[n..];
  }

  lemma ClosedFront(front: string, s: string)
    requires LexicallyClosed(s)
    requires || (|front| == 1 && front[0] != '\"' && front[0] != '\\')
             || (|front| == 2 && front[0] == '\\' && IsValidNextEscape(front[1]))
    ensures LexicallyClosed(front + s)
  {
    assert (front + s)[|front|..] == s;
  }

  /** Two facts about the front of an escape: what it reads, and what is left. */
  ghost predicate GoodPiece(s: string, piece: string, n: nat) {
    && 2 <= n <= |s| && |piece| <= n && (|piece| < n || piece[0] != '\\')
    && LexicallyClosed(s[n..])
    && ('\"' in s[..n] ==> piece == "\"")
  }

  lemma HexesAreNoQuote(s: string, n: nat)
    requires 2 <= n <= |s| && s[0] != '\"' && s[1] != '\"' && forall i :: 0 <= i < n - 2 ==> IsHex(s[2..][i])
    ensures '\"' !in s[..n]
  {
    assert forall i :: 2 <= i < n ==> s[i] == s[2..][i - 2];
  }

  lemma UnicodePiece(s: string, mode: Mode)
    requires Library(mode) && |s| >= 2 && s[0] == '\\' && s[1] == 'u' && LexicallyClosed(s[2..])
    requires FirstPiece(s, mode).Ok?
    ensures GoodPiece(s, FirstPiece(s, mode).value.0, FirstPiece(s, mode).value.1)
  {
    assert forall i :: 0 <= i < 4 ==> s[2..][i] == s[2..6][i];
    HexStaysClosed(s[2..], 4);
    assert s[2..][4..] == s[6..];
    HexesAreNoQuote(s, 6);
  }

  lemma HexPiece(s: string, mode: Mode)
    requires Library(mode) && |s| >= 2 && s[0] == '\\' && s[1] == 'x' && LexicallyClosed(s[2..])
    requires FirstPiece(s, mode).Ok?
    ensures GoodPiece(s, FirstPiece(s, mode).value.0, FirstPiece(s, mode).value.1)
  {
    var n := HexRun(s[2..]);
    HexStaysClosed(s[2..], n);
    assert s[2..][n..] == s[2 + n..];
    HexesAreNoQuote(s, 2 + n);
    var piece := mode.hex(s[2..2 + n]);
    assert |piece| > 0 ==> piece[0] in piece;
  }

  /** The piece for an escape reads characters without a quote, except for the pair of backslash and quote. */
  lemma PieceIs(s: string, mode: Mode)
    requires Library(mode) && s != [] && s[0] == '\\' && LexicallyClosed(s) && FirstPiece(s, mode).Ok?
    ensures GoodPiece(s, FirstPiece(s, mode).value.0, FirstPiece(s, mode).value.1)
  {
    if s[1] == 'u' {
      UnicodePiece(s, mode);
    } else if s[1] == 'x' {
      HexPiece(s, mode);
    } else {
      assert s[..2] == [s[0], s[1]];
    }
  }

  lemma {:induction false} HexStaysClosed(s: string, n: nat)
    requires LexicallyClosed(s) && n <= |s| && forall i :: 0 <= i < n ==> IsHex(s[i])
    ensures LexicallyClosed(s[n..])
  {
    if n > 0 {
      HexStaysClosed(s[1..], n - 1);
      assert s[1..][n - 1..] == s[n..];
    } else {
      assert s[0..] == s;
    }
  }

  /** Resolving escapes never lengthens a lexeme. */
  lemma {:induction false} EscapeShrinks(s: string, mode: Mode)
    requires Library(mode) && LexicallyClosed(s) && Escape(s, mode).Ok?
    ensures |Escape(s, mode).value| <= |s|
    decreases |s|
  {
    hide FirstPiece;
    if s != [] {
      FirstIs(s, mode);
      EscapeShrinks(s[FirstPiece(s, mode).value.1..], mode);
    }
  }

  /** The front of a lexeme and the rest behind it. */
  lemma FirstIs(s: string, mode: Mode)
    requires Library(mode) && LexicallyClosed(s) && s != [] && Escape(s, mode).Ok?
    ensures FirstPiece(s, mode).Ok?
    ensures var (piece, n) := FirstPiece(s, mode).value;
            && 0 < n <= |s| && |piece| <= n && LexicallyClosed(s[n..])
            && (s[0] != '\\' ==> s[0] != '\"' && n == 1 && piece == [s[0]])
            && (s[0] == '\\' ==> |piece| < n || piece[0] != '\\')
            && ('\"' in s[..n] ==> s[0] == '\\' && piece == "\"")
            && Escape(s[n..], mode).Ok? && Escape(s, mode).value == piece + Escape(s[n..], mode).value
  {
    if s[0] == '\\' {
      PieceIs(s, mode);
      hide FirstPiece;
    }
  }

  /** A lexeme with a backslash in it resolves to something else. */
  lemma {:induction false} BackslashChanges(s: string, mode: Mode)
    requires Library(mode) && LexicallyClosed(s) && '\\' in s
    ensures Escape(s, mode) != Ok(s)
    decreases |s|
  {
    hide FirstPiece;
    if Escape(s, mode).Ok? {
      FirstIs(s, mode);
      var (piece, n) := FirstPiece(s, mode).value;
      EscapeShrinks(s[n..], mode);
      if s[0] != '\\' {
        BackslashChanges(s[1..], mode);
        assert s == [s[0]] + s[1..];
      } else if |piece| == n {
        assert (piece + Escape(s[n..], mode).value)[0] == piece[0];
      }
    }
  }

  predicate QuoteFree(s: string, n: nat) { forall i :: 0 <= i < n && i < |s| ==> s[i] != '\"' }

  lemma QuoteFreeThen(s: string, n: nat, m: nat)
    requires n <= |s| && '\"' !in s[..n] && QuoteFree(s[n..], m)
    ensures QuoteFree(s, n + m)
  {
    assert forall i :: 0 <= i < |s| ==> s[i] == if i < n then s[..n][i] else s[n..][i - n];
  }

  /** `o` shows a quote at `j`, before any in `s`. */
  predicate Early(s: string, o: string, j: nat) { j < |o| && o[j] == '\"' && QuoteFree(s, j + 1) }

  lemma EarlyHere(s: string, o: string, r: string)
    requires s != [] && s[0] != '\"' && o == "\"" + r
    ensures Early(s, o, 0)
  {
  }

  lemma EarlyLater(s: string, n: nat, piece: string, r: string, k: nat)
    requires n <= |s| && '\"' !in s[..n] && |piece| <= n && Early(s[n..], r, k)
    ensures Early(s, piece + r, |piece| + k)
  {
    QuoteFreeThen(s, n, k + 1);
    QuoteFreeLess(s, n + k + 1, |piece| + k + 1);
    hide QuoteFree;
  }

  /** A quote in a lexeme comes out of its escape before the place where it stands. */
  lemma {:induction false} QuoteComesEarly(s: string, mode: Mode) returns (j: nat)
    requires Library(mode) && LexicallyClosed(s) && '\"' in s && Escape(s, mode).Ok?
    ensures Early(s, Escape(s, mode).value, j)
    decreases |s|
  {
    hide Early;
    hide Escape;
    hide LexicallyClosed;
    hide Library;
    var piece, n, r := Front(s, mode);
    QuoteIn(s, n);
    if '\"' in s[..n] {
      j := 0;
      EarlyHere(s, piece + r, r);
    } else {
      var k := QuoteComesEarly(s[n..], mode);
      EarlyLater(s, n, piece, r, k);
      j := |piece| + k;
    }
  }

  /** The front of a lexeme, what it resolves to, and what the rest does. */
  lemma Front(s: string, mode: Mode) returns (piece: string, n: nat, r: string)
    requires Library(mode) && LexicallyClosed(s) && s != [] && Escape(s, mode).Ok?
    ensures 0 < n <= |s| && |piece| <= n && LexicallyClosed(s[n..])
    ensures Escape(s[n..], mode) == Ok(r) && Escape(s, mode) == Ok(piece + r)
    ensures '\"' in s[..n] ==> s[0] != '\"' && piece == "\""
  {
    hide FirstPiece;
    hide Library;
    FirstIs(s, mode);
    hide Escape;
    hide LexicallyClosed;
    piece, n := FirstPiece(s, mode).value.0, FirstPiece(s, mode).value.1;
    r := Escape(s[n..], mode).value;
  }

  lemma QuoteIn(s: string, n: nat)
    requires n <= |s| && '\"' in s
    ensures '\"' in s[..n] || '\"' in s[n..]
  {
    assert s == s[..n] + s[n..];
  }

  lemma QuoteFreeLess(s: string, n: nat, m: nat)
    requires QuoteFree(s, n) && m <= n
    ensures QuoteFree(s, m)
  {
  }

  /** What a lexeme resolves to agrees with it as far as it goes: then there is no quote in it. */
  lemma AgreesQuoteFree(l: string, s: string, mode: Mode)
    requires Library(mode) && LexicallyClosed(l) && Escape(l, mode) == Ok(s)
    requires |s| <= |l| && l[..|s|] == s
    ensures '\"' !in l
  {
    if '\"' in l {
      var j := QuoteComesEarly(l, mode);
      assert false;
    }
  }

  lemma LongHoldsQuote(l: string, s: string, tail: string)
    requires l <= s + "\"" + tail
    ensures |s| < |l| ==> '\"' in l
  {
    if |s| < |l| {
      assert l[|s|] == (s + "\"" + tail)[|s|];
    }
  }

  /** Found behind a raw quote, a lexeme that resolves to `s` is `s` itself, with neither quote nor backslash. */
  lemma FoundIsPlain(s: string, tail: string, mode: Mode)
    requires Library(mode)
    requires var scan := ScanString(s + "\"" + tail); scan.Found? && Escape(scan.lexeme, mode) == Ok(s)
    ensures Plain(s)
  {
    var text := s + "\"" + tail;
    var scan := ScanString(text);
    FoundSplits(text);
    var l := scan.lexeme;
    EscapeShrinks(l, mode);
    hide ScanString;
    hide Escape;
    hide LexicallyClosed;
    assert l == text[..|l|];
    assert s == text[..|s|] == l[..|s|];
    LongHoldsQuote(l, s, tail);
    AgreesQuoteFree(l, s, mode);
    assert l == s;
    if '\\' in s {
      BackslashChanges(s, mode);
    }
  }

  /** A string printed raw is read back exactly when it is plain, whatever follows it. */
  lemma RawStringExactly(s: string, tail: string, mode: Mode)
    requires Library(mode)
    ensures var scan := ScanString(s + "\"" + tail);
            scan.Found? && Escape(scan.lexeme, mode) == Ok(s) <==> Plain(s)
  {
    var text := s + "\"" + tail;
    var scan := ScanString(text);
    if Plain(s) {
      PlainIsClosed(s, mode);
      ScanClosed(s, tail);
    } else if scan.Found? && Escape(scan.lexeme, mode) == Ok(s) {
      FoundIsPlain(s, tail, mode);
    }
  }

  // ---- whole trees ----

  /** `tokens` can still become a list that begins with `ts`: only closers are missing. */
  ghost predicate Reaches(tokens: seq<Token>, ts: seq<Token>) {
    exists missing :: JsonGrammar.AllClosers(missing) && ts <= tokens + missing
  }

  /** Whatever follows `text`, it does not lex to `ts`, not even with closers put back. */
  ghost predicate Strays(text: string, ts: seq<Token>, mode: Mode) {
    forall tail: string :: Lex(text + tail, mode).Good? ==> !Reaches(Lex(text + tail, mode).tokens, ts)
  }

  lemma ReachesFront(tokens: seq<Token>, x: seq<Token>, y: seq<Token>)
    requires Reaches(tokens, x + y)
    ensures Reaches(tokens, x)
  {
    var missing :| JsonGrammar.AllClosers(missing) && x + y <= tokens + missing;
    assert x == (x + y)[..|x|] == (tokens + missing)[..|x|];
  }

  lemma ReachesBehind(x: seq<Token>, rest: seq<Token>, y: seq<Token>)
    requires Reaches(x + rest, x + y)
    ensures Reaches(rest, y)
  {
    var missing :| JsonGrammar.AllClosers(missing) && x + y <= x + rest + missing;
    var all := x + rest + missing;
    assert all[|x|..] == rest + missing;
    assert y == (x + y)[|x|..] == all[|x|..|x| + |y|] == (rest + missing)[..|y|];
  }

  lemma StraysOn(a: string, x: seq<Token>, b: string, y: seq<Token>, mode: Mode)
    requires Strays(a, x, mode)
    ensures Strays(a + b, x + y, mode)
  {
    hide Lex;
    hide Reaches;
    forall tail: string | Lex(a + b + tail, mode).Good?
      ensures !Reaches(Lex(a + b + tail, mode).tokens, x + y)
    {
      assert a + b + tail == a + (b + tail);
      var tokens := Lex(a + (b + tail), mode).tokens;
      if Reaches(tokens, x + y) {
        ReachesFront(tokens, x, y);
      }
    }
  }

  lemma StraysBehind(a: string, x: seq<Token>, free: bool, b: string, y: seq<Token>, mode: Mode)
    requires Writes(a, x, free, mode) && Strays(b, y, mode) && (free || (b != "" && Delimits(b)))
    ensures Strays(a + b, x + y, mode)
  {
    hide Lex;
    hide Reaches;
    forall tail: string | Lex(a + b + tail, mode).Good?
      ensures !Reaches(Lex(a + b + tail, mode).tokens, x + y)
    {
      assert a + b + tail == a + (b + tail);
      assert free || Delimits(b + tail);
      var rest := Lex(b + tail, mode);
      assert Lex(a + (b + tail), mode) == Joined(x, rest);
      if Reaches(x + rest.tokens, x + y) {
        ReachesBehind(x, rest.tokens, y);
      }
    }
  }

  /** The printer writes string values as they are. */
  predicate Raw(style: Style) { !Unescapes(style) }

  lemma StraysString(s: JsonString, style: Style, mode: Mode)
    requires Library(mode) && mode.escape && Raw(style) && s.isEscaped && !Plain(s.value)
    ensures Strays(StringText(s, style), [Str(s.value)], mode)
  {
    forall tail: string | Lex(StringText(s, style) + tail, mode).Good?
      ensures !Reaches(Lex(StringText(s, style) + tail, mode).tokens, [Str(s.value)])
    {
      QuotedIs(s.value, tail);
      RawStringLexes(s.value, tail, mode);
    }
  }

  lemma RawStringLexes(s: string, tail: string, mode: Mode)
    requires Library(mode) && mode.escape && !Plain(s)
    ensures var lexed := Lex("\"" + (s + "\"" + tail), mode);
            lexed.Good? ==> !Reaches(lexed.tokens, [Str(s)])
  {
    var body := s + "\"" + tail;
    RawStringExactly(s, tail, mode);
    QuoteStep(body, mode);
    hide Escape;
    hide ScanString;
    hide TokenStep;
    hide Plain;
    var all, scan := "\"" + body, ScanString(body);
    assert SkipWhite(all) == all;
    if Lex(all, mode).Good? {
      var e := Escape(scan.lexeme, mode).value;
      LexToken(all, Str(e), scan.rest, mode);
      hide Lex;
      FirstReached(Str(e), Lex(scan.rest, mode).tokens, Str(s));
    }
  }

  lemma FirstReached(t: Token, rest: seq<Token>, u: Token)
    requires t != u
    ensures !Reaches([t] + rest, [u])
  {
    forall missing | JsonGrammar.AllClosers(missing)
      ensures !([u] <= [t] + rest + missing)
    {
      assert ([t] + rest + missing)[0] == t;
    }
  }

  lemma {:induction false} StraysText(v: Json, depth: nat, style: Style, mode: Mode)
    requires depth > 0 && Data(v) && !PlainTree(v) && Library(mode) && mode.escape && Raw(style)
    ensures Strays(Text(v, depth, style), TokensOf(v), mode)
    decreases v, 3
  {
    hide Strays;
    match v
    case JString(s) => StraysString(s, style, mode);
    case JArray(es) => StraysArray(es, depth, es == [], style, mode);
    case JObject(ms) => StraysObject(ms, depth, ms == [], style, mode);
  }

  /** Opener and newline in front, pad and closer behind. */
  lemma StraysFramed(open: char, newline: string, body: string, ts: seq<Token>, pad: string, close: char, mode: Mode)
    requires IsPunctuation(open) && IsPunctuation(close)
    requires Writes(newline, [], true, mode) && Strays(body, ts, mode)
    ensures Strays([open] + newline + body + pad + [close], [Punctuation(open)] + ts + [Punctuation(close)], mode)
  {
    hide Strays;
    hide Writes;
    var o, c := [Punctuation(open)], [Punctuation(close)];
    WritesPunctuation(open, mode);
    WritesThen([open], o, newline, [], true, mode);
    assert o + [] == o;
    StraysBehind([open] + newline, o, true, body, ts, mode);
    StraysOn([open] + newline + body, o + ts, pad + [close], c, mode);
    assert [open] + newline + body + (pad + [close]) == [open] + newline + body + pad + [close];
  }

  lemma {:induction false} StraysArray(es: seq<Json>, depth: nat, empty: bool, style: Style, mode: Mode)
    requires depth > 0 && Data(JArray(es)) && !PlainTree(JArray(es))
    requires Library(mode) && mode.escape && Raw(style)
    ensures Strays(ArrayText(es, depth, empty, style), TokensOf(JArray(es)), mode)
    decreases es, 2
  {
    hide Strays;
    hide Writes;
    hide Pad;
    hide Newline;
    LayoutIsWhite(depth - 1, style, mode);
    StraysItems(es, depth, style, mode);
    StraysFramed('[', if es == [] then "" else Newline(style), ItemsText(es, depth, style), Items(es),
                 if empty then "" else Pad(style, depth - 1), ']', mode);
  }

  lemma {:induction false} StraysObject(ms: seq<Member>, depth: nat, empty: bool, style: Style, mode: Mode)
    requires depth > 0 && Data(JObject(ms)) && !PlainTree(JObject(ms))
    requires Library(mode) && mode.escape && Raw(style)
    ensures Strays(ObjectText(ms, depth, empty, style), TokensOf(JObject(ms)), mode)
    decreases ms, 2
  {
    hide Strays;
    hide Writes;
    hide Pad;
    hide Newline;
    LayoutIsWhite(depth - 1, style, mode);
    StraysPairs(ms, depth, style, mode);
    StraysFramed('{', if ms == [] then "" else Newline(style), PairsText(ms, depth, style), Pairs(ms),
                 if empty then "" else Pad(style, depth - 1), '}', mode);
  }

  /** The value of a line strays, or those of the lines after it do. */
  lemma StraysLine(pad: string, v: string, ts: seq<Token>, comma: bool, newline: string,
                   lines: string, more: seq<Token>, first: bool, mode: Mode)
    requires Writes(pad, [], true, mode) && Writes(newline, [], true, mode) && Delimits(newline)
    requires if first then Strays(v, ts, mode) else Writes(v, ts, false, mode) && comma && Strays(lines, more, mode)
    ensures Strays(pad + v + (if comma then "," else "") + newline + lines,
                   ts + (if comma then [Comma] else []) + more, mode)
  {
    hide Strays;
    hide Writes;
    var sep, separator := if comma then "," else "", if comma then [Comma] else [];
    var head := pad + v;
    assert [] + ts == ts;
    assert head + (sep + newline + lines) == head + sep + newline + lines;
    assert ts + (separator + more) == ts + separator + more;
    if first {
      StraysBehind(pad, [], true, v, ts, mode);
      StraysOn(head, ts, sep + newline + lines, separator + more, mode);
    } else {
      WritesThen(pad, [], v, ts, false, mode);
      WritesPunctuation(',', mode);
      WritesThen(",", [Comma], newline, [], true, mode);
      assert [Comma] + [] == [Comma];
      StraysBehind("," + newline, [Comma], true, lines, more, mode);
      StraysBehind(head, ts, false, "," + newline + lines, [Comma] + more, mode);
    }
  }

  lemma {:induction false} StraysItems(es: seq<Json>, depth: nat, style: Style, mode: Mode)
    requires depth > 0 && Data(JArray(es)) && !PlainTree(JArray(es))
    requires Library(mode) && mode.escape && Raw(style)
    ensures Strays(ItemsText(es, depth, style), Items(es), mode)
    decreases es, 1
  {
    hide Strays;
    hide Writes;
    hide Pad;
    hide Newline;
    LayoutIsWhite(depth, style, mode);
    FirstItemStrays(es);
    ItemsTokens(es);
    hide Data;
    hide PlainTree;
    hide TokensOf;
    var first := !PlainTree(es[0]);
    if first {
      StraysText(es[0], depth + 1, style, mode);
    } else {
      DataIsSafe(es[0], style, mode);
      WritesText(es[0], depth + 1, style, mode);
      StraysItems(es[1..], depth, style, mode);
    }
    StraysLine(Pad(style, depth), Text(es[0], depth + 1, style), TokensOf(es[0]), |es| > 1, Newline(style),
               ItemsText(es[1..], depth, style), Items(es[1..]), first, mode);
  }

  lemma ItemsTokens(es: seq<Json>)
    requires es != []
    ensures Items(es) == TokensOf(es[0]) + (if |es| > 1 then [Comma] else []) + Items(es[1..])
  {
    hide TokensOf;
    assert MoreItems(es[1..]) == (if |es| > 1 then [Comma] else []) + Items(es[1..]);
  }

  lemma PairsTokens(ms: seq<Member>)
    requires ms != []
    ensures Pairs(ms) == PairTokens(ms[0]) + (if |ms| > 1 then [Comma] else []) + Pairs(ms[1..])
  {
    hide PairTokens;
    assert MorePairs(ms[1..]) == (if |ms| > 1 then [Comma] else []) + Pairs(ms[1..]);
  }

  /** The first item is not plain, or some other is. */
  lemma FirstItemStrays(es: seq<Json>)
    requires Data(JArray(es)) && !PlainTree(JArray(es))
    ensures es != [] && Data(es[0])
    ensures PlainTree(es[0]) ==> |es| > 1 && Data(JArray(es[1..])) && !PlainTree(JArray(es[1..]))
  {
    var i :| 0 <= i < |es| && !PlainTree(es[i]);
    assert i > 0 ==> es[1..][i - 1] == es[i];
  }

  lemma {:induction false} StraysPairs(ms: seq<Member>, depth: nat, style: Style, mode: Mode)
    requires depth > 0 && Data(JObject(ms)) && !PlainTree(JObject(ms))
    requires Library(mode) && mode.escape && Raw(style)
    ensures Strays(PairsText(ms, depth, style), Pairs(ms), mode)
    decreases ms, 1
  {
    hide Strays;
    hide Writes;
    hide Pad;
    hide Newline;
    LayoutIsWhite(depth, style, mode);
    FirstPairStrays(ms);
    PairsTokens(ms);
    hide Data;
    hide DataMember;
    hide PlainTree;
    hide PlainMember;
    hide PairTokens;
    var first := !PlainMember(ms[0]);
    if first {
      StraysPair(ms[0], depth, style, mode);
    } else {
      DataMemberIsSafe(ms[0], style, mode);
      WritesPair(ms[0], depth, style, mode);
      StraysPairs(ms[1..], depth, style, mode);
    }
    StraysLine(Pad(style, depth), PairText(ms[0], depth, style), PairTokens(ms[0]), |ms| > 1, Newline(style),
               PairsText(ms[1..], depth, style), Pairs(ms[1..]), first, mode);
  }

  lemma FirstPairStrays(ms: seq<Member>)
    requires Data(JObject(ms)) && !PlainTree(JObject(ms))
    ensures ms != [] && DataMember(ms[0])
    ensures PlainMember(ms[0]) ==> |ms| > 1 && Data(JObject(ms[1..])) && !PlainTree(JObject(ms[1..]))
  {
    var i :| 0 <= i < |ms| && !PlainMember(ms[i]);
    assert i > 0 ==> ms[1..][i - 1] == ms[i];
  }

  lemma {:induction false} StraysPair(m: Member, depth: nat, style: Style, mode: Mode)
    requires depth > 0 && DataMember(m) && !PlainMember(m) && Library(mode) && mode.escape && Raw(style)
    ensures Strays(PairText(m, depth, style), PairTokens(m), mode)
    decreases m, 0
  {
    hide Strays;
    hide Writes;
    var key, colon, value := StringText(m.key, style), ColonText(style), Text(m.value, depth + 1, style);
    var k, ts := [Str(m.key.value)], TokensOf(m.value);
    assert key + (colon + value) == key + colon + value;
    assert k + ([Colon] + ts) == PairTokens(m);
    if !Plain(m.key.value) {
      StraysString(m.key, style, mode);
      StraysOn(key, k, colon + value, [Colon] + ts, mode);
    } else {
      StringIsSafe(m.key, style, mode);
      WritesString(m.key, style, mode);
      ColonWrites(style, mode);
      StraysText(m.value, depth + 1, style, mode);
      StraysBehind(colon, [Colon], true, value, ts, mode);
      StraysBehind(key, k, true, colon + value, [Colon] + ts, mode);
    }
  }

  lemma ColonWrites(style: Style, mode: Mode)
    ensures Writes(ColonText(style), [Colon], true, mode)
  {
    hide Writes;
    WritesPunctuation(':', mode);
    var gap := ColonText(style)[1..];
    assert ColonText(style) == ":" + gap;
    WritesWhite(gap, mode);
    WritesThen(":", [Colon], gap, [], true, mode);
    assert [Colon] + [] == [Colon];
  }

  // ---- the two raw printers ----

  /** The text of a printer that writes strings raw: the compact one, or the formatter with escaping on. */
  predicate PrintsRaw(indent: int, escape: bool) { indent <= 0 || escape }

  lemma RawStrays(root: Json, indent: int, escape: bool, mode: Mode)
    requires IsContainer(root) && Data(root) && !PlainTree(root)
    requires Library(mode) && mode.escape && PrintsRaw(indent, escape)
    ensures var lexed := Lex(FormatText(root, indent, escape, mode), mode);
            lexed.Good? ==> !Reaches(lexed.tokens, TokensOf(root))
  {
    var style, text := FormatStyle(indent, escape, mode), FormatText(root, indent, escape, mode);
    if root.JArray? {
      StraysArray(root.elements, 1, indent <= 0 && root.elements == [], style, mode);
    } else {
      StraysObject(root.members, 1, indent <= 0 && root.members == [], style, mode);
    }
    assert Strays(text, TokensOf(root), mode);
    assert text + "" == text;
  }

  lemma ReachesItself(ts: seq<Token>)
    ensures Reaches(ts, ts)
  {
    assert ts <= ts + [] && JsonGrammar.AllClosers([]);
  }

  lemma SpelledReaches(tokens: seq<Token>, root: Json)
    requires JsonGrammar.Spells(tokens, root)
    ensures Reaches(tokens, TokensOf(root))
  {
    var missing, tail :| JsonGrammar.Completes(tokens, missing, TokensOf(root), tail);
    assert TokensOf(root) <= tokens + missing;
  }

  /** Raw text lexes to the tokens of its tree exactly when no string holds a quote or a backslash. */
  lemma RawLexesExactly(root: Json, indent: int, escape: bool, mode: Mode)
    requires IsContainer(root) && Data(root) && Library(mode) && mode.escape && PrintsRaw(indent, escape)
    ensures Lex(FormatText(root, indent, escape, mode), mode) == Good(TokensOf(root)) <==> PlainTree(root)
  {
    hide Lex;
    if PlainTree(root) {
      FormatLexes(root, indent, escape, mode);
    } else {
      RawStrays(root, indent, escape, mode);
      ReachesItself(TokensOf(root));
    }
  }

  /** The whole round trip through raw text, closers that the parser forgives included. */
  lemma RawRoundTripExactly(root: Json, indent: int, escape: bool, mode: Mode)
    requires IsContainer(root) && Data(root) && Library(mode) && mode.escape && PrintsRaw(indent, escape)
    ensures var lexed := Lex(FormatText(root, indent, escape, mode), mode);
            lexed.Good? && JsonParser.Parse(lexed.tokens, true) == RootOf(root) <==> PlainTree(root)
  {
    hide Lex;
    var lexed := Lex(FormatText(root, indent, escape, mode), mode);
    DataIsSafe(root, Pretty(1, false, mode), mode);
    if PlainTree(root) {
      FormatLexes(root, indent, escape, mode);
      JsonGrammar.TokensParseBack(root, true);
    } else if lexed.Good? {
      RawStrays(root, indent, escape, mode);
      ParsedReaches(lexed.tokens, root);
    }
  }

  lemma ParsedReaches(tokens: seq<Token>, root: Json)
    requires IsContainer(root) && Clean(root, true)
    ensures JsonParser.Parse(tokens, true) == RootOf(root) ==> Reaches(tokens, TokensOf(root))
  {
    if JsonParser.Parse(tokens, true) == RootOf(root) {
      if root.JArray? {
        JsonGrammar.ArraysExactly(tokens, root.elements, true);
      } else {
        JsonGrammar.ObjectsExactly(tokens, root.members, true);
      }
      SpelledReaches(tokens, root);
    }
  }

  /** The indented and the compact text of a tree lex alike exactly when no string holds a quote or a backslash. */
  lemma PrintersAgreeExactly(root: Json, indent: int, mode: Mode)
    requires IsContainer(root) && Data(root) && indent > 0 && Library(mode) && mode.escape
    ensures Lex(FormatText(root, indent, false, mode), mode) == Lex(Text(root, 1, Compact), mode) <==> PlainTree(root)
  {
    hide Lex;
    FormatLexes(root, indent, false, mode);
    RawLexesExactly(root, 0, false, mode);
  }

  /** A quote alone shows it: its compact text sends the lexer into an endless loop. */
  lemma CompactQuoteNeverEnds(mode: Mode)
    ensures Lex(Text(JArray([JString(JsonString("\"", true))]), 1, Compact), mode) == Endless
  {
    var es := [JString(JsonString("\"", true))];
    assert es[1..] == [];
    assert Text(es[0], 2, Compact) == "\"\"\"";
    assert ItemsText(es, 1, Compact) == "\"\"\"" + ItemsText([], 1, Compact);
    var text := Text(JArray(es), 1, Compact);
    assert text == "[\"\"\"]";
    LexPunctuation('[', "\"\"\"]", mode);
    assert text == "[" + "\"\"\"]";
    assert ScanString("\"\"]") == Found("", "\"]");
    assert "\"\"\"]"[1..] == "\"\"]";
    LexToken("\"\"\"]", Str(""), "\"]", mode) by {
      assert Escape("", mode) == Ok("");
    }
    assert "\"]"[1..] == "]" && "]"[1..] == "";
    assert ScanString("]") == Unclosed by {
      assert ScanString("") == Unclosed;
    }
    assert Lex("\"]", mode) == Endless;
  }
}
