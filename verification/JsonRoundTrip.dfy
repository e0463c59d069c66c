/**
 Printing, lexing and parsing: for every tree without floats and null pointers,
 what a printer writes lexes to the tree's own tokens, and those parse back.
 */
module JsonRoundTrip {
  import opened Common
  import opened JsonUtil
  import opened JsonLexer
  import opened JsonValue
  import opened JsonFormatter
  import JsonParser
  import JsonGrammar

  /** The printed body of `s` can stand between quotes and escapes back to its value. */
  predicate StringSafe(s: JsonString, style: Style, mode: Mode) {
    var body := StringBody(s, style);
    body.Ok? && LexicallyClosed(body.value) && Escape(body.value, mode) == Ok(s.value)
  }

  predicate Safe(v: Json, style: Style, mode: Mode)
    decreases v
  {
    match v
    case Missing => false
    case JFloat(_) => false
    case JInt(n) => INT_MIN <= n <= INT_MAX
    case JString(s) => StringSafe(s, style, mode)
    case JArray(es) => forall i :: 0 <= i < |es| ==> Safe(es[i], style, mode)
    case JObject(ms) => forall i :: 0 <= i < |ms| ==> SafeMember(ms[i], style, mode)
    case _ => true
  }

  predicate SafeMember(m: Member, style: Style, mode: Mode)
    decreases m
  {
    StringSafe(m.key, style, mode) && Safe(m.value, style, mode)
  }

  // ---- one token at a time ----

  predicate IsWhite(c: char) { IsSpace(c) || IsNewline(c) }

  lemma {:induction false} LexWhite(w: string, tail: string, mode: Mode)
    requires forall i :: 0 <= i < |w| ==> IsWhite(w[i])
    ensures Lex(w + tail, mode) == Lex(tail, mode)
  {
    if w == [] {
      assert w + tail == tail;
    } else {
      LexWhite(w[1..], tail, mode);
      LexWhiteOne(w + tail, mode);
      assert (w + tail)[1..] == w[1..] + tail;
    }
  }

  lemma LexWhiteOne(rest: string, mode: Mode)
    requires rest != [] && IsWhite(rest[0])
    ensures Lex(rest, mode) == Lex(rest[1..], mode)
  {
    assert SkipWhite(rest) == SkipWhite(rest[1..]);
    assert Analysis(rest, mode) == Analysis(rest[1..], mode);
  }

  /** A token at the front of the text. */
  lemma LexToken(rest: string, token: Token, after: string, mode: Mode)
    requires rest != [] && !IsWhite(rest[0]) && TokenStep(rest, mode) == Emit(token, after)
    ensures Lex(rest, mode) == Joined([token], Lex(after, mode))
  {
  }

  lemma LexPunctuation(c: char, tail: string, mode: Mode)
    requires IsPunctuation(c)
    ensures Lex([c] + tail, mode) == Joined([Punctuation(c)], Lex(tail, mode))
  {
    LexToken([c] + tail, Punctuation(c), tail, mode);
  }

  lemma {:induction false} ScanClosed(body: string, tail: string)
    requires LexicallyClosed(body)
    ensures ScanString(body + "\"" + tail) == Found(body, tail)
    decreases |body|
  {
    var all := body + "\"" + tail;
    if body == [] {
      assert all == "\"" + tail;
    } else {
      var n := if body[0] == '\\' then 2 else 1;
      ScanClosed(body[n..], tail);
      assert all[n..] == body[n..] + "\"" + tail;
      assert all[..n] == body[..n] && body[..n] + body[n..] == body;
    }
  }

  /** Behind a quote, a string literal. */
  lemma QuoteStep(rest: string, mode: Mode)
    ensures TokenStep("\"" + rest, mode) == StringStep(rest, mode)
  {
    assert ("\"" + rest)[1..] == rest;
  }

  lemma QuotedIs(body: string, tail: string)
    ensures "\"" + body + "\"" + tail == "\"" + (body + "\"" + tail)
  {
  }

  lemma LexStringText(s: JsonString, tail: string, style: Style, mode: Mode)
    requires StringSafe(s, style, mode) && mode.escape
    ensures Lex(StringText(s, style) + tail, mode) == Joined([Str(s.value)], Lex(tail, mode))
  {
    var body := StringBody(s, style).value;
    ScanClosed(body, tail);
    hide ScanString;
    hide Escape;
    hide LexicallyClosed;
    hide Lex;
    QuoteStep(body + "\"" + tail, mode);
    hide TokenStep;
    QuotedIs(body, tail);
    LexToken("\"" + (body + "\"" + tail), Str(s.value), tail, mode);
  }

  lemma LexName(name: string, token: Token, tail: string, mode: Mode)
    requires (name, token) in {("null", Null), ("true", True), ("false", False)}
    ensures Lex(name + tail, mode) == Joined([token], Lex(tail, mode))
  {
    assert name <= name + tail && (name + tail)[|name|..] == tail;
    LexToken(name + tail, token, tail, mode);
  }

  // ---- integers ----

  lemma DigitIs(d: nat)
    requires d < 10
    ensures IsNumber(DigitOf(d)) && DigitOf(d) as int - '0' as int == d
  {
  }

  lemma {:induction false} NatTextDigits(n: nat)
    ensures var t := NatText(n);
            && t != []
            && (forall i :: 0 <= i < |t| ==> IsNumber(t[i]))
            && DigitsValue(t) == n
            && (t[0] == '0' ==> n == 0 && |t| == 1)
  {
    DigitIs(n % 10);
    hide DigitOf;
    if n < 10 {
      assert NatText(n)[..0] == [];
    } else {
      NatTextDigits(n / 10);
      var t, last := NatText(n / 10), DigitOf(n % 10);
      assert (t + [last])[..|t|] == t;
    }
  }

  lemma {:induction false} DigitRunOf(digits: string, tail: string)
    requires forall i :: 0 <= i < |digits| ==> IsNumber(digits[i])
    requires tail == [] || !IsNumber(tail[0])
    ensures DigitRun(digits + tail) == |digits|
  {
    if digits == [] {
      assert digits + tail == tail;
    } else {
      assert (digits + tail)[1..] == digits[1..] + tail;
      DigitRunOf(digits[1..], tail);
    }
  }

  /** What may follow a number without becoming part of it. */
  predicate Delimits(tail: string) {
    tail == [] || !(IsNumber(tail[0]) || tail[0] == '.' || IsExponent(tail[0]))
  }

  /** The text of an integer is a numeral without a leading zero, and it reads back. */
  lemma IntTextReads(n: int)
    requires INT_MIN <= n <= INT_MAX
    ensures var t := IntText(n);
            && t != [] && (IsNumber(t[0]) || t[0] == '-')
            && (forall i :: 1 <= i < |t| ==> IsNumber(t[i]))
            && (t[0] == '0' ==> |t| == 1)
            && IntegerValue(t) == n
  {
    NatTextDigits(if n < 0 then -n else n);
    if n < 0 {
      var t, digits := IntText(n), NatText(-n);
      assert t[1..] == digits;
      assert forall i :: 1 <= i < |t| ==> t[i] == digits[i - 1];
    }
  }

  lemma NumeralStep(t: string, tail: string)
    requires t != [] && (IsNumber(t[0]) || t[0] == '-')
    requires forall i :: 1 <= i < |t| ==> IsNumber(t[i])
    requires (t[0] == '0' ==> |t| == 1) && Delimits(tail)
    ensures NumberStep(t + tail) == Emit(Num(IntegerValue(t)), tail)
  {
    hide IntegerValue;
    var all := t + tail;
    DigitRunOf(t[1..], tail);
    assert all[1..] == t[1..] + tail;
    assert all[..|t|] == t && all[|t|..] == tail;
    assert t[0] == '0' ==> CharAt(all, 1) == CharAt(tail, 0);
    assert CharAt(all, |t|) == CharAt(tail, 0);
  }

  lemma LexInteger(n: int, tail: string, mode: Mode)
    requires INT_MIN <= n <= INT_MAX && Delimits(tail)
    ensures Lex(IntText(n) + tail, mode) == Joined([Num(n)], Lex(tail, mode))
  {
    hide IntegerValue;
    hide NumberStep;
    IntTextReads(n);
    NumeralStep(IntText(n), tail);
    LexToken(IntText(n) + tail, Num(n), tail, mode);
  }

  // ---- whole trees ----

  /**
   `text` lexes to `ts` whatever follows; unless it is `free`, what follows must
   not be able to continue a number.
   */
  ghost predicate Writes(text: string, ts: seq<Token>, free: bool, mode: Mode) {
    forall tail: string :: free || Delimits(tail) ==> Lex(text + tail, mode) == Joined(ts, Lex(tail, mode))
  }

  lemma WritesWeaker(text: string, ts: seq<Token>, mode: Mode)
    requires Writes(text, ts, true, mode)
    ensures Writes(text, ts, false, mode)
  {
  }

  lemma WritesThen(a: string, x: seq<Token>, b: string, y: seq<Token>, free: bool, mode: Mode)
    requires Writes(a, x, true, mode) && Writes(b, y, free, mode)
    ensures Writes(a + b, x + y, free, mode)
  {
    hide Lex;
    hide Joined;
    forall tail: string | free || Delimits(tail)
      ensures Lex(a + b + tail, mode) == Joined(x + y, Lex(tail, mode))
    {
      assert a + b + tail == a + (b + tail);
      assert Lex(b + tail, mode) == Joined(y, Lex(tail, mode));
      JoinedTwice(x, y, Lex(tail, mode));
    }
  }

  /** A value followed by something that cannot continue a number. */
  lemma WritesBefore(a: string, x: seq<Token>, b: string, y: seq<Token>, free: bool, mode: Mode)
    requires Writes(a, x, false, mode) && Writes(b, y, free, mode) && b != "" && Delimits(b)
    ensures Writes(a + b, x + y, free, mode)
  {
    hide Lex;
    hide Joined;
    forall tail: string | free || Delimits(tail)
      ensures Lex(a + b + tail, mode) == Joined(x + y, Lex(tail, mode))
    {
      assert a + b + tail == a + (b + tail);
      assert Delimits(b + tail);
      assert Lex(b + tail, mode) == Joined(y, Lex(tail, mode));
      JoinedTwice(x, y, Lex(tail, mode));
    }
  }

  lemma WritesWhite(w: string, mode: Mode)
    requires forall i :: 0 <= i < |w| ==> IsWhite(w[i])
    ensures Writes(w, [], true, mode)
  {
    hide Lex;
    forall tail: string
      ensures Lex(w + tail, mode) == Joined([], Lex(tail, mode))
    {
      LexWhite(w, tail, mode);
      JoinedNothing(Lex(tail, mode));
    }
  }

  lemma WritesPunctuation(c: char, mode: Mode)
    requires IsPunctuation(c)
    ensures Writes([c], [Punctuation(c)], true, mode)
  {
    hide Lex;
    forall tail: string
      ensures Lex([c] + tail, mode) == Joined([Punctuation(c)], Lex(tail, mode))
    {
      LexPunctuation(c, tail, mode);
    }
  }

  lemma WritesString(s: JsonString, style: Style, mode: Mode)
    requires StringSafe(s, style, mode) && mode.escape
    ensures Writes(StringText(s, style), [Str(s.value)], true, mode)
  {
    hide Lex;
    forall tail: string
      ensures Lex(StringText(s, style) + tail, mode) == Joined([Str(s.value)], Lex(tail, mode))
    {
      LexStringText(s, tail, style, mode);
    }
  }

  lemma WritesScalar(v: Json, style: Style, mode: Mode)
    requires Safe(v, style, mode) && mode.escape && !IsContainer(v)
    ensures Writes(ScalarText(v, style), TokensOf(v), false, mode)
  {
    hide Lex;
    forall tail: string | Delimits(tail)
      ensures Lex(ScalarText(v, style) + tail, mode) == Joined(TokensOf(v), Lex(tail, mode))
    {
      match v
      case JNull => LexName("null", Null, tail, mode);
      case JBool(b) => LexName(if b then "true" else "false", if b then True else False, tail, mode);
      case JInt(n) => LexInteger(n, tail, mode);
      case JString(s) => LexStringText(s, tail, style, mode);
    }
  }

  lemma LayoutIsWhite(depth: nat, style: Style, mode: Mode)
    ensures Writes(Pad(style, depth), [], true, mode) && Delimits(Pad(style, depth))
    ensures Writes(Newline(style), [], true, mode) && Delimits(Newline(style))
    ensures Writes("", [], true, mode) && Writes("", [], false, mode)
  {
    hide Writes;
    WritesWhite(Pad(style, depth), mode);
    WritesWhite(Newline(style), mode);
    WritesWhite("", mode);
    WritesWeaker("", [], mode);
  }

  /** The frame both containers share: opener, newline, body, pad, closer. */
  lemma WritesFramed(open: char, newline: string, body: string, ts: seq<Token>, pad: string, close: char, mode: Mode)
    requires IsPunctuation(open) && IsPunctuation(close) && Delimits(pad)
    requires Writes(newline, [], true, mode) && Writes(body, ts, false, mode) && Writes(pad, [], true, mode)
    ensures Writes([open] + newline + body + pad + [close], [Punctuation(open)] + ts + [Punctuation(close)], true, mode)
  {
    hide Writes;
    WritesPunctuation(open, mode);
    WritesPunctuation(close, mode);
    var o, c := [Punctuation(open)], [Punctuation(close)];
    WritesThen([open], o, newline, [], true, mode);
    WritesThen([open] + newline, o + [], body, ts, false, mode);
    WritesThen(pad, [], [close], c, true, mode);
    assert Delimits(pad + [close]);
    WritesBefore([open] + newline + body, o + [] + ts, pad + [close], [] + c, true, mode);
    assert [open] + newline + body + (pad + [close]) == [open] + newline + body + pad + [close];
    assert o + [] + ts + ([] + c) == o + ts + c;
  }

  /** One line: pad, value, perhaps a comma, newline; then the lines after it. */
  lemma WritesLine(pad: string, v: string, ts: seq<Token>, comma: bool, newline: string,
                   lines: string, more: seq<Token>, mode: Mode)
    requires Writes(pad, [], true, mode) && Writes(newline, [], true, mode)
    requires Writes(v, ts, false, mode) && Writes(lines, more, false, mode) && Delimits(newline)
    requires comma || (lines == "" && more == [])
    ensures Writes(pad + v + (if comma then "," else "") + newline + lines,
                   ts + (if comma then [Comma] else []) + more, false, mode)
  {
    hide Writes;
    WritesThen(pad, [], v, ts, false, mode);
    assert [] + ts == ts;
    var head := pad + v;
    if comma {
      WritesPunctuation(',', mode);
      WritesThen(",", [Comma], newline, [], true, mode);
      WritesThen("," + newline, [Comma] + [], lines, more, false, mode);
      WritesBefore(head, ts, "," + newline + lines, [Comma] + [] + more, false, mode);
      assert head + ("," + newline + lines) == head + "," + newline + lines;
      assert ts + ([Comma] + [] + more) == ts + [Comma] + more;
    } else {
      assert head + "" + newline + lines == head + newline;
      assert ts + [] + more == ts;
      if newline != "" {
        WritesBefore(head, ts, newline, [], true, mode);
        assert ts + [] == ts;
        WritesWeaker(head + newline, ts, mode);
      } else {
        assert head + newline == head;
      }
    }
  }

  /** Whatever the style, the depth and what follows, a tree's text lexes to its tokens. */
  lemma {:induction false} WritesText(v: Json, depth: nat, style: Style, mode: Mode)
    requires depth > 0 && Safe(v, style, mode) && mode.escape
    ensures Writes(Text(v, depth, style), TokensOf(v), false, mode)
    decreases v, 3
  {
    hide Writes;
    match v
    case JArray(es) =>
      WritesArray(es, depth, es == [], style, mode);
      WritesWeaker(Text(v, depth, style), TokensOf(v), mode);
    case JObject(ms) =>
      WritesObject(ms, depth, ms == [], style, mode);
      WritesWeaker(Text(v, depth, style), TokensOf(v), mode);
    case _ => WritesScalar(v, style, mode);
  }

  lemma {:induction false} WritesArray(es: seq<Json>, depth: nat, empty: bool, style: Style, mode: Mode)
    requires depth > 0 && mode.escape && forall i :: 0 <= i < |es| ==> Safe(es[i], style, mode)
    ensures Writes(ArrayText(es, depth, empty, style), TokensOf(JArray(es)), true, mode)
    decreases es, 2
  {
    hide Writes;
    hide Pad;
    hide Newline;
    hide Safe;
    LayoutIsWhite(depth - 1, style, mode);
    WritesItems(es, depth, style, mode);
    WritesFramed('[', if es == [] then "" else Newline(style), ItemsText(es, depth, style), Items(es),
                 if empty then "" else Pad(style, depth - 1), ']', mode);
  }

  lemma {:induction false} WritesItems(es: seq<Json>, depth: nat, style: Style, mode: Mode)
    requires depth > 0 && mode.escape && forall i :: 0 <= i < |es| ==> Safe(es[i], style, mode)
    ensures Writes(ItemsText(es, depth, style), Items(es), false, mode)
    decreases es, 1
  {
    hide Writes;
    hide Pad;
    hide Newline;
    hide Safe;
    LayoutIsWhite(depth, style, mode);
    if es != [] {
      WritesText(es[0], depth + 1, style, mode);
      WritesItems(es[1..], depth, style, mode);
      WritesLine(Pad(style, depth), Text(es[0], depth + 1, style), TokensOf(es[0]), |es| > 1, Newline(style),
                 ItemsText(es[1..], depth, style), Items(es[1..]), mode);
      assert MoreItems(es[1..]) == (if |es| > 1 then [Comma] else []) + Items(es[1..]);
      assert Items(es) == TokensOf(es[0]) + (if |es| > 1 then [Comma] else []) + Items(es[1..]);
    }
  }

  lemma {:induction false} WritesObject(ms: seq<Member>, depth: nat, empty: bool, style: Style, mode: Mode)
    requires depth > 0 && mode.escape && forall i :: 0 <= i < |ms| ==> SafeMember(ms[i], style, mode)
    ensures Writes(ObjectText(ms, depth, empty, style), TokensOf(JObject(ms)), true, mode)
    decreases ms, 2
  {
    hide Writes;
    hide Pad;
    hide Newline;
    hide SafeMember;
    LayoutIsWhite(depth - 1, style, mode);
    WritesPairs(ms, depth, style, mode);
    WritesFramed('{', if ms == [] then "" else Newline(style), PairsText(ms, depth, style), Pairs(ms),
                 if empty then "" else Pad(style, depth - 1), '}', mode);
  }

  lemma {:induction false} WritesPairs(ms: seq<Member>, depth: nat, style: Style, mode: Mode)
    requires depth > 0 && mode.escape && forall i :: 0 <= i < |ms| ==> SafeMember(ms[i], style, mode)
    ensures Writes(PairsText(ms, depth, style), Pairs(ms), false, mode)
    decreases ms, 1
  {
    hide Writes;
    hide Pad;
    hide Newline;
    hide SafeMember;
    LayoutIsWhite(depth, style, mode);
    if ms != [] {
      WritesPair(ms[0], depth, style, mode);
      WritesPairs(ms[1..], depth, style, mode);
      WritesLine(Pad(style, depth), PairText(ms[0], depth, style), PairTokens(ms[0]), |ms| > 1, Newline(style),
                 PairsText(ms[1..], depth, style), Pairs(ms[1..]), mode);
      assert MorePairs(ms[1..]) == (if |ms| > 1 then [Comma] else []) + Pairs(ms[1..]);
      assert Pairs(ms) == PairTokens(ms[0]) + (if |ms| > 1 then [Comma] else []) + Pairs(ms[1..]);
    }
  }

  lemma {:induction false} WritesPair(m: Member, depth: nat, style: Style, mode: Mode)
    requires depth > 0 && mode.escape && SafeMember(m, style, mode)
    ensures Writes(PairText(m, depth, style), PairTokens(m), false, mode)
    decreases m, 0
  {
    hide Writes;
    WritesString(m.key, style, mode);
    WritesPunctuation(':', mode);
    var gap := ColonText(style)[1..];
    assert ColonText(style) == ":" + gap;
    WritesWhite(gap, mode);
    WritesThen(":", [Colon], gap, [], true, mode);
    WritesText(m.value, depth + 1, style, mode);
    var key, colon, value := StringText(m.key, style), ColonText(style), Text(m.value, depth + 1, style);
    WritesThen(key, [Str(m.key.value)], colon, [Colon] + [], true, mode);
    WritesThen(key + colon, [Str(m.key.value)] + ([Colon] + []), value, TokensOf(m.value), false, mode);
    assert [Str(m.key.value)] + ([Colon] + []) == [Str(m.key.value), Colon];
  }

  // ---- which trees, in which mode ----

  /** Trees of null, bool, 32-bit integers, strings with escapes resolved, and containers of these. */
  predicate Data(v: Json)
    decreases v
  {
    match v
    case Missing => false
    case JFloat(_) => false
    case JInt(n) => INT_MIN <= n <= INT_MAX
    case JString(s) => s.isEscaped
    case JArray(es) => forall i :: 0 <= i < |es| ==> Data(es[i])
    case JObject(ms) => forall i :: 0 <= i < |ms| ==> DataMember(ms[i])
    case _ => true
  }

  predicate DataMember(m: Member)
    decreases m
  {
    m.key.isEscaped && Data(m.value)
  }

  /** No string in the tree holds a quote or a backslash. */
  predicate PlainTree(v: Json)
    decreases v
  {
    match v
    case JString(s) => Plain(s.value)
    case JArray(es) => forall i :: 0 <= i < |es| ==> PlainTree(es[i])
    case JObject(ms) => forall i :: 0 <= i < |ms| ==> PlainMember(ms[i])
    case _ => true
  }

  predicate PlainMember(m: Member)
    decreases m
  {
    Plain(m.key.value) && PlainTree(m.value)
  }

  /** `format` undoes escapes itself unless told that they are resolved already. */
  predicate Unescapes(style: Style) { style.Pretty? && !style.escape }

  lemma StringIsSafe(s: JsonString, style: Style, mode: Mode)
    requires s.isEscaped && (Unescapes(style) || Plain(s.value))
    ensures StringSafe(s, style, mode) && StringBody(s, style).Ok?
  {
    if Unescapes(style) {
      EscapeUndoesUnescape(s.value, mode);
      UnescapedIsClosed(s.value);
    } else {
      PlainIsClosed(s.value, mode);
    }
  }

  lemma {:induction false} DataIsSafe(v: Json, style: Style, mode: Mode)
    requires Data(v) && (Unescapes(style) || PlainTree(v))
    ensures Safe(v, style, mode) && Clean(v, true) && Whole(v) && !Throws(v, style)
    decreases v, 1
  {
    match v
    case JString(s) => StringIsSafe(s, style, mode);
    case JArray(es) =>
      forall i | 0 <= i < |es|
        ensures Safe(es[i], style, mode) && Clean(es[i], true) && Whole(es[i]) && !Throws(es[i], style)
      {
        DataIsSafe(es[i], style, mode);
      }
      AllClean(es);
    case JObject(ms) =>
      forall i | 0 <= i < |ms|
        ensures SafeMember(ms[i], style, mode) && CleanMember(ms[i], true) && WholeMember(ms[i])
        ensures !MemberThrows(ms[i], style)
      {
        DataMemberIsSafe(ms[i], style, mode);
      }
      AllMembersClean(ms);
    case _ =>
  }

  lemma {:induction false} DataMemberIsSafe(m: Member, style: Style, mode: Mode)
    requires DataMember(m) && (Unescapes(style) || PlainMember(m))
    ensures SafeMember(m, style, mode) && CleanMember(m, true) && WholeMember(m) && !MemberThrows(m, style)
    decreases m, 0
  {
    StringIsSafe(m.key, style, mode);
    DataIsSafe(m.value, style, mode);
  }

  lemma {:induction false} AllClean(es: seq<Json>)
    requires forall i :: 0 <= i < |es| ==> Clean(es[i], true)
    ensures CleanAll(es, true)
  {
    if es != [] {
      AllClean(es[1..]);
    }
  }

  lemma {:induction false} AllMembersClean(ms: seq<Member>)
    requires forall i :: 0 <= i < |ms| ==> CleanMember(ms[i], true)
    ensures CleanMembers(ms, true)
  {
    if ms != [] {
      AllMembersClean(ms[1..]);
    }
  }

  // ---- the round trip ----

  /** The style `format` uses for an indent. */
  function FormatStyle(indent: int, escape: bool, mode: Mode): Style {
    if indent <= 0 then Compact else Pretty(indent, escape, mode)
  }

  /** The text of a root container lexes to its tokens. */
  lemma FormatLexes(root: Json, indent: int, escape: bool, mode: Mode)
    requires IsContainer(root) && Data(root) && mode.escape
    requires (indent > 0 && !escape) || PlainTree(root)
    ensures Lex(FormatText(root, indent, escape, mode), mode) == Good(TokensOf(root))
  {
    var style, text := FormatStyle(indent, escape, mode), FormatText(root, indent, escape, mode);
    DataIsSafe(root, style, mode);
    if root.JArray? {
      WritesArray(root.elements, 1, indent <= 0 && root.elements == [], style, mode);
    } else {
      WritesObject(root.members, 1, indent <= 0 && root.members == [], style, mode);
    }
    assert Writes(text, TokensOf(root), true, mode);
    assert text + "" == text;
    assert TokensOf(root) + [] == TokensOf(root);
    assert Lex("", mode) == Good([]);
  }

  /** What `parse` returns for a tree that has been read back whole. */
  function RootOf(root: Json): JsonParser.Document
    requires IsContainer(root)
  {
    if root.JArray? then JsonParser.Array(root.elements) else JsonParser.Object(root.members)
  }

  /**
   Formatting with any positive indent and no escaping, then lexing and parsing,
   gives back every tree: no quote, backslash or control character gets in the way.
   */
  lemma FormatRoundTrip(root: Json, indent: int, mode: Mode)
    requires IsContainer(root) && Data(root) && indent > 0 && mode.escape
    ensures var lexed := Lex(FormatText(root, indent, false, mode), mode);
            lexed.Good? && JsonParser.Parse(lexed.tokens, true) == RootOf(root)
  {
    FormatLexes(root, indent, false, mode);
    DataIsSafe(root, Pretty(indent, false, mode), mode);
    JsonGrammar.TokensParseBack(root, true);
  }

  /** The same on the code's own loops: format, lex, parse. */
  method Reparse(root: Json, indent: int, mode: Mode) returns (d: JsonParser.Document)
    requires IsContainer(root) && Data(root) && indent > 0 && mode.escape
    ensures d == RootOf(root)
  {
    FormatRoundTrip(root, indent, mode);
    DataIsSafe(root, Pretty(indent, false, mode), mode);
    var formatter := new JsonFormatter(indent, false, mode);
    var ok := formatter.Format(root);
    var lexer := new JsonLexer(formatter.fmt, mode);
    ok := lexer.GetTokens();
    var parser := new JsonParser.JsonParser(lexer.tokens, true);
    d := parser.ParseDocument();
  }
}
